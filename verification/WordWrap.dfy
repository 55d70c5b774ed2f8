/** wordwrap.c and the loop of display_text that iterates it. */
module WordWrap {
  import opened CStrings

  predicate IsBlank(c: char) {
    c == ' ' || c == '\t'
  }

  function Shown(c: char): char {
    if c == '\t' then ' ' else c
  }

  // The text with TABs shown as spaces.
  function Detab(s: string): string {
    seq(|s|, k requires 0 <= k < |s| => Shown(s[k]))
  }

  // The last blank at a position from 1 to width, or 0.
  function LastBlank(s: string, width: nat): (b: nat)
    requires width < |s|
    ensures b <= width
    ensures b > 0 ==> IsBlank(s[b])
    ensures forall k :: b < k <= width ==> !IsBlank(s[k])
  {
    if width == 0 || IsBlank(s[width]) then width else LastBlank(s, width - 1)
  }

  // The first position from b on that holds no space.
  function SpacesEnd(s: string, b: nat): (n: nat)
    requires b <= |s|
    ensures b <= n <= |s|
    ensures forall k :: b <= k < n ==> s[k] == ' '
    ensures n < |s| ==> s[n] != ' '
    decreases |s| - b
  {
    if b < |s| && s[b] == ' ' then SpacesEnd(s, b + 1) else b
  }

  // One line of output, and the text to resume from (None at the end).
  datatype Step = Step(line: string, rest: Option<string>)

  // Where the text of a line ends that runs up to a line feed.
  function LineEnd(s: string, lf: nat): nat
    requires lf < |s|
  {
    if lf > 0 && s[lf - 1] == '\r' then lf - 1 else lf
  }

  function LfStep(s: string, lf: nat): Step
    requires lf < |s|
  {
    Step(Detab(s[..LineEnd(s, lf)]), Some(s[lf + 1..]))
  }

  function CutStep(s: string, width: nat): Step
    requires width < |s|
  {
    var b := LastBlank(s, width);
    if b == 0 then Step(Detab(s[..width]), Some(s[width..]))
    else
      var next := SpacesEnd(s, b);
      Step(Detab(s[..b]), if next == |s| then None else Some(s[next..]))
  }

  // What one call makes of the text s: a line feed within the first width characters ends the
  // line, a text that fits is taken whole, anything else is cut at the last blank that leaves at
  // most width characters, or after width characters when there is none.
  function Wrap(s: string, width: nat): Step {
    var lf := IndexOf(s, '\n');
    if lf < |s| && lf < width then LfStep(s, lf)
    else if |s| <= width then Step(Detab(s), None)
    else CutStep(s, width)
  }

  // Position next is where step resumes in the text; -1 stands for NULL.
  predicate ResumesAt(text: string, step: Step, next: int) {
    match step.rest
    case None => next == -1
    case Some(rest) => 0 <= next <= |text| && text[next..] == rest
  }

  // The first x characters of s are in the line, and lastspace is the last blank among them.
  ghost predicate Filled(mem: seq<char>, s: string, x: nat, lastspace: nat) {
    x <= |s| && x < |mem| && (forall k :: 0 <= k < x ==> mem[k] == Shown(s[k]) && s[k] != '\n') &&
    lastspace <= x && (lastspace > 0 ==> lastspace < x && IsBlank(s[lastspace])) &&
    forall k :: lastspace < k < x ==> !IsBlank(s[k])
  }

  /** wordwrap: str is the position in text the call starts from; the result is the position to
      resume from, or -1 for NULL. */
  method Wordwrap(text: string, str: nat, line: array<char>, width: nat) returns (next: int)
    requires NUL !in text && str <= |text| && width < line.Length
    modifies line
    ensures Content(line[..]) == Wrap(text[str..], width).line
    ensures ResumesAt(text, Wrap(text[str..], width), next)
    ensures next == -1 || str <= next
    ensures forall k :: width < k < line.Length ==> line[k] == old(line[k])
  {
    ghost var s := text[str..];
    var lastspace := 0;
    var x := 0;
    while true
      invariant 0 <= x <= width && 0 <= lastspace && Filled(line[..], s, x, lastspace)
      invariant forall k :: width < k < line.Length ==> line[k] == old(line[k])
      decreases width - x
    {
      line[x] := CharAt(text, str + x);
      if CharAt(text, str + x) == NUL {
        WholeText(line[..], text, str, s, width);
        return -1;
      }
      if line[x] == '\t' { line[x] := ' '; }
      if line[x] == ' ' { lastspace := x; }
      if x == width { break; }
      if text[str + x] == '\n' {
        next := CutAtLineFeed(text, str, line, width, x, lastspace);
        return;
      }
      x := x + 1;
    }
    next := CutLine(text, str, line, width, lastspace);
  }

  /** A line feed ends the line; a CR in front of it is deleted with it. */
  method CutAtLineFeed(text: string, str: nat, line: array<char>, width: nat, x: nat, ghost lastspace: nat)
    returns (next: int)
    requires NUL !in text && str + x < |text| && text[str + x] == '\n' && x < width < line.Length
    requires Filled(line[..], text[str..], x, lastspace)
    modifies line
    ensures Content(line[..]) == Wrap(text[str..], width).line
    ensures ResumesAt(text, Wrap(text[str..], width), next) && next == str + x + 1
    ensures forall k :: width < k < line.Length ==> line[k] == old(line[k])
  {
    if x > 0 {
      if text[str + x - 1] == '\r' { line[x - 1] := NUL; }
    }
    line[x] := NUL;
    LineFeedAt(line[..], text, str, text[str..], x, width);
    next := str + x + 1;
  }

  /** The end of wordwrap, for a text that goes on past the line: the cut itself. */
  method CutLine(text: string, str: nat, line: array<char>, width: nat, lastspace: nat) returns (next: int)
    requires NUL !in text && str <= |text|
    requires var s := text[str..];
             width < |s| && width < line.Length && lastspace <= width &&
             (forall k :: 0 <= k <= width ==> line[k] == Shown(s[k])) &&
             (forall k :: 0 <= k < width ==> s[k] != '\n') &&
             (lastspace > 0 ==> IsBlank(s[lastspace])) &&
             (forall k :: lastspace < k <= width ==> !IsBlank(s[k]))
    modifies line
    ensures Content(line[..]) == Wrap(text[str..], width).line
    ensures ResumesAt(text, Wrap(text[str..], width), next)
    ensures next == -1 || str <= next
    ensures forall k :: width < k < line.Length ==> line[k] == old(line[k])
  {
    if lastspace == 0 {
      line[width] := NUL;
      CutAt(line[..], text, str, text[str..], width, 0, str + width);
      return str + width;
    }
    line[lastspace] := NUL;
    next := SkipFrom(text, str + lastspace);
    CutAt(line[..], text, str, text[str..], width, lastspace, next);
    if CharAt(text, next) == NUL { return -1; }
  }

  /** The loop of wordwrap that steps over the spaces at a cut. */
  method SkipFrom(text: string, start: nat) returns (next: nat)
    requires NUL !in text && start <= |text|
    ensures start <= next <= |text| && CharAt(text, next) != ' '
    ensures forall p :: start <= p < next ==> text[p] == ' '
  {
    next := start;
    while CharAt(text, next) == ' '
      invariant start <= next <= |text|
      invariant forall p :: start <= p < next ==> text[p] == ' '
      decreases |text| - next
    {
      next := next + 1;
    }
  }

  // A line buffer holding the first n characters of s as shown, and then a terminator.
  lemma Terminated(mem: seq<char>, s: string, n: nat)
    requires NUL !in s && n <= |s| && n < |mem| && mem[n] == NUL
    requires forall k :: 0 <= k < n ==> mem[k] == Shown(s[k])
    ensures Content(mem) == Detab(s[..n])
  {
    forall k | 0 <= k < n
      ensures mem[k] != NUL
    {
      assert s[k] in s;
    }
    ContentIs(mem, n);
    assert mem[..n] == Detab(s[..n]);
  }

  // The three ways out of the loop of wordwrap.
  lemma WholeText(mem: seq<char>, text: string, str: nat, s: string, width: nat)
    requires NUL !in text && str <= |text| && s == text[str..]
    requires |s| <= width && |s| < |mem| && mem[|s|] == NUL
    requires forall k :: 0 <= k < |s| ==> mem[k] == Shown(s[k]) && s[k] != '\n'
    ensures Content(mem) == Wrap(text[str..], width).line
    ensures ResumesAt(text, Wrap(text[str..], width), -1)
  {
    Terminated(mem, s, |s|);
    assert s[..|s|] == s;
  }

  lemma LineFeedAt(mem: seq<char>, text: string, str: nat, s: string, x: nat, width: nat)
    requires NUL !in text && str <= |text| && s == text[str..]
    requires x < |s| && x < width && x < |mem| && s[x] == '\n' && mem[x] == NUL
    requires forall k :: 0 <= k < x ==> s[k] != '\n'
    requires forall k :: 0 <= k < x ==>
               mem[k] == if k == x - 1 && s[k] == '\r' then NUL else Shown(s[k])
    ensures Content(mem) == Wrap(text[str..], width).line
    ensures ResumesAt(text, Wrap(text[str..], width), str + x + 1)
  {
    assert IndexOf(s, '\n') == x;
    Terminated(mem, s, LineEnd(s, x));
    assert text[str + x + 1..] == s[x + 1..];
  }

  lemma CutAt(mem: seq<char>, text: string, str: nat, s: string, width: nat, b: nat, next: nat)
    requires NUL !in text && str <= |text| && s == text[str..]
    requires b <= width < |s| && width < |mem|
    requires forall k :: 0 <= k < width ==> s[k] != '\n'
    requires b > 0 ==> IsBlank(s[b])
    requires forall k :: b < k <= width ==> !IsBlank(s[k])
    requires var n := if b == 0 then width else b;
             mem[n] == NUL && forall k :: 0 <= k < n ==> mem[k] == Shown(s[k])
    requires str + b <= next <= |text|
    requires b == 0 ==> next == str + width
    requires b > 0 ==> (forall p :: str + b <= p < next ==> text[p] == ' ') && CharAt(text, next) != ' '
    ensures Content(mem) == Wrap(text[str..], width).line
    ensures ResumesAt(text, Wrap(text[str..], width), if b > 0 && next == |text| then -1 else next)
  {
    assert IndexOf(s, '\n') >= width;
    LastBlankIs(s, width, b);
    if b == 0 {
      Terminated(mem, s, width);
      assert text[next..] == s[width..];
      assert Wrap(s, width) == Step(Detab(s[..width]), Some(text[next..]));
    } else {
      Terminated(mem, s, b);
      RestBehindSpaces(text, str, s, b, next);
      assert Wrap(s, width) == Step(Detab(s[..b]), if next == |text| then None else Some(text[next..]));
    }
  }

  // The text behind the spaces at a cut.
  lemma RestBehindSpaces(text: string, str: nat, s: string, b: nat, next: nat)
    requires str <= |text| && s == text[str..] && b <= |s| && str + b <= next <= |text|
    requires (forall p :: str + b <= p < next ==> text[p] == ' ') && CharAt(text, next) != ' '
    ensures SpacesEnd(s, b) == next - str && text[next..] == s[next - str..]
  {
    var n := SpacesEnd(s, b);
    assert n < |s| ==> s[n] == text[str + n];
    assert next < |text| ==> text[next] == s[next - str];
    assert text[next..] == s[next - str..];
  }

  lemma LastBlankIs(s: string, width: nat, b: nat)
    requires width < |s| && b <= width && (b > 0 ==> IsBlank(s[b]))
    requires forall k :: b < k <= width ==> !IsBlank(s[k])
    ensures LastBlank(s, width) == b
  {
  }

  /** A line is the beginning of the text, character by character, with TABs as spaces; it holds no line
      feed. */
  lemma WrapLine(s: string, width: nat)
    ensures var line := Wrap(s, width).line;
            |line| <= width && |line| <= |s| &&
            forall k :: 0 <= k < |line| ==> s[k] != '\n' && line[k] == if s[k] == '\t' then ' ' else s[k]
  {
  }

  ghost predicate FirstFeed(s: string, lf: int) {
    0 <= lf < |s| && s[lf] == '\n' && forall k :: 0 <= k < lf ==> s[k] != '\n'
  }

  ghost predicate LastBlankAt(s: string, b: int, width: int) {
    1 <= b <= width < |s| && (s[b] == ' ' || s[b] == '\t') && forall k :: b < k <= width ==> s[k] != ' ' && s[k] != '\t'
  }

  /** Where it ends: at a line feed in reach, which goes with one CR in front of it; at the end of a text
      that fits; at the last blank in reach, which goes with the spaces there; or after width characters. */
  lemma WrapEnds(s: string, width: nat)
    ensures forall lf :: FirstFeed(s, lf) && lf < width ==>
              Wrap(s, width).rest == Some(s[lf + 1..]) &&
              |Wrap(s, width).line| == if lf > 0 && s[lf - 1] == '\r' then lf - 1 else lf
    ensures |s| <= width && '\n' !in s[..Min(width, |s|)] ==>
              |Wrap(s, width).line| == |s| && Wrap(s, width).rest == None
    ensures forall b :: LastBlankAt(s, b, width) && '\n' !in s[..width] ==>
              |Wrap(s, width).line| == b && ResumesBehind(s, b, Wrap(s, width).rest)
    ensures |s| > width && (forall b :: !LastBlankAt(s, b, width)) && '\n' !in s[..width] ==>
              |Wrap(s, width).line| == width && Wrap(s, width).rest == Some(s[width..])
  {
    var lf := IndexOf(s, '\n');
    assert FirstFeed(s, lf) || lf == |s|;
    if |s| > width {
      CutIs(s, width);
      assert lf < width ==> s[..width][lf] == '\n';
    }
  }

  // Behind the spaces that start at b, if anything is there.
  ghost predicate ResumesBehind(s: string, b: nat, rest: Option<string>)
    requires b <= |s|
  {
    match rest
    case None => forall k :: b <= k < |s| ==> s[k] == ' '
    case Some(t) => exists n :: b <= n < |s| && t == s[n..] && s[n] != ' ' && forall k :: b <= k < n ==> s[k] == ' '
  }

  lemma CutIs(s: string, width: nat)
    requires width < |s|
    ensures var b, step := LastBlank(s, width), CutStep(s, width);
            if b == 0 then
              (forall k :: !LastBlankAt(s, k, width)) && |step.line| == width && step.rest == Some(s[width..])
            else LastBlankAt(s, b, width) && |step.line| == b && ResumesBehind(s, b, step.rest)
  {
    var b := LastBlank(s, width);
    if b > 0 {
      var n := SpacesEnd(s, b);
      if n < |s| {
        assert s[n..] == s[n..] && s[n] != ' ';
      }
    }
  }

  /* ---------- what the caller's loop gets ---------- */

  /** One call makes progress: the text to resume from is a proper suffix. */
  lemma WrapAdvances(s: string, width: nat)
    requires width >= 1
    ensures var step := Wrap(s, width);
            step.rest.Some? ==> |step.rest.value| < |s| && step.rest.value == s[|s| - |step.rest.value|..]
  {
  }

  // All the lines of a text: the loop of display_text.
  function WrapAll(s: string, width: nat): (lines: seq<string>)
    requires width >= 1
    ensures |lines| >= 1
    decreases |s|
  {
    WrapAdvances(s, width);
    var step := Wrap(s, width);
    [step.line] + match step.rest case None => [] case Some(rest) => WrapAll(rest, width)
  }

  // The visible characters of a text.
  function Ink(s: string): string {
    if s == "" then "" else
    (if s[0] == ' ' || s[0] == '\t' || s[0] == '\r' || s[0] == '\n' then "" else [s[0]]) + Ink(s[1..])
  }

  function Concat(lines: seq<string>): string {
    if lines == [] then "" else lines[0] + Concat(lines[1..])
  }

  lemma {:induction false} InkConcat(a: string, b: string)
    ensures Ink(a + b) == Ink(a) + Ink(b)
  {
    if a == "" {
      assert a + b == b;
    } else {
      assert (a + b)[1..] == a[1..] + b;
      InkConcat(a[1..], b);
    }
  }

  lemma {:induction false} InkDetab(s: string)
    ensures Ink(Detab(s)) == Ink(s)
  {
    if s != "" {
      assert Detab(s)[1..] == Detab(s[1..]);
      InkDetab(s[1..]);
    }
  }

  lemma {:induction false} InkSpaces(s: string)
    requires forall k :: 0 <= k < |s| ==> s[k] == ' '
    ensures Ink(s) == ""
  {
    if s != "" {
      InkSpaces(s[1..]);
    }
  }

  function InkOf(rest: Option<string>): string {
    match rest case None => "" case Some(s) => Ink(s)
  }

  lemma Parts(s: string, a: nat, b: nat)
    requires a <= b <= |s|
    ensures s == s[..a] + (s[a..b] + s[b..])
  {
  }

  // White space in the middle of a text does not count.
  lemma {:induction false} InkAround(s: string, front: string, blank: string, back: string)
    requires s == front + (blank + back) && Ink(blank) == ""
    ensures Ink(s) == Ink(front) + Ink(back)
  {
    InkConcat(front, blank + back);
    InkConcat(blank, back);
    assert "" + Ink(back) == Ink(back);
  }

  lemma LineEndIsBlank(s: string, lf: nat)
    requires lf < |s| && s[lf] == '\n'
    ensures Ink(s[LineEnd(s, lf)..lf + 1]) == ""
  {
    if LineEnd(s, lf) == lf {
      assert s[lf..lf + 1] == "\n";
    } else {
      assert s[lf - 1..lf + 1] == "\r\n";
      assert "\r\n"[1..] == "\n";
    }
  }

  lemma LfKeepsInk(s: string, lf: nat)
    requires lf < |s| && s[lf] == '\n'
    ensures Ink(s) == Ink(LfStep(s, lf).line) + Ink(s[lf + 1..])
  {
    var keep := LineEnd(s, lf);
    LineEndIsBlank(s, lf);
    Parts(s, keep, lf + 1);
    InkAround(s, s[..keep], s[keep..lf + 1], s[lf + 1..]);
    InkDetab(s[..keep]);
  }

  lemma CutKeepsInk(s: string, width: nat)
    requires width < |s|
    ensures var step := CutStep(s, width);
            Ink(s) == Ink(step.line) + InkOf(step.rest)
  {
    var b := LastBlank(s, width);
    if b == 0 {
      HardCutKeepsInk(s, width);
    } else {
      var next := SpacesEnd(s, b);
      BlankCutKeepsInk(s, b, next);
      assert s[|s|..] == "";
    }
  }

  lemma HardCutKeepsInk(s: string, width: nat)
    requires width < |s|
    ensures Ink(s) == Ink(Detab(s[..width])) + Ink(s[width..])
  {
    assert s == s[..width] + s[width..];
    InkConcat(s[..width], s[width..]);
    InkDetab(s[..width]);
  }

  lemma BlankCutKeepsInk(s: string, b: nat, next: nat)
    requires b <= next <= |s| && forall k :: b <= k < next ==> s[k] == ' '
    ensures Ink(s) == Ink(Detab(s[..b])) + Ink(s[next..])
  {
    InkSpaces(s[b..next]);
    Parts(s, b, next);
    InkAround(s, s[..b], s[b..next], s[next..]);
    InkDetab(s[..b]);
  }

  // One call: what the line does not show and the rest does not hold is white space.
  lemma WrapKeepsInk(s: string, width: nat)
    ensures var step := Wrap(s, width);
            Ink(s) == Ink(step.line) + InkOf(step.rest)
  {
    var lf := IndexOf(s, '\n');
    if lf < |s| && lf < width {
      LfKeepsInk(s, lf);
    } else if |s| <= width {
      InkDetab(s);
    } else {
      CutKeepsInk(s, width);
    }
  }

  /** Wrapping loses nothing and keeps the width: for every text and every positive width no line
      is longer than the width, and the lines hold the visible characters of the text, in order. */
  lemma {:induction false} WrapAllKeepsInk(s: string, width: nat)
    requires width >= 1
    ensures forall k :: 0 <= k < |WrapAll(s, width)| ==> |WrapAll(s, width)[k]| <= width
    ensures Ink(Concat(WrapAll(s, width))) == Ink(s)
    decreases |s|
  {
    var step := Wrap(s, width);
    WrapAdvances(s, width);
    WrapKeepsInk(s, width);
    match step.rest {
      case None =>
        InkOfLines(step.line, []);
        assert [step.line] + [] == [step.line];
      case Some(rest) =>
        WrapAllKeepsInk(rest, width);
        InkOfLines(step.line, WrapAll(rest, width));
    }
  }

  lemma InkOfLines(line: string, rest: seq<string>)
    ensures Ink(Concat([line] + rest)) == Ink(line) + Ink(Concat(rest))
  {
    assert ([line] + rest)[1..] == rest;
    InkConcat(line, Concat(rest));
  }

  /** A word is only ever split when it is too long: a line that ends neither at a line feed nor
      at the end of the text ends in front of a blank, or is full with no blank to cut at. */
  lemma CutsAtBlanks(s: string, width: nat)
    requires width >= 1 && Wrap(s, width).rest.Some?
    ensures var n := |Wrap(s, width).line|;
            (exists lf :: n <= lf <= n + 1 && lf < |s| && s[lf] == '\n') ||
            (0 < n < |s| && (s[n] == ' ' || s[n] == '\t')) ||
            (n == width < |s| && forall k :: 1 <= k <= width ==> s[k] != ' ' && s[k] != '\t')
  {
    var lf := IndexOf(s, '\n');
    if lf < |s| && lf < width {
      assert s[lf] == '\n';
    }
  }

  // Words separated by single spaces, none longer than the width, on one line.
  ghost predicate WellSpaced(s: string, width: nat) {
    (forall k :: 0 <= k < |s| ==> s[k] != '\t' && s[k] != '\n') &&
    (s != "" ==> s[0] != ' ' && s[|s| - 1] != ' ') &&
    (forall j, k :: 0 <= j < |s| && k == j + 1 < |s| ==> s[j] != ' ' || s[k] != ' ') &&
    (forall i :: 0 <= i < |s| - width ==> SpaceWithin(s, i, width))
  }

  ghost predicate SpaceWithin(s: string, i: nat, width: nat) {
    exists k :: i <= k <= i + width && k < |s| && s[k] == ' '
  }

  // The lines, put back together with one space at each break.
  function Join(lines: seq<string>): string {
    if lines == [] then "" else if |lines| == 1 then lines[0] else lines[0] + " " + Join(lines[1..])
  }

  // A word starts at i.
  predicate AtWord(s: string, i: nat) {
    i < |s| && s[i] != ' ' && (i == 0 || s[i - 1] == ' ')
  }

  // A call that starts at a word of a well-spaced text either takes all of it or cuts at the last
  // space within reach, which leaves the next call at a word again.
  lemma WrapAtWord(s: string, width: nat, i: nat) returns (next: nat)
    requires width >= 1 && WellSpaced(s, width) && AtWord(s, i)
    ensures |s| - i <= width ==> next == |s| && Wrap(s[i..], width) == Step(s[i..], None)
    ensures |s| - i > width ==>
              i < next <= i + width + 1 && AtWord(s, next) &&
              (forall k :: next <= k <= i + width ==> s[k] != ' ') &&
              Wrap(s[i..], width) == Step(s[i..next - 1], Some(s[next..]))
  {
    var t := s[i..];
    assert IndexOf(t, '\n') == |t|;
    if |t| <= width {
      assert Detab(t) == t;
      return |s|;
    }
    next := i + LastBlank(t, width) + 1;
    CutAtSpace(s, width, i, next);
  }

  lemma LastSpaceWithin(s: string, width: nat, i: nat, t: string, b: nat)
    requires width >= 1 && WellSpaced(s, width) && AtWord(s, i) && i + width < |s|
    requires t == s[i..] && b == LastBlank(t, width)
    ensures 0 < b && i + b + 1 < |s| && s[i + b] == ' ' && s[i + b + 1] != ' '
    ensures t[b] == ' ' && t[b + 1] != ' '
    ensures forall k :: i + b < k <= i + width ==> s[k] != ' '
  {
    assert SpaceWithin(s, i, width);
    var k :| i <= k <= i + width && k < |s| && s[k] == ' ';
    assert t[k - i] == ' ';
    assert t[b] == s[i + b];
    forall k | i + b < k <= i + width
      ensures s[k] != ' '
    {
      assert s[k] == t[k - i];
    }
  }

  lemma CutAtSpace(s: string, width: nat, i: nat, next: nat)
    requires width >= 1 && WellSpaced(s, width) && AtWord(s, i) && i + width < |s|
    requires next == i + LastBlank(s[i..], width) + 1
    ensures i + 1 < next <= i + width + 1 && AtWord(s, next)
    ensures forall k :: next <= k <= i + width ==> s[k] != ' '
    ensures CutStep(s[i..], width) == Step(s[i..next - 1], Some(s[next..]))
  {
    var t := s[i..];
    var b := LastBlank(t, width);
    LastSpaceWithin(s, width, i, t, b);
    assert SpacesEnd(t, b) == b + 1;
    assert t[b + 1..] == s[next..];
    DetabPlain(t[..b]);
    assert t[..b] == s[i..next - 1];
  }

  lemma DetabPlain(s: string)
    requires forall k :: 0 <= k < |s| ==> s[k] != '\t'
    ensures Detab(s) == s
  {
  }

  // The lines from a word on: the first one, and those from the next word on.
  lemma LinesAtWord(s: string, width: nat, i: nat) returns (next: nat)
    requires width >= 1 && WellSpaced(s, width) && AtWord(s, i)
    ensures |s| - i <= width ==> next == |s| && WrapAll(s[i..], width) == [s[i..]]
    ensures |s| - i > width ==>
              i < next <= i + width + 1 && AtWord(s, next) && s[next - 1] == ' ' &&
              (forall k :: next <= k <= i + width ==> s[k] != ' ') &&
              WrapAll(s[i..], width) == [s[i..next - 1]] + WrapAll(s[next..], width)
  {
    next := WrapAtWord(s, width, i);
    WrapAdvances(s[i..], width);
  }

  lemma Rejoin(s: string, i: nat, next: nat)
    requires i < next <= |s| && s[next - 1] == ' '
    ensures s[i..next - 1] + " " + s[next..] == s[i..]
  {
  }

  lemma JoinStep(line: string, rest: seq<string>)
    requires rest != []
    ensures Join([line] + rest) == line + " " + Join(rest)
  {
    assert ([line] + rest)[1..] == rest;
  }

  /** Words stay whole: on a well-spaced text the lines are the text broken at some of its spaces. */
  lemma {:induction false} LinesJoinToText(s: string, width: nat, i: nat)
    requires width >= 1 && WellSpaced(s, width) && AtWord(s, i)
    ensures Join(WrapAll(s[i..], width)) == s[i..]
    decreases |s| - i
  {
    var next := LinesAtWord(s, width, i);
    if next < |s| {
      LinesJoinToText(s, width, next);
      JoinStep(s[i..next - 1], WrapAll(s[next..], width));
      Rejoin(s, i, next);
    }
  }

  // The second line of another breaking starts behind a space.
  lemma OtherBreak(s: string, j: nat, lines: seq<string>) returns (n: nat)
    requires j <= |s| && |lines| > 1 && Join(lines) == s[j..]
    ensures n == j + |lines[0]| + 1 && n <= |s| && s[n - 1] == ' ' && Join(lines[1..]) == s[n..]
  {
    var rest := Join(lines[1..]);
    n := j + |lines[0]| + 1;
    assert s[j..] == lines[0] + " " + rest;
    assert s[n - 1] == s[j..][|lines[0]|];
    assert s[n..] == s[j..][|lines[0]| + 1..] == rest;
  }

  // Stays ahead: started no earlier than another breaking, the greedy one needs no more lines.
  lemma {:induction false} GreedyStaysAhead(s: string, width: nat, i: nat, j: nat, lines: seq<string>)
    requires width >= 1 && WellSpaced(s, width) && AtWord(s, i) && AtWord(s, j) && j <= i
    requires lines != [] && Join(lines) == s[j..]
    requires forall k :: 0 <= k < |lines| ==> |lines[k]| <= width
    ensures |WrapAll(s[i..], width)| <= |lines|
    decreases |lines|
  {
    var next := LinesAtWord(s, width, i);
    if next < |s| {
      assert |lines| > 1;
      var n := OtherBreak(s, j, lines);
      assert n < |s| && s[n] != ' ';
      GreedyStaysAhead(s, width, next, n, lines[1..]);
    }
  }

  /** Greedy wrapping uses the fewest lines: no way to break a well-spaced text at spaces into
      lines of at most the width has fewer of them. */
  lemma {:induction false} FewestLines(s: string, width: nat, lines: seq<string>)
    requires width >= 1 && WellSpaced(s, width)
    requires lines != [] && Join(lines) == s && forall k :: 0 <= k < |lines| ==> |lines[k]| <= width
    ensures |WrapAll(s, width)| <= |lines|
    ensures Join(WrapAll(s, width)) == s
  {
    assert s[0..] == s;
    if s != "" {
      LinesJoinToText(s, width, 0);
      GreedyStaysAhead(s, width, 0, 0, lines);
    }
  }

  /* ---------- several paragraphs ---------- */

  // A text that is cut at a blank, or after width characters, is cut there with more text behind it.
  lemma CutLonger(t: string, more: string, width: nat)
    requires width < |t| && (forall k :: 0 <= k < |t| ==> t[k] != '\n')
    requires LastBlank(t, width) > 0 && SpacesEnd(t, LastBlank(t, width)) < |t|
    ensures var step := CutStep(t, width);
            step.rest.Some? && Wrap(t + more, width) == Step(step.line, Some(step.rest.value + more))
  {
    var u, b := t + more, LastBlank(t, width);
    var next := SpacesEnd(t, b);
    Prefix(t, more);
    LastBlankIs(u, width, b);
    SpacesEndIs(u, b, next);
    SplitLonger(t, more, b, next);
    assert CutStep(u, width) == Step(Detab(t[..b]), Some(t[next..] + more));
  }

  lemma Prefix(t: string, more: string)
    requires forall k :: 0 <= k < |t| ==> t[k] != '\n'
    ensures forall k :: 0 <= k < |t| ==> (t + more)[k] == t[k]
    ensures IndexOf(t + more, '\n') >= |t|
  {
    assert forall k :: 0 <= k < |t| ==> (t + more)[k] == t[k];
  }

  lemma SplitLonger(t: string, more: string, b: nat, next: nat)
    requires b <= next <= |t|
    ensures (t + more)[..b] == t[..b] && (t + more)[next..] == t[next..] + more
  {
  }

  lemma SpacesEndIs(s: string, b: nat, n: nat)
    requires b <= n < |s| && (forall k :: b <= k < n ==> s[k] == ' ') && s[n] != ' '
    ensures SpacesEnd(s, b) == n
  {
  }

  lemma {:induction false} WrapAllThen(u: string, width: nat, line: string, rest: string)
    requires width >= 1 && Wrap(u, width) == Step(line, Some(rest))
    ensures WrapAll(u, width) == [line] + WrapAll(rest, width)
  {
  }

  // A short text up to a line feed is one line.
  lemma FeedStep(t: string, rest: string, width: nat)
    requires |t| < width && forall k :: 0 <= k < |t| ==> t[k] != '\n'
    ensures Wrap(t + ("\n" + rest), width).rest == Some(rest)
  {
    var u := t + ("\n" + rest);
    assert forall k :: 0 <= k < |t| ==> u[k] == t[k];
    assert u[|t|] == '\n' && IndexOf(u, '\n') == |t|;
    assert u[|t| + 1..] == rest;
  }

  lemma {:induction false} LineOfFeed(t: string, rest: string, width: nat)
    requires |t| < width && forall k :: 0 <= k < |t| ==> t[k] != '\n'
    ensures |WrapAll(t + ("\n" + rest), width)| == 1 + |WrapAll(rest, width)|
  {
    var u := t + ("\n" + rest);
    FeedStep(t, rest, width);
    WrapAllThen(u, width, Wrap(u, width).line, rest);
  }

  // The rest of a paragraph that fills a line exactly is cut in front of a line feed.
  lemma FullStep(p: string, i: nat, rest: string, width: nat) returns (k: nat)
    requires width >= 1 && WellSpaced(p, width) && AtWord(p, i) && |p| - i == width
    ensures i < k <= |p| && Wrap(p[i..] + ("\n" + rest), width).rest == Some(p[k..] + ("\n" + rest))
  {
    var t := p[i..];
    var u := t + ("\n" + rest);
    var b := LastBlank(u, width);
    assert forall j :: 0 <= j < width ==> u[j] == p[i + j];
    assert u[width] == '\n' && IndexOf(u, '\n') == width;
    if b == 0 {
      k := |p|;
      assert u[width..] == p[k..] + ("\n" + rest);
    } else {
      k := i + b + 1;
      assert u[b] == p[i + b] == ' ' && b < width;
      assert k < |p| && p[k] != ' ' && u[b + 1] == p[k];
      SpacesEndIs(u, b, b + 1);
      assert u[b + 1..] == p[k..] + ("\n" + rest);
    }
  }

  lemma {:induction false} FullLineOfFeed(p: string, i: nat, rest: string, width: nat)
    requires width >= 1 && WellSpaced(p, width) && AtWord(p, i) && |p| - i == width
    ensures |WrapAll(p[i..] + ("\n" + rest), width)| == 2 + |WrapAll(rest, width)|
  {
    var u := p[i..] + ("\n" + rest);
    var k := FullStep(p, i, rest, width);
    WrapAllThen(u, width, Wrap(u, width).line, p[k..] + ("\n" + rest));
    LineOfFeed(p[k..], rest, width);
  }

  // The last line takes all of its width.
  ghost predicate EndsFull(lines: seq<string>, width: nat) {
    lines != [] && |lines[|lines| - 1]| == width
  }

  lemma {:induction false} ParagraphFrom(p: string, i: nat, rest: string, width: nat)
    requires width >= 1 && WellSpaced(p, width) && AtWord(p, i)
    ensures |WrapAll(p[i..] + ("\n" + rest), width)| ==
            |WrapAll(p[i..], width)| + (if EndsFull(WrapAll(p[i..], width), width) then 1 else 0) +
            |WrapAll(rest, width)|
    decreases |p| - i
  {
    if |p| - i > width {
      var next := LongParagraph(p, i, "\n" + rest, width);
      ParagraphFrom(p, next, rest, width);
      EndOfCons(p[i..next - 1], WrapAll(p[next..], width), width);
    } else {
      var _ := LinesAtWord(p, width, i);
      if |p| - i == width {
        FullLineOfFeed(p, i, rest, width);
      } else {
        LineOfFeed(p[i..], rest, width);
      }
    }
  }

  lemma EndOfCons(line: string, lines: seq<string>, width: nat)
    requires lines != []
    ensures EndsFull([line] + lines, width) <==> EndsFull(lines, width)
  {
  }

  lemma {:induction false} LongStep(p: string, i: nat, more: string, width: nat) returns (next: nat)
    requires width >= 1 && WellSpaced(p, width) && AtWord(p, i) && |p| - i > width
    ensures i < next <= |p| && AtWord(p, next)
    ensures Wrap(p[i..], width) == Step(p[i..next - 1], Some(p[next..]))
    ensures Wrap(p[i..] + more, width) == Step(p[i..next - 1], Some(p[next..] + more))
  {
    var t := p[i..];
    var b := LastBlank(t, width);
    next := i + b + 1;
    CutAtSpace(p, width, i, next);
    assert IndexOf(t, '\n') == |t|;
    LastSpaceWithin(p, width, i, t, b);
    SpacesEndIs(t, b, b + 1);
    CutLonger(t, more, width);
  }

  lemma {:induction false} LongParagraph(p: string, i: nat, more: string, width: nat) returns (next: nat)
    requires width >= 1 && WellSpaced(p, width) && AtWord(p, i) && |p| - i > width
    ensures i < next <= |p| && AtWord(p, next)
    ensures WrapAll(p[i..], width) == [p[i..next - 1]] + WrapAll(p[next..], width)
    ensures WrapAll(p[i..] + more, width) == [p[i..next - 1]] + WrapAll(p[next..] + more, width)
  {
    next := LongStep(p, i, more, width);
    WrapAllThen(p[i..], width, p[i..next - 1], p[next..]);
    WrapAllThen(p[i..] + more, width, p[i..next - 1], p[next..] + more);
  }

  /** A paragraph in front of a line feed takes its lines, and one more when the last of them is full:
      the line feed then finds no room, so that an empty line follows, or the last words go to a line
      of their own. */
  lemma {:induction false} ParagraphLines(p: string, rest: string, width: nat)
    requires width >= 1 && WellSpaced(p, width)
    ensures |WrapAll(p + ("\n" + rest), width)| ==
            |WrapAll(p, width)| + (if EndsFull(WrapAll(p, width), width) then 1 else 0) + |WrapAll(rest, width)|
  {
    assert p[0..] == p;
    if p == "" {
      LineOfFeed(p, rest, width);
    } else {
      ParagraphFrom(p, 0, rest, width);
    }
  }

  function JoinParagraphs(ps: seq<string>): string {
    if ps == [] then "" else if |ps| == 1 then ps[0] else ps[0] + ("\n" + JoinParagraphs(ps[1..]))
  }

  // The lines of the paragraphs one by one, and one for each but the last that ends full.
  function CountLines(ps: seq<string>, width: nat): nat
    requires width >= 1
  {
    if ps == [] then 1 else if |ps| == 1 then |WrapAll(ps[0], width)|
    else
      var lines := WrapAll(ps[0], width);
      |lines| + (if |lines[|lines| - 1]| == width then 1 else 0) + CountLines(ps[1..], width)
  }

  /** The lines of a text by its paragraphs; FewestLines says that those of each are the fewest. */
  lemma {:induction false} TextLines(ps: seq<string>, width: nat)
    requires width >= 1 && forall k :: 0 <= k < |ps| ==> WellSpaced(ps[k], width)
    ensures |WrapAll(JoinParagraphs(ps), width)| == CountLines(ps, width)
  {
    if |ps| > 1 {
      TextLines(ps[1..], width);
      ParagraphLines(ps[0], JoinParagraphs(ps[1..]), width);
    }
  }

  /** For one, two words on lines of their own take three lines when the first is as long as a line. */
  lemma {:induction false} FullWordTakesTwoLines()
    ensures |WrapAll("abcd\nef", 4)| == 3
  {
    assert "abcd" + ("\n" + "ef") == "abcd\nef";
    ParagraphLines("abcd", "ef", 4);
    assert |WrapAll("abcd", 4)| == 1 && WrapAll("abcd", 4)[0] == Detab("abcd");
    assert |WrapAll("ef", 4)| == 1;
  }
}
