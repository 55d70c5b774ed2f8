/** The bookmarks file: menuline_explode, addbookmarkifnotexist and delbookmark of gopherus.c. */
module Bookmarks {
  import opened CStrings
  import opened TextFile
  import GopherUrl

  const MAXHOSTLEN := 64
  const MAXSELLEN := 256
  const LINELEN := 656 // 2 * (MAXHOSTLEN + MAXSELLEN + 8)

  datatype Bookmark = Bookmark(itemtype: char, host: string, port: nat, selector: string)

  /* ---------- the fields of a line ---------- */

  // The string a pointer into the line reads as: up to the next TAB or NUL.
  function Field(s: string): string {
    var f := s[..IndexOf(s, '\t')];
    f[..IndexOf(f, NUL)]
  }

  // What follows the first TAB.
  function AfterTab(s: Option<string>): Option<string> {
    if s == None then None
    else
      var i := IndexOf(s.value, '\t');
      if i == |s.value| then None else Some(s.value[i + 1..])
  }

  function FieldOf(s: Option<string>): Option<string> {
    if s == None then None else Some(Field(s.value))
  }

  // The first character is the item type; the fields are those behind the first three TABs.
  datatype Fields = Fields(sel: Option<string>, host: Option<string>, port: Option<string>)

  function Explode(line: string): Fields {
    var description := Some(if line == "" then "" else line[1..]);
    var sel := AfterTab(description);
    var host := AfterTab(sel);
    Fields(FieldOf(sel), FieldOf(host), FieldOf(AfterTab(host)))
  }

  // The comparison of addbookmarkifnotexist; the port is read into 16 bits.
  predicate Same(f: Fields, b: Bookmark) {
    b.port == (if f.port == None then 70 else Atoi(f.port.value) % 0x1_0000) &&
    f.host.Some? && SameNoCase(b.host, f.host.value) &&
    (if f.sel == None then b.selector == "" else b.selector == f.sel.value)
  }

  predicate AddMatches(line: string, b: Bookmark) {
    Same(Explode(line), b)
  }

  // The comparison of delbookmark; the port is read in full.
  predicate SameForDelete(f: Fields, bhost: Option<string>, bport: int, bsel: Option<string>) {
    bport == (if f.port == None then 70 else Atoi(f.port.value)) &&
    (if bhost == None then f.host == None else f.host.Some? && SameNoCase(f.host.value, bhost.value)) &&
    (if bsel == None then f.sel == None || f.sel.value == ""
     else if f.sel == None then bsel.value == "" else f.sel.value == bsel.value)
  }

  predicate DelMatches(line: string, bhost: Option<string>, bport: int, bsel: Option<string>) {
    SameForDelete(Explode(line), bhost, bport, bsel)
  }

  // The comparisons as tests on the fields, and on a line.
  function AddFields(b: Bookmark): Fields -> bool {
    f => Same(f, b)
  }

  function DelFields(bhost: Option<string>, bport: int, bsel: Option<string>): Fields -> bool {
    f => SameForDelete(f, bhost, bport, bsel)
  }

  function OnLine(test: Fields -> bool): string -> bool {
    line => test(Explode(line))
  }

  function AddTest(b: Bookmark): string -> bool {
    OnLine(AddFields(b))
  }

  function DelTest(bhost: Option<string>, bport: int, bsel: Option<string>): string -> bool {
    OnLine(DelFields(bhost, bport, bsel))
  }

  /* ---------- searching the file ---------- */

  datatype Extent = Extent(start: nat, end: nat)

  // The first line from p on that satisfies the test, as far as lines can be read.
  function Find(data: string, p: nat, test: string -> bool): (r: Option<Extent>)
    requires p <= |data|
    ensures r.Some? ==> p <= r.value.start < r.value.end <= |data|
    decreases |data| - p
  {
    var r := LineAt(data, p, LINELEN);
    if r.Nothing? then None
    else if test(r.text) then Some(Extent(p, r.next))
    else Find(data, r.next, test)
  }

  // What is shown for a bookmark in a menu.
  function Label(b: Bookmark): string {
    b.host + (if b.port == 70 then "" else ":" + Decimal(b.port)) +
    (if b.selector == "" then "" else "/" + [b.itemtype] + b.selector)
  }

  // A line with four columns.
  function Columns(itemtype: char, shown: string, sel: string, host: string, last: string): string {
    [itemtype] + (shown + ("\t" + (sel + ("\t" + (host + ("\t" + last))))))
  }

  // The line written for a bookmark.
  function Entry(b: Bookmark): string {
    Columns(b.itemtype, Label(b), b.selector, b.host, Decimal(b.port))
  }

  function Added(data: string, b: Bookmark): string {
    if Find(data, 0, AddTest(b)).Some? then data else data + Entry(b) + "\n"
  }

  function Deleted(data: string, bhost: Option<string>, bport: int, bsel: Option<string>): string {
    match Find(data, 0, DelTest(bhost, bport, bsel))
    case None => data
    case Some(x) => Cut(data, x)
  }

  function Cut(data: string, x: Extent): string
    requires x.start <= x.end <= |data|
  {
    data[..x.start] + data[x.end..]
  }

  /* ---------- the file as lines ---------- */

  // A line of the file, without its line feed, that readfline can take.
  predicate Fits(l: string) {
    '\n' !in l && |l| < LINELEN
  }

  ghost predicate AllFit(ls: seq<string>) {
    forall k :: 0 <= k < |ls| ==> Fits(ls[k])
  }

  // A file is lines that end in a line feed, and what follows the last one.
  ghost predicate AllLines(ls: seq<string>) {
    forall k :: 0 <= k < |ls| ==> '\n' !in ls[k]
  }

  function Unlines(ls: seq<string>): string {
    if ls == [] then "" else (ls[0] + "\n") + Unlines(ls[1..])
  }

  // The first line that satisfies the test, if the search gets there: a line too long ends it.
  function First(ls: seq<string>, test: string -> bool): (i: nat)
    ensures i <= |ls|
  {
    if ls == [] || |ls[0]| >= LINELEN then |ls|
    else if test(Chop(ls[0])) then 0
    else 1 + First(ls[1..], test)
  }

  lemma {:induction false} FirstFinds(ls: seq<string>, test: string -> bool)
    ensures var i := First(ls, test);
            if i < |ls| then test(Chop(ls[i])) && |ls[i]| < LINELEN
            else AllFit(ls) ==> forall k :: 0 <= k < |ls| ==> !test(Chop(ls[k]))
  {
    if ls != [] && |ls[0]| < LINELEN && !test(Chop(ls[0])) {
      FirstFinds(ls[1..], test);
      assert AllFit(ls) ==> AllFit(ls[1..]);
      forall k | 0 <= k < |ls| && First(ls, test) == |ls| && AllFit(ls)
        ensures !test(Chop(ls[k]))
      {
        assert k > 0 ==> ls[k] == ls[1..][k - 1];
      }
    }
  }

  // One more line at the end.
  lemma {:induction false} FirstSnoc(ls: seq<string>, l: string, test: string -> bool)
    requires AllLines(ls)
    ensures First(ls, test) < |ls| ==> First(ls + [l], test) == First(ls, test)
    ensures First(ls, test) == |ls| ==>
              First(ls + [l], test) == if AllFit(ls) && |l| < LINELEN && test(Chop(l)) then |ls| else |ls| + 1
  {
    if ls == [] {
      assert [l][1..] == [];
      assert [] + [l] == [l];
    } else {
      assert (ls + [l])[0] == ls[0] && (ls + [l])[1..] == ls[1..] + [l];
      FirstSnoc(ls[1..], l, test);
      assert AllFit(ls) <==> |ls[0]| < LINELEN && AllFit(ls[1..]) by {
        assert forall k :: 1 <= k < |ls| ==> ls[k] == ls[1..][k - 1];
      }
    }
  }

  // A stronger test finds nothing where a weaker one does not.
  lemma {:induction false} FirstWeaker(ls: seq<string>, strong: string -> bool, weak: string -> bool)
    requires forall l :: strong(l) ==> weak(l)
    ensures First(ls, weak) == |ls| ==> First(ls, strong) == |ls|
  {
    if ls != [] { FirstWeaker(ls[1..], strong, weak); }
  }

  lemma {:induction false} UnlinesConcat(a: seq<string>, b: seq<string>)
    ensures Unlines(a + b) == Unlines(a) + Unlines(b)
  {
    if a == [] {
      assert a + b == b;
    } else {
      assert (a + b)[1..] == a[1..] + b;
      UnlinesConcat(a[1..], b);
      assert (a[0] + "\n") + (Unlines(a[1..]) + Unlines(b)) == ((a[0] + "\n") + Unlines(a[1..])) + Unlines(b);
    }
  }

  lemma UnlinesCons(l: string, b: seq<string>)
    ensures Unlines([l] + b) == (l + "\n") + Unlines(b)
  {
    assert ([l] + b)[0] == l && ([l] + b)[1..] == b;
  }

  // Reading at the start of a line takes that line.
  lemma LineThere(data: string, p: nat, l: string, rest: string)
    requires p <= |data| && data[p..] == (l + "\n") + rest && Fits(l)
    ensures LineAt(data, p, LINELEN) == Line(Chop(l), p + |l| + 1) && data[p + |l| + 1..] == rest
  {
    var s := data[p..];
    forall k | p <= k < p + |l|
      ensures data[k] != '\n'
    {
      assert data[k] == s[k - p] == l[k - p] && l[k - p] in l;
    }
    assert data[p + |l|] == s[|l|] == '\n';
    LineAtIs(data, p, |l|);
    assert data[p..p + |l|] == s[..|l|] == l;
    assert data[p + |l| + 1..] == s[|l| + 1..] == rest;
  }

  // Reading at the start of a line too long finds nothing.
  lemma LineTooLong(data: string, p: nat, l: string, rest: string)
    requires p <= |data| && data[p..] == (l + "\n") + rest && '\n' !in l && |l| >= LINELEN
    ensures LineAt(data, p, LINELEN).Nothing?
  {
    forall k | p <= k < p + |l|
      ensures data[k] != '\n'
    {
      assert data[k] == data[p..][k - p] == l[k - p] && l[k - p] in l;
    }
    LineAtIs(data, p, |l|);
  }

  // Where line i starts.
  function Offset(ls: seq<string>, i: nat): (n: nat)
    requires i <= |ls|
  {
    if i == 0 then 0 else |ls[0]| + 1 + Offset(ls[1..], i - 1)
  }

  // Where line i is, its line feed included.
  function LineExtent(ls: seq<string>, i: nat): (x: Extent)
    requires i < |ls|
  {
    Extent(Offset(ls, i), Offset(ls, i) + |ls[i]| + 1)
  }

  lemma {:induction false} OffsetIs(ls: seq<string>, i: nat)
    requires i <= |ls|
    ensures Offset(ls, i) == |Unlines(ls[..i])|
  {
    if i > 0 {
      OffsetIs(ls[1..], i - 1);
      assert ls[..i][1..] == ls[1..][..i - 1];
    }
  }

  // What follows the last line feed is read as a line, too, if there is anything.
  predicate TailMatches(tail: string, test: string -> bool) {
    tail != "" && |tail| < LINELEN && test(Chop(tail))
  }

  // The extent of the first line that satisfies the test, in lines that start at a position.
  function FoundLine(at: nat, ls: seq<string>, tail: string, test: string -> bool): Option<Extent>
    decreases |ls|
  {
    if ls == [] then if TailMatches(tail, test) then Some(Extent(at, at + |tail|)) else None
    else if |ls[0]| >= LINELEN then None
    else if test(Chop(ls[0])) then Some(Extent(at, at + |ls[0]| + 1))
    else FoundLine(at + |ls[0]| + 1, ls[1..], tail, test)
  }

  lemma AllFitTail(ls: seq<string>)
    requires ls != [] && AllLines(ls)
    ensures AllLines(ls[1..]) && (AllFit(ls) <==> |ls[0]| < LINELEN && AllFit(ls[1..]))
  {
    assert forall k :: 1 <= k < |ls| ==> ls[k] == ls[1..][k - 1];
  }

  lemma {:induction false} FoundIsFirst(at: nat, ls: seq<string>, tail: string, test: string -> bool)
    requires AllLines(ls)
    ensures var i := First(ls, test);
            FoundLine(at, ls, tail, test) ==
            if i < |ls| then Some(Extent(at + Offset(ls, i), at + Offset(ls, i) + |ls[i]| + 1))
            else if AllFit(ls) && TailMatches(tail, test) then
              Some(Extent(at + Offset(ls, |ls|), at + Offset(ls, |ls|) + |tail|))
            else None
    decreases |ls|
  {
    if ls != [] {
      AllFitTail(ls);
      if |ls[0]| < LINELEN && !test(Chop(ls[0])) {
        FoundIsFirst(at + |ls[0]| + 1, ls[1..], tail, test);
      }
    }
  }

  lemma FindStep(data: string, p: nat, test: string -> bool, text: string, next: nat)
    requires p < next <= |data| && LineAt(data, p, LINELEN) == Line(text, next)
    ensures Find(data, p, test) == if test(text) then Some(Extent(p, next)) else Find(data, next, test)
  {
  }

  // What reading at the start of a line gives.
  lemma LineHere(data: string, p: nat, l: string, rest: string)
    requires p <= |data| && data[p..] == (l + "\n") + rest && '\n' !in l
    ensures p + |l| + 1 <= |data| && data[p + |l| + 1..] == rest
    ensures if |l| >= LINELEN then LineAt(data, p, LINELEN).Nothing?
            else LineAt(data, p, LINELEN) == Line(Chop(l), p + |l| + 1)
  {
    assert |data[p..]| == |data| - p;
    assert data[p + |l| + 1..] == data[p..][|l| + 1..] == rest;
    if |l| >= LINELEN {
      LineTooLong(data, p, l, rest);
    } else {
      LineThere(data, p, l, rest);
    }
  }

  lemma FindNothing(data: string, p: nat, test: string -> bool)
    requires p <= |data| && LineAt(data, p, LINELEN).Nothing?
    ensures Find(data, p, test) == None
  {
  }

  // The search from the last line feed on.
  lemma FindTail(data: string, p: nat, tail: string, test: string -> bool)
    requires p <= |data| && data[p..] == tail && '\n' !in tail
    ensures Find(data, p, test) == if TailMatches(tail, test) then Some(Extent(p, p + |tail|)) else None
  {
    TailThere(data, p, tail);
    if tail == "" || |tail| >= LINELEN {
      FindNothing(data, p, test);
    } else {
      FindStep(data, p, test, Chop(tail), |data|);
      assert data[|data|..] == "";
      TailThere(data, |data|, "");
      FindNothing(data, |data|, test);
    }
  }

  lemma TailThere(data: string, p: nat, tail: string)
    requires p <= |data| && data[p..] == tail && '\n' !in tail
    ensures |data| == p + |tail|
    ensures if tail == "" || |tail| >= LINELEN then LineAt(data, p, LINELEN).Nothing?
            else LineAt(data, p, LINELEN) == Line(Chop(tail), |data|)
  {
    assert |data[p..]| == |data| - p;
    forall k | p <= k < p + |tail|
      ensures data[k] != '\n'
    {
      assert data[k] == tail[k - p] && tail[k - p] in tail;
    }
    LineAtIs(data, p, |tail|);
    assert data[p..p + |tail|] == tail;
  }

  // The search from one line on, given the search from the next.
  lemma FindFrom(data: string, p: nat, l: string, next: Option<Extent>, rest: string, test: string -> bool)
    requires p <= |data| && data[p..] == (l + "\n") + rest && '\n' !in l && p + |l| + 1 <= |data|
    requires |l| < LINELEN ==> Find(data, p + |l| + 1, test) == next
    ensures Find(data, p, test) ==
            if |l| >= LINELEN then None
            else if test(Chop(l)) then Some(Extent(p, p + |l| + 1))
            else next
  {
    LineHere(data, p, l, rest);
    if |l| >= LINELEN {
      FindNothing(data, p, test);
    } else {
      FindStep(data, p, test, Chop(l), p + |l| + 1);
    }
  }

  lemma LinesTail(ls: seq<string>, tail: string)
    requires ls != [] && AllLines(ls)
    ensures '\n' !in ls[0] && AllLines(ls[1..])
    ensures Unlines(ls) + tail == (ls[0] + "\n") + (Unlines(ls[1..]) + tail)
  {
    var a, b := ls[0] + "\n", Unlines(ls[1..]);
    assert (a + b) + tail == a + (b + tail);
  }

  /** Searching any file finds the first line that satisfies the test, unless a line too long is met. */
  lemma {:induction false} FindLine(data: string, p: nat, ls: seq<string>, tail: string, test: string -> bool)
    requires AllLines(ls) && '\n' !in tail && p <= |data| && data[p..] == Unlines(ls) + tail
    ensures Find(data, p, test) == FoundLine(p, ls, tail, test)
    decreases |ls|
  {
    if ls == [] {
      assert Unlines(ls) + tail == tail;
      FindTail(data, p, tail, test);
    } else {
      var l, rest := ls[0], Unlines(ls[1..]) + tail;
      LinesTail(ls, tail);
      LineHere(data, p, l, rest);
      FindLine(data, p + |l| + 1, ls[1..], tail, test);
      FindFrom(data, p, l, FoundLine(p + |l| + 1, ls[1..], tail, test), rest, test);
    }
  }

  /** Every file is lines and what follows them. */
  lemma {:induction false} EveryFile(data: string) returns (ls: seq<string>, tail: string)
    ensures AllLines(ls) && '\n' !in tail && data == Unlines(ls) + tail
    decreases |data|
  {
    var i := IndexOf(data, '\n');
    if i == |data| {
      assert Unlines([]) + data == data;
      return [], data;
    }
    var rest;
    rest, tail := EveryFile(data[i + 1..]);
    ls := [data[..i]] + rest;
    UnlinesCons(data[..i], rest);
    var a, b := data[..i] + "\n", Unlines(rest);
    assert (a + b) + tail == a + (b + tail);
    assert data == a + data[i + 1..];
  }

  lemma Regroup(a: string, b: string, c: string)
    ensures a + (b + c) == (a + b) + c
  {
  }

  // Taking the found extent out of the file takes the line out.
  lemma {:induction false} CutLine(ls: seq<string>, i: nat)
    requires i < |ls|
    ensures var x := LineExtent(ls, i);
            x.end <= |Unlines(ls)| && Cut(Unlines(ls), x) == Unlines(ls[..i] + ls[i + 1..])
  {
    var a, b := ls[..i], ls[i + 1..];
    OffsetIs(ls, i);
    UnlinesConcat(a, b);
    CutMiddle(Unlines(a), ls[i] + "\n", Unlines(b));
    LinesAround(ls, i);
  }

  lemma LinesAround(ls: seq<string>, i: nat)
    requires i < |ls|
    ensures Unlines(ls) == Unlines(ls[..i]) + ((ls[i] + "\n") + Unlines(ls[i + 1..]))
  {
    Around(ls, i);
    UnlinesAround(ls[..i], ls[i], ls[i + 1..]);
  }

  lemma Around<T>(s: seq<T>, i: nat)
    requires i < |s|
    ensures s == s[..i] + ([s[i]] + s[i + 1..])
  {
  }

  lemma UnlinesAround(a: seq<string>, l: string, b: seq<string>)
    ensures Unlines(a + ([l] + b)) == Unlines(a) + ((l + "\n") + Unlines(b))
  {
    UnlinesConcat(a, [l] + b);
    UnlinesCons(l, b);
  }

  lemma CutMiddle(a: string, b: string, c: string)
    ensures (a + (b + c))[..|a|] == a && (a + (b + c))[|a| + |b|..] == c
  {
  }

  // The two operations on the lines.
  function AddedLines(ls: seq<string>, b: Bookmark): seq<string> {
    if First(ls, AddTest(b)) < |ls| then ls else ls + [Entry(b)]
  }

  function WithoutFirst(ls: seq<string>, test: string -> bool): seq<string> {
    var i := First(ls, test);
    if i < |ls| then ls[..i] + ls[i + 1..] else ls
  }

  function DeletedLines(ls: seq<string>, bhost: Option<string>, bport: int, bsel: Option<string>): seq<string> {
    WithoutFirst(ls, DelTest(bhost, bport, bsel))
  }

  // What the search finds in a file.
  ghost function FoundIn(ls: seq<string>, tail: string, test: string -> bool): Option<Extent> {
    var i, n := First(ls, test), |Unlines(ls)|;
    if i < |ls| then Some(LineExtent(ls, i))
    else if AllFit(ls) && TailMatches(tail, test) then Some(Extent(n, n + |tail|))
    else None
  }

  lemma {:induction false} FindInText(ls: seq<string>, tail: string, test: string -> bool)
    requires AllLines(ls) && '\n' !in tail
    ensures Find(Unlines(ls) + tail, 0, test) == FoundIn(ls, tail, test)
  {
    FindFromStart(Unlines(ls) + tail, ls, tail, test);
    FoundAtStart(ls, tail, test);
  }

  lemma {:induction false} FoundAtStart(ls: seq<string>, tail: string, test: string -> bool)
    requires AllLines(ls)
    ensures FoundLine(0, ls, tail, test) == FoundIn(ls, tail, test)
  {
    FoundIsFirst(0, ls, tail, test);
    OffsetOfAll(ls);
  }

  lemma {:induction false} FindFromStart(data: string, ls: seq<string>, tail: string, test: string -> bool)
    requires AllLines(ls) && '\n' !in tail && data == Unlines(ls) + tail
    ensures Find(data, 0, test) == FoundLine(0, ls, tail, test)
  {
    assert data[0..] == data;
    FindLine(data, 0, ls, tail, test);
  }

  lemma {:induction false} OffsetOfAll(ls: seq<string>)
    ensures Offset(ls, |ls|) == |Unlines(ls)|
  {
    OffsetIs(ls, |ls|);
    assert ls[..|ls|] == ls;
  }

  lemma UnlinesSnoc(ls: seq<string>, l: string)
    ensures Unlines(ls + [l]) == Unlines(ls) + (l + "\n")
  {
    UnlinesConcat(ls, [l]);
    UnlinesCons(l, []);
    assert [l] + [] == [l];
    assert (l + "\n") + "" == l + "\n";
  }

  /** Adding a location that is not found appends its entry to what follows the last line feed, and
      ends that line; all other bytes stay. */
  lemma {:induction false} AddedToText(ls: seq<string>, tail: string, b: Bookmark)
    requires AllLines(ls) && '\n' !in tail
    ensures Added(Unlines(ls) + tail, b) ==
            if FoundIn(ls, tail, AddTest(b)).Some? then Unlines(ls) + tail else Unlines(ls + [tail + Entry(b)])
  {
    FindInText(ls, tail, AddTest(b));
    UnlinesSnoc(ls, tail + Entry(b));
    AppendedLine(Unlines(ls), tail, Entry(b));
  }

  lemma AppendedLine(u: string, tail: string, e: string)
    ensures ((u + tail) + e) + "\n" == u + ((tail + e) + "\n")
  {
  }

  /** Deleting a bookmark takes out the first line that names it, if no line too long is in front of
      it, whatever the field pointers are, and leaves all other bytes as they were. */
  lemma {:induction false} DeletedFromText(ls: seq<string>, tail: string, bhost: Option<string>, bport: int,
                                           bsel: Option<string>)
    requires AllLines(ls) && '\n' !in tail
    ensures var test := DelTest(bhost, bport, bsel);
            var i := First(ls, test);
            Deleted(Unlines(ls) + tail, bhost, bport, bsel) ==
            if i < |ls| then Unlines(ls[..i] + ls[i + 1..]) + tail
            else if FoundIn(ls, tail, test).Some? then Unlines(ls)
            else Unlines(ls) + tail
  {
    var test := DelTest(bhost, bport, bsel);
    var i := First(ls, test);
    FindInText(ls, tail, test);
    DeletedIs(Unlines(ls) + tail, bhost, bport, bsel, FoundIn(ls, tail, test));
    if i < |ls| {
      CutLineOfText(ls, tail, i);
    } else if FoundIn(ls, tail, test).Some? {
      CutTail(Unlines(ls), tail);
    }
  }

  lemma DeletedIs(data: string, bhost: Option<string>, bport: int, bsel: Option<string>, found: Option<Extent>)
    requires Find(data, 0, DelTest(bhost, bport, bsel)) == found
    ensures found.Some? ==> found.value.start <= found.value.end <= |data|
    ensures Deleted(data, bhost, bport, bsel) == if found.Some? then Cut(data, found.value) else data
  {
  }

  lemma CutInFront(u: string, x: Extent, tail: string)
    requires x.start <= x.end <= |u|
    ensures Cut(u + tail, x) == Cut(u, x) + tail
  {
  }

  lemma {:induction false} CutLineOfText(ls: seq<string>, tail: string, i: nat)
    requires i < |ls|
    ensures var x := LineExtent(ls, i);
            x.end <= |Unlines(ls) + tail| && Cut(Unlines(ls) + tail, x) == Unlines(ls[..i] + ls[i + 1..]) + tail
  {
    CutLine(ls, i);
    CutInFront(Unlines(ls), LineExtent(ls, i), tail);
  }

  lemma CutTail(u: string, tail: string)
    ensures Cut(u + tail, Extent(|u|, |u| + |tail|)) == u
  {
  }

  // The same for files that end in a line feed.
  lemma {:induction false} AddedIsLines(ls: seq<string>, b: Bookmark)
    requires AllLines(ls)
    ensures Added(Unlines(ls), b) == Unlines(AddedLines(ls, b))
  {
    AddedToText(ls, "", b);
    assert Unlines(ls) + "" == Unlines(ls) && "" + Entry(b) == Entry(b);
  }

  lemma {:induction false} DeletedIsLines(ls: seq<string>, bhost: Option<string>, bport: int, bsel: Option<string>)
    requires AllLines(ls)
    ensures Deleted(Unlines(ls), bhost, bport, bsel) == Unlines(DeletedLines(ls, bhost, bport, bsel))
  {
    DeletedFromText(ls, "", bhost, bport, bsel);
    assert Unlines(ls) + "" == Unlines(ls);
    assert Unlines(DeletedLines(ls, bhost, bport, bsel)) + "" == Unlines(DeletedLines(ls, bhost, bport, bsel));
  }

  /* ---------- reading back what was written ---------- */

  // A location as C strings on one line.
  ghost predicate OneLine(b: Bookmark) {
    NUL !in b.host && '\n' !in b.host && NUL !in b.selector && '\n' !in b.selector &&
    b.itemtype != NUL && b.itemtype != '\n' && b.itemtype != '\t' && b.port < 0x1_0000
  }

  // A location whose entry can be read back.
  ghost predicate Plain(b: Bookmark) {
    OneLine(b) && '\t' !in b.host && '\t' !in b.selector && |Entry(b)| < LINELEN
  }

  lemma IndexAt(x: string, c: char, rest: string)
    requires c !in x && (rest == "" || rest[0] == c)
    ensures IndexOf(x + rest, c) == |x| && (x + rest)[..|x|] == x
  {
    forall k | 0 <= k < |x|
      ensures (x + rest)[k] != c
    {
      assert x[k] in x;
    }
    assert rest != "" ==> (x + rest)[|x|] == c;
  }

  lemma TabEndsField(x: string, rest: string)
    requires '\t' !in x && NUL !in x
    ensures AfterTab(Some(x + ("\t" + rest))) == Some(rest) && Field(x + ("\t" + rest)) == x
    ensures Field(x) == x
  {
    IndexAt(x, '\t', "\t" + rest);
    assert (x + ("\t" + rest))[|x| + 1..] == rest;
    IndexAt(x, NUL, "");
    IndexAt(x, '\t', "");
    assert x + "" == x;
  }

  lemma LabelIsPlain(b: Bookmark)
    requires OneLine(b)
    ensures NUL !in Label(b) && '\n' !in Label(b)
    ensures '\t' !in b.host && '\t' !in b.selector ==> '\t' !in Label(b)
  {
  }

  lemma EntryEndsInDigit(b: Bookmark)
    ensures Chop(Entry(b)) == Entry(b)
  {
    var d := Decimal(b.port);
    assert Entry(b)[|Entry(b)| - 1] == d[|d| - 1];
  }

  lemma EntryFields(b: Bookmark)
    requires OneLine(b) && '\t' !in b.host && '\t' !in b.selector
    ensures Explode(Entry(b)) == Fields(Some(b.selector), Some(b.host), Some(Decimal(b.port)))
  {
    LabelIsPlain(b);
    FieldsOfColumns(b.itemtype, Label(b), b.selector, b.host, Decimal(b.port));
    TabEndsField(Decimal(b.port), "");
  }

  predicate NoTabNorNul(s: string) {
    '\t' !in s && NUL !in s
  }

  lemma FieldsOfColumns(itemtype: char, shown: string, sel: string, host: string, last: string)
    requires NoTabNorNul(shown) && NoTabNorNul(sel) && NoTabNorNul(host)
    ensures Explode(Columns(itemtype, shown, sel, host, last)) == Fields(Some(sel), Some(host), Some(Field(last)))
  {
    var line := Columns(itemtype, shown, sel, host, last);
    assert line[1..] == shown + ("\t" + (sel + ("\t" + (host + ("\t" + last)))));
    TabEndsField(shown, sel + ("\t" + (host + ("\t" + last))));
    TabEndsField(sel, host + ("\t" + last));
    TabEndsField(host, last);
  }

  // A field holds no TAB.
  lemma FieldHasNoTab(s: string)
    ensures '\t' !in Field(s)
  {
  }

  lemma FoldKeepsTab(s: string, t: string)
    requires SameNoCase(s, t) && '\t' in s
    ensures '\t' in t
  {
    var k :| 0 <= k < |s| && s[k] == '\t';
    assert |Fold(s)| == |Fold(t)| && Fold(s)[k] == Fold(t)[k] == Lower(t[k]);
    assert t[k] == '\t';
  }

  // A location with a TAB in its host or selector is never found.
  lemma TabNeverMatches(line: string, b: Bookmark)
    requires '\t' in b.host || '\t' in b.selector
    ensures !AddMatches(line, b)
  {
    NoTabInFields(line);
    var f := Explode(line);
    if f.host.Some? && SameNoCase(b.host, f.host.value) && '\t' in b.host {
      FoldKeepsTab(b.host, f.host.value);
    }
  }

  /** A bookmark is recognised in its own entry exactly when neither its host nor its selector holds
      a TAB. The selectors of query results do, so that those can be added again and again. */
  lemma EntryIsRecognised(b: Bookmark)
    requires OneLine(b)
    ensures AddMatches(Chop(Entry(b)), b) <==> '\t' !in b.host && '\t' !in b.selector
  {
    EntryEndsInDigit(b);
    if '\t' !in b.host && '\t' !in b.selector {
      EntryFields(b);
      FieldsMatch(b);
    } else {
      TabNeverMatches(Entry(b), b);
    }
  }

  lemma FieldsMatch(b: Bookmark)
    requires b.port < 0x1_0000
    ensures var f := Fields(Some(b.selector), Some(b.host), Some(Decimal(b.port)));
            Same(f, b) && SameForDelete(f, Some(b.host), b.port, Some(b.selector))
  {
    AtoiOfDecimal(b.port);
  }

  lemma NoTabInFields(line: string)
    ensures var f := Explode(line);
            (f.sel.Some? ==> '\t' !in f.sel.value) && (f.host.Some? ==> '\t' !in f.host.value)
  {
    var sel := AfterTab(Some(if line == "" then "" else line[1..]));
    if sel.Some? {
      FieldHasNoTab(sel.value);
      if AfterTab(sel).Some? { FieldHasNoTab(AfterTab(sel).value); }
    }
  }

  // The location of the bookmark as delbookmark gets it.
  predicate Deletes(line: string, b: Bookmark) {
    DelMatches(line, Some(b.host), b.port, Some(b.selector))
  }

  // What delbookmark takes for the bookmark, addbookmarkifnotexist does too.
  lemma DeletesIsMatch(line: string, b: Bookmark)
    requires Deletes(line, b) && b.port < 0x1_0000
    ensures AddMatches(line, b)
  {
    SameForDeleteIsSame(Explode(line), b);
  }

  lemma SameForDeleteIsSame(f: Fields, b: Bookmark)
    requires SameForDelete(f, Some(b.host), b.port, Some(b.selector)) && b.port < 0x1_0000
    ensures Same(f, b)
  {
  }

  // Two bookmarks that one line can stand for have the same location.
  lemma MatchIsLocation(line: string, b: Bookmark, c: Bookmark)
    requires AddMatches(line, b) && AddMatches(line, c)
    ensures SameNoCase(b.host, c.host) && b.port == c.port && b.selector == c.selector
  {
  }

  lemma SameLocationSameMatch(line: string, b: Bookmark, c: Bookmark)
    requires SameNoCase(b.host, c.host) && b.port == c.port && b.selector == c.selector
    ensures AddMatches(line, b) <==> AddMatches(line, c)
  {
  }

  /* ---------- what is shown, and lines of other making ---------- */

  /** The text shown for a location is its URL without "gopher://", if the URL needs no escapes and the
      item type is in it. */
  lemma LabelIsUrl(b: Bookmark)
    requires b.host != "" && GopherUrl.GopherLocation(b.port, b.itemtype, b.selector) && GopherUrl.Safe(b.selector)
    requires b.selector != "" || b.itemtype == '1'
    ensures GopherUrl.BuildUrl(1, b.host, b.port, b.itemtype, b.selector) == Some("gopher://" + Label(b))
  {
    GopherUrl.PrintedGopher(b.host, b.port, b.itemtype, b.selector);
    LabelForms(b);
  }

  lemma LabelForms(b: Bookmark)
    ensures var path := "/" + ([b.itemtype] + b.selector);
            Label(b) == b.host +
              (if b.port == 70 && b.selector == "" then ""
               else if b.port == 70 then path
               else if b.selector == "" then ":" + Decimal(b.port)
               else ":" + (Decimal(b.port) + path))
  {
    var host, port, tail := b.host, Decimal(b.port), "/" + [b.itemtype] + b.selector;
    assert tail == "/" + ([b.itemtype] + b.selector);
    if b.port == 70 {
      assert (host + "") + tail == host + tail && (host + "") + "" == host + "";
    } else {
      LastParts(host, port, tail);
    }
  }

  lemma LastParts(host: string, port: string, tail: string)
    ensures (host + (":" + port)) + tail == host + (":" + (port + tail))
    ensures (host + (":" + port)) + "" == host + (":" + port)
  {
  }

  /** Read as a gopher URL it gives the location back, with item type '1' when there is no selector. */
  lemma {:induction false} LabelReads(b: Bookmark, hostlen: int, selectorlen: int)
    requires GopherUrl.PlainHost(b.host) && b.port < 0x1_0000 && |b.host| < hostlen && |b.selector| < selectorlen
    ensures GopherUrl.ParseUrl("gopher://" + Label(b), hostlen, selectorlen) ==
            GopherUrl.Url(1, b.host, b.port, if b.selector == "" then '1' else b.itemtype, b.selector)
  {
    var port := if b.port == 70 then None else Some(Decimal(b.port));
    var path := if b.selector == "" then None else Some([b.itemtype] + b.selector);
    GopherUrl.ParseGopherScheme(Label(b), hostlen, selectorlen);
    LabelParts(b, port, path);
    PartsRead(b, port, path, hostlen, selectorlen);
  }

  lemma {:induction false} PartsRead(b: Bookmark, port: Option<string>, path: Option<string>, hostlen: int,
                                     selectorlen: int)
    requires GopherUrl.PlainHost(b.host) && b.port < 0x1_0000 && |b.host| < hostlen && |b.selector| < selectorlen
    requires port == if b.port == 70 then None else Some(Decimal(b.port))
    requires path == if b.selector == "" then None else Some([b.itemtype] + b.selector)
    ensures GopherUrl.ParseRest(b.host + (GopherUrl.PortPart(port) + GopherUrl.PathPart(path)), 1, 70, '1', hostlen,
                                selectorlen) ==
            GopherUrl.Url(1, b.host, b.port, if b.selector == "" then '1' else b.itemtype, b.selector)
  {
    assert '/' !in Decimal(b.port);
    AtoiOfDecimal(b.port);
    assert path.Some? ==> path.value[0] == b.itemtype && path.value[1..] == b.selector;
    GopherUrl.RestParts(b.host, port, path, 1, 70, '1', hostlen, selectorlen);
  }

  lemma LabelParts(b: Bookmark, port: Option<string>, path: Option<string>)
    requires port == if b.port == 70 then None else Some(Decimal(b.port))
    requires path == if b.selector == "" then None else Some([b.itemtype] + b.selector)
    ensures Label(b) == b.host + (GopherUrl.PortPart(port) + GopherUrl.PathPart(path))
  {
    LabelForms(b);
    PartForms(Decimal(b.port), "/" + ([b.itemtype] + b.selector));
  }

  lemma PartForms(port: string, path: string)
    ensures "" + path == path && (":" + port) + path == ":" + (port + path)
    ensures (":" + port) + "" == ":" + port && "" + "" == ""
  {
  }

  /** In front of the fields are the item type and the text shown; nothing is behind them. */
  lemma EntryShows(b: Bookmark)
    requires OneLine(b) && '\t' !in b.host && '\t' !in b.selector
    ensures Entry(b)[0] == b.itemtype && Field(Entry(b)[1..]) == Label(b)
    ensures |Entry(b)| == |Label(b)| + |b.selector| + |b.host| + |Decimal(b.port)| + 4
  {
    var rest := b.selector + ("\t" + (b.host + ("\t" + Decimal(b.port))));
    LabelIsPlain(b);
    TabEndsField(Label(b), rest);
    assert Entry(b)[1..] == Label(b) + ("\t" + rest);
  }

  /** A line can end behind any column. */
  lemma ShortLines(itemtype: char, shown: string, sel: string, host: string)
    requires NoTabNorNul(shown) && NoTabNorNul(sel) && NoTabNorNul(host)
    ensures Explode([itemtype] + shown) == Fields(None, None, None) == Explode("")
    ensures Explode([itemtype] + (shown + ("\t" + sel))) == Fields(Some(sel), None, None)
    ensures Explode([itemtype] + (shown + ("\t" + (sel + ("\t" + host))))) == Fields(Some(sel), Some(host), None)
  {
    NoMoreFields(shown);
    NoMoreFields(sel);
    NoMoreFields(host);
    TabEndsField(shown, sel);
    TabEndsField(shown, sel + ("\t" + host));
    TabEndsField(sel, host);
    forall t: string
      ensures ([itemtype] + t)[1..] == t
    {
    }
  }

  lemma NoMoreFields(s: string)
    requires NoTabNorNul(s)
    ensures AfterTab(Some(s)) == None && Field(s) == s && AfterTab(None) == None && AfterTab(Some("")) == None
  {
    TabEndsField(s, "");
  }

  /** A line with four columns is the bookmark when host, port and selector are: the host in any case,
      the port in 16 bits when adding and in full when deleting. */
  lemma {:induction false} FullLineMatches(itemtype: char, shown: string, sel: string, host: string, port: string,
                                           b: Bookmark)
    requires NoTabNorNul(shown) && NoTabNorNul(sel) && NoTabNorNul(host) && NoTabNorNul(port)
    ensures var line := Columns(itemtype, shown, sel, host, port);
            (AddMatches(line, b) <==>
             LooksLike(b.host, host) && b.port == Atoi(port) % 0x1_0000 && b.selector == sel) &&
            (Deletes(line, b) <==> LooksLike(b.host, host) && b.port == Atoi(port) && b.selector == sel)
  {
    FieldsOfColumns(itemtype, shown, sel, host, port);
    NoMoreFields(port);
    SameNoCaseIs(b.host, host);
  }

  /** Without a port column the port is 70; without a host column a line is no location, and can only be
      deleted by a caller that has no host either. */
  lemma {:induction false} ShortLineMatches(itemtype: char, shown: string, sel: string, host: string, b: Bookmark)
    requires NoTabNorNul(shown) && NoTabNorNul(sel) && NoTabNorNul(host)
    ensures var line := [itemtype] + (shown + ("\t" + (sel + ("\t" + host))));
            (AddMatches(line, b) <==> LooksLike(b.host, host) && b.port == 70 && b.selector == sel) &&
            (Deletes(line, b) <==> LooksLike(b.host, host) && b.port == 70 && b.selector == sel)
    ensures var line := [itemtype] + (shown + ("\t" + sel));
            !AddMatches(line, b) && !Deletes(line, b) &&
            forall port: int :: DelMatches(line, None, port, Some(b.selector)) <==> port == 70 && sel == b.selector
    ensures var line := [itemtype] + shown;
            !AddMatches(line, b) && !Deletes(line, b) &&
            forall port: int :: DelMatches(line, None, port, Some(b.selector)) <==> port == 70 && b.selector == ""
  {
    ShortLines(itemtype, shown, sel, host);
    SameNoCaseIs(b.host, host);
  }

  /** Deleting without a selector is deleting with the empty one. */
  lemma NoSelectorIsEmpty(line: string, bhost: Option<string>, bport: int)
    ensures DelMatches(line, bhost, bport, None) <==> DelMatches(line, bhost, bport, Some(""))
  {
  }

  /* ---------- adds and deletes ---------- */

  lemma EntryFits(b: Bookmark)
    requires Plain(b)
    ensures Fits(Entry(b))
  {
    EntryNoLf(b);
  }

  lemma EntryNoLf(b: Bookmark)
    requires OneLine(b)
    ensures '\n' !in Entry(b)
  {
    LabelIsPlain(b);
    DecimalNoLf(b.port);
    ColumnsNoLf(b.itemtype, Label(b), b.selector, b.host, Decimal(b.port));
  }

  lemma DecimalNoLf(n: nat)
    ensures '\n' !in Decimal(n)
  {
    assert forall k :: 0 <= k < |Decimal(n)| ==> Decimal(n)[k] != '\n';
  }

  lemma ColumnsNoLf(itemtype: char, shown: string, sel: string, host: string, last: string)
    requires itemtype != '\n' && '\n' !in shown && '\n' !in sel && '\n' !in host && '\n' !in last
    ensures '\n' !in Columns(itemtype, shown, sel, host, last)
  {
    assert '\n' !in sel + ("\t" + (host + ("\t" + last)));
  }

  // Adding and deleting have the location in common.
  function DelTestOf(b: Bookmark): string -> bool {
    DelTest(Some(b.host), b.port, Some(b.selector))
  }

  // Both operations recognise an entry exactly when it holds no extra TAB.
  lemma EntryIsMatched(b: Bookmark)
    requires OneLine(b)
    ensures AddTest(b)(Chop(Entry(b))) <==> '\t' !in b.host && '\t' !in b.selector
    ensures DelTestOf(b)(Chop(Entry(b))) <==> '\t' !in b.host && '\t' !in b.selector
  {
    EntryIsRecognised(b);
    EntryEndsInDigit(b);
    if '\t' !in b.host && '\t' !in b.selector {
      EntryFields(b);
      FieldsMatch(b);
    } else if Deletes(Entry(b), b) {
      DeletesIsMatch(Entry(b), b);
    }
  }

  // The first line found by either operation once the entry has been appended.
  lemma {:induction false} FirstAfterAdding(ls: seq<string>, b: Bookmark)
    requires AllLines(ls) && OneLine(b) && First(ls, AddTest(b)) == |ls|
    ensures var i := if Plain(b) && AllFit(ls) then |ls| else |ls| + 1;
            First(ls + [Entry(b)], AddTest(b)) == i && First(ls + [Entry(b)], DelTestOf(b)) == i
  {
    EntryIsMatched(b);
    FirstSnoc(ls, Entry(b), AddTest(b));
    forall l | DelTestOf(b)(l)
      ensures AddTest(b)(l)
    {
      DeletesIsMatch(l, b);
    }
    FirstWeaker(ls, DelTestOf(b), AddTest(b));
    FirstSnoc(ls, Entry(b), DelTestOf(b));
  }

  lemma {:induction false} EntryIsALine(ls: seq<string>, b: Bookmark)
    requires AllLines(ls) && OneLine(b)
    ensures '\n' !in Entry(b) && AllLines(ls + [Entry(b)])
  {
    EntryNoLf(b);
  }

  // The search through a file of lines, by its first find.
  lemma {:induction false} FoundIffFirst(ls: seq<string>, test: string -> bool)
    requires AllLines(ls)
    ensures Find(Unlines(ls), 0, test).Some? <==> First(ls, test) < |ls|
  {
    FindInText(ls, "", test);
    assert Unlines(ls) + "" == Unlines(ls);
  }

  lemma {:induction false} GluedIsALine(ls: seq<string>, tail: string, b: Bookmark)
    requires AllLines(ls) && '\n' !in tail && OneLine(b)
    ensures AllLines(ls + [tail + Entry(b)]) && Chop(tail + Entry(b)) == tail + Entry(b)
  {
    EntryIsALine(ls, b);
    EntryEndsInDigit(b);
    var e := Entry(b);
    assert (tail + e)[|tail + e| - 1] == e[|e| - 1];
  }

  /** Adding a location twice is adding it once exactly when the first search finds it, or when the
      line that has been written can be read back as this location: no line of the file is too long
      for readfline, nor is the entry together with what it has been appended to. */
  lemma {:induction false} AddTwice(ls: seq<string>, tail: string, b: Bookmark)
    requires AllLines(ls) && '\n' !in tail && OneLine(b)
    ensures var data := Unlines(ls) + tail;
            Added(Added(data, b), b) == Added(data, b) <==>
            Find(data, 0, AddTest(b)).Some? ||
            (AllFit(ls) && |tail + Entry(b)| < LINELEN && AddMatches(tail + Entry(b), b))
  {
    FindInText(ls, tail, AddTest(b));
    AddedToText(ls, tail, b);
    if FoundIn(ls, tail, AddTest(b)) == None {
      var g := tail + Entry(b);
      GluedIsALine(ls, tail, b);
      FirstSnoc(ls, g, AddTest(b));
      FoundIffFirst(ls + [g], AddTest(b));
      AddedLength(Unlines(ls + [g]), b);
    }
  }

  /** In a file that ends in a line feed: no TAB in host or selector, an entry of at most 655
      characters, and no line longer than that. */
  lemma {:induction false} AddTwiceToLines(ls: seq<string>, b: Bookmark)
    requires AllLines(ls) && OneLine(b)
    ensures var data := Unlines(ls);
            Added(Added(data, b), b) == Added(data, b) <==>
            Find(data, 0, AddTest(b)).Some? || (Plain(b) && AllFit(ls))
  {
    AddTwice(ls, "", b);
    assert Unlines(ls) + "" == Unlines(ls) && "" + Entry(b) == Entry(b);
    EntryIsMatched(b);
    EntryEndsInDigit(b);
  }

  lemma AddedLength(data: string, b: Bookmark)
    ensures Find(data, 0, AddTest(b)) == None ==> |Added(data, b)| == |data| + |Entry(b)| + 1
  {
  }

  lemma DeletedLength(data: string, b: Bookmark)
    ensures var x := Find(data, 0, DelTestOf(b));
            |Deleted(data, Some(b.host), b.port, Some(b.selector))|
            == if x == None then |data| else |data| - (x.value.end - x.value.start)
  {
  }

  /** Adding a location and deleting it again gives the original bytes back exactly when: for one
      that was there already, deletion does not find it either; for a new one, the file ends in a line
      feed and the entry can be read back. */
  lemma {:induction false} AddThenDelete(ls: seq<string>, tail: string, b: Bookmark)
    requires AllLines(ls) && '\n' !in tail && OneLine(b)
    ensures var data := Unlines(ls) + tail;
            Deleted(Added(data, b), Some(b.host), b.port, Some(b.selector)) == data <==>
            if Find(data, 0, AddTest(b)).Some? then Find(data, 0, DelTestOf(b)) == None
            else tail == "" && Plain(b) && AllFit(ls)
  {
    FindInText(ls, tail, AddTest(b));
    AddedToText(ls, tail, b);
    if FoundIn(ls, tail, AddTest(b)).Some? {
      DeletedLength(Unlines(ls) + tail, b);
    } else {
      NewThenDeleted(ls, tail, b);
    }
  }

  // Where deletion finds the line just written.
  lemma {:induction false} FirstToDelete(ls: seq<string>, tail: string, b: Bookmark)
    requires AllLines(ls) && '\n' !in tail && OneLine(b) && First(ls, AddTest(b)) == |ls|
    ensures First(ls + [tail + Entry(b)], DelTestOf(b)) >= |ls|
    ensures tail == "" ==> (First(ls + [tail + Entry(b)], DelTestOf(b)) == |ls| <==> Plain(b) && AllFit(ls))
  {
    forall l | DelTestOf(b)(l)
      ensures AddTest(b)(l)
    {
      DeletesIsMatch(l, b);
    }
    FirstWeaker(ls, DelTestOf(b), AddTest(b));
    FirstSnoc(ls, tail + Entry(b), DelTestOf(b));
    if tail == "" {
      assert tail + Entry(b) == Entry(b);
      EntryIsMatched(b);
    }
  }

  lemma {:induction false} NewThenDeleted(ls: seq<string>, tail: string, b: Bookmark)
    requires AllLines(ls) && '\n' !in tail && OneLine(b) && FoundIn(ls, tail, AddTest(b)) == None
    ensures Deleted(Unlines(ls + [tail + Entry(b)]), Some(b.host), b.port, Some(b.selector)) == Unlines(ls) + tail <==>
            tail == "" && Plain(b) && AllFit(ls)
  {
    var g := tail + Entry(b);
    GluedIsALine(ls, tail, b);
    FirstToDelete(ls, tail, b);
    DeletedIsLines(ls + [g], Some(b.host), b.port, Some(b.selector));
    UnlinesSnoc(ls, g);
    assert (ls + [g])[..|ls|] + (ls + [g])[|ls| + 1..] == ls;
    assert |Unlines(ls + [g])| > |Unlines(ls) + tail|;
    assert tail == "" ==> Unlines(ls) + tail == Unlines(ls);
  }

  // No location is bookmarked twice.
  ghost predicate Unique(ls: seq<string>) {
    forall i, j, b :: 0 <= i < j < |ls| && AddMatches(Chop(ls[i]), b) ==> !AddMatches(Chop(ls[j]), b)
  }

  datatype Op = Add(b: Bookmark) | Delete(host: Option<string>, port: int, selector: Option<string>)

  function Apply(data: string, op: Op): string {
    match op
    case Add(b) => Added(data, b)
    case Delete(h, p, s) => Deleted(data, h, p, s)
  }

  function Run(data: string, ops: seq<Op>): string {
    if ops == [] then data else Apply(Run(data, ops[..|ops| - 1]), ops[|ops| - 1])
  }

  lemma AddKeepsUnique(ls: seq<string>, b: Bookmark)
    requires AllFit(ls) && Unique(ls) && Plain(b)
    ensures Unique(AddedLines(ls, b))
  {
    FirstFinds(ls, AddTest(b));
    if First(ls, AddTest(b)) == |ls| {
      EntryIsRecognised(b);
      NewIsUnique(ls, Entry(b), b);
    }
  }

  // A line for a location that no line stands for.
  lemma {:induction false} NewIsUnique(ls: seq<string>, l: string, b: Bookmark)
    requires Unique(ls) && AddMatches(Chop(l), b)
    requires forall k :: 0 <= k < |ls| ==> !AddTest(b)(Chop(ls[k]))
    ensures Unique(ls + [l])
  {
    var ls' := ls + [l];
    forall i, j, c | 0 <= i < j < |ls'| && AddMatches(Chop(ls'[i]), c)
      ensures !AddMatches(Chop(ls'[j]), c)
    {
      if j == |ls| {
        assert !AddTest(b)(Chop(ls[i]));
        if AddMatches(Chop(l), c) {
          MatchIsLocation(Chop(l), b, c);
          SameLocationSameMatch(Chop(ls[i]), b, c);
        }
      }
    }
  }

  lemma CutKeepsUnique(ls: seq<string>, n: nat)
    requires Unique(ls) && n < |ls|
    ensures Unique(ls[..n] + ls[n + 1..])
  {
    var ls' := ls[..n] + ls[n + 1..];
    forall i, j, c | 0 <= i < j < |ls'| && AddMatches(Chop(ls'[i]), c)
      ensures !AddMatches(Chop(ls'[j]), c)
    {
      CutIndex(ls, n, i);
      CutIndex(ls, n, j);
    }
  }

  lemma CutIndex<T>(s: seq<T>, n: nat, i: nat)
    requires n < |s| && i < |s| - 1
    ensures (s[..n] + s[n + 1..])[i] == s[if i < n then i else i + 1]
  {
  }

  /** No run of adds and deletes creates two bookmarks for one location: from a file of well-formed
      lines with at most one line for each, any run with plain locations ends in such a file. */
  lemma {:induction false} RunKeepsUnique(ls: seq<string>, ops: seq<Op>) returns (end: seq<string>)
    requires AllFit(ls) && Unique(ls)
    requires forall k :: 0 <= k < |ops| && ops[k].Add? ==> Plain(ops[k].b)
    ensures Run(Unlines(ls), ops) == Unlines(end) && AllFit(end) && Unique(end)
  {
    if ops == [] { return ls; }
    var n := |ops| - 1;
    var mid := RunKeepsUnique(ls, ops[..n]);
    end := OpKeepsUnique(mid, ops[n]);
  }

  lemma {:induction false} OpKeepsUnique(ls: seq<string>, op: Op) returns (end: seq<string>)
    requires AllFit(ls) && Unique(ls) && (op.Add? ==> Plain(op.b))
    ensures Apply(Unlines(ls), op) == Unlines(end) && AllFit(end) && Unique(end)
  {
    match op
    case Add(b) =>
      AddedIsLines(ls, b);
      AddKeepsUnique(ls, b);
      EntryFits(b);
      end := AddedLines(ls, b);
    case Delete(h, p, s) =>
      DeletedIsLines(ls, h, p, s);
      end := DeletedLines(ls, h, p, s);
      var i := First(ls, DelTest(h, p, s));
      if i < |ls| { CutKeepsUnique(ls, i); }
  }

  // Behind the first TAB another one is still there.
  lemma TabsRemain(x: string, rest: string)
    requires '\t' in rest
    ensures var t := AfterTab(Some(x + ("\t" + rest)));
            t.Some? && '\t' in t.value
  {
    var s := x + ("\t" + rest);
    var i := IndexOf(s, '\t');
    assert s[|x|] == '\t';
    var k :| 0 <= k < |rest| && rest[k] == '\t';
    assert s[|x| + 1 + k] == rest[k];
    assert s[i + 1..][|x| + k - i] == s[|x| + 1 + k];
  }

  // A line with two TABs behind its description stands for some location.
  lemma StandsForOne(line: string, x: string, rest: string) returns (c: Bookmark)
    requires line != "" && line[1..] == x + ("\t" + rest) && '\t' in rest
    ensures AddMatches(line, c)
  {
    TabsRemain(x, rest);
    var f := Explode(line);
    c := Bookmark('0', f.host.value, if f.port == None then 70 else Atoi(f.port.value) % 0x1_0000, f.sel.value);
  }

  // Every entry stands for one.
  lemma EntryStandsForOne(b: Bookmark) returns (c: Bookmark)
    ensures AddMatches(Chop(Entry(b)), c)
  {
    var tail := b.host + ("\t" + Decimal(b.port));
    var rest := b.selector + ("\t" + tail);
    EntryEndsInDigit(b);
    assert Entry(b)[1..] == Label(b) + ("\t" + rest);
    assert rest[|b.selector|] == ("\t" + tail)[0];
    c := StandsForOne(Entry(b), Label(b), rest);
  }

  lemma TwiceIsNotUnique(l: string, c: Bookmark)
    requires AddMatches(Chop(l), c)
    ensures Unique([l]) && !Unique([l, l])
  {
    var two := [l, l];
    assert AddMatches(Chop(two[0]), c) && AddMatches(Chop(two[1]), c);
  }

  lemma {:induction false} TwiceAddedToLines(ls: seq<string>, b: Bookmark)
    requires AllLines(ls) && OneLine(b) && First(ls, AddTest(b)) == |ls|
    ensures var ls' := ls + [Entry(b)];
            Added(Added(Unlines(ls), b), b) == Unlines(if Plain(b) && AllFit(ls) then ls' else ls' + [Entry(b)])
  {
    AddedIsLines(ls, b);
    EntryIsALine(ls, b);
    FirstAfterAdding(ls, b);
    AddedIsLines(ls + [Entry(b)], b);
  }

  lemma {:induction false} TwiceAddedLines(b: Bookmark)
    requires OneLine(b)
    ensures Added(Added("", b), b) == Unlines(if Plain(b) then [Entry(b)] else [Entry(b), Entry(b)])
  {
    var none: seq<string> := [];
    TwiceAddedToLines(none, b);
    assert none + [Entry(b)] == [Entry(b)];
  }

  /** No weaker condition on the locations would do: adding one twice to the empty file leaves a
      single line exactly when it is plain, and two lines for one location otherwise. */
  lemma {:induction false} AddedTwiceFromEmpty(b: Bookmark)
    requires OneLine(b)
    ensures var ls := if Plain(b) then [Entry(b)] else [Entry(b), Entry(b)];
            Run("", [Add(b), Add(b)]) == Unlines(ls) && (Unique(ls) <==> Plain(b))
  {
    RunOfTwo("", b);
    TwiceAddedLines(b);
    var c := EntryStandsForOne(b);
    TwiceIsNotUnique(Entry(b), c);
  }

  lemma {:induction false} RunNext(data: string, ops: seq<Op>, op: Op)
    ensures Run(data, ops + [op]) == Apply(Run(data, ops), op)
  {
    assert (ops + [op])[..|ops|] == ops;
  }

  lemma {:induction false} RunOfTwo(data: string, b: Bookmark)
    ensures Run(data, [Add(b), Add(b)]) == Added(Added(data, b), b)
  {
    RunNext(data, [], Add(b));
    RunNext(data, [Add(b)], Add(b));
    assert [] + [Add(b)] == [Add(b)] && [Add(b)] + [Add(b)] == [Add(b), Add(b)];
  }

  /** From the empty file on, any run of deletes and of adds of plain locations. */
  lemma {:induction false} RunFromEmpty(ops: seq<Op>) returns (end: seq<string>)
    requires forall k :: 0 <= k < |ops| && ops[k].Add? ==> Plain(ops[k].b)
    ensures Run("", ops) == Unlines(end) && AllFit(end) && Unique(end)
  {
    end := RunKeepsUnique([], ops);
  }

  /** A location with a TAB, as the results of queries have, is bookmarked again and again. */
  lemma {:induction false} TabBookmarkedTwice()
    ensures var b := Bookmark('7', "h", 70, "find\tcats");
            OneLine(b) && Added(Added("", b), b) == Unlines([Entry(b), Entry(b)])
  {
    var b := Bookmark('7', "h", 70, "find\tcats");
    assert b.selector[4] == '\t';
    TwiceAddedLines(b);
  }

  function Repeat(n: nat, c: char): (s: string)
    ensures |s| == n && forall d :: d in s ==> d == c
  {
    seq(n, _ => c)
  }

  lemma EntryLength(b: Bookmark)
    requires b.selector != "" && b.port == 70
    ensures |Entry(b)| == 8 + 2 * |b.selector| + 2 * |b.host|
  {
    assert Decimal(70) == Decimal(7) + "0" && Decimal(7) == "7";
  }

  // The result of a query of 255 characters to a search with a selector of 100.
  function LongQuery(): Bookmark {
    Bookmark('7', "h", 70, Repeat(100, 's') + ("\t" + Repeat(255, 'q')))
  }

  lemma LongQueryIsTooLong()
    ensures OneLine(LongQuery()) && |Entry(LongQuery())| >= LINELEN
  {
    EntryLength(LongQuery());
  }

  /** Once a long query result has been bookmarked, its line hides all new ones: any location is
      added again, and is not deleted. */
  lemma {:induction false} LongQueryHidesTheRest(c: Bookmark)
    requires OneLine(c)
    ensures var q := LongQuery();
            Run("", [Add(q), Add(c), Add(c)]) == Unlines([Entry(q), Entry(c), Entry(c)]) &&
            Run("", [Add(q), Add(c), Delete(Some(c.host), c.port, Some(c.selector))]) == Unlines([Entry(q), Entry(c)])
  {
    var q, one, two := Entry(LongQuery()), [Entry(LongQuery())], [Entry(LongQuery()), Entry(c)];
    LongQueryThenOne(c);
    var first := Added("", LongQuery());
    RunOfThree(Add(LongQuery()), Add(c), Add(c), first, Unlines(two));
    RunOfThree(Add(LongQuery()), Add(c), Delete(Some(c.host), c.port, Some(c.selector)), first, Unlines(two));
    NothingFound(two, c);
    assert two + [Entry(c)] == [q, Entry(c), Entry(c)];
  }

  lemma {:induction false} NothingFound(ls: seq<string>, c: Bookmark)
    requires AllLines(ls) && First(ls, AddTest(c)) == |ls| && First(ls, DelTestOf(c)) == |ls|
    ensures Added(Unlines(ls), c) == Unlines(ls + [Entry(c)])
    ensures Deleted(Unlines(ls), Some(c.host), c.port, Some(c.selector)) == Unlines(ls)
  {
    AddedIsLines(ls, c);
    DeletedIsLines(ls, Some(c.host), c.port, Some(c.selector));
  }

  lemma {:induction false} LongQueryThenOne(c: Bookmark)
    requires OneLine(c)
    ensures var two := [Entry(LongQuery()), Entry(c)];
            AllLines(two) && Added(Added("", LongQuery()), c) == Unlines(two) &&
            First(two, AddTest(c)) == 2 && First(two, DelTestOf(c)) == 2
  {
    var q := LongQuery();
    var none: seq<string> := [];
    var one := none + [Entry(q)];
    LongQueryIsTooLong();
    AddedIsLines(none, q);
    EntryIsALine(none, q);
    TooLongBlocks(one, c);
    AddedIsLines(one, c);
    assert one == [Entry(q)] && one + [Entry(c)] == [Entry(q), Entry(c)];
  }

  // Behind a line too long nothing is found.
  lemma {:induction false} TooLongBlocks(one: seq<string>, c: Bookmark)
    requires |one| == 1 && |one[0]| >= LINELEN && AllLines(one) && OneLine(c)
    ensures AllLines(one + [Entry(c)]) && First(one, AddTest(c)) == 1
    ensures First(one + [Entry(c)], AddTest(c)) == 2 && First(one + [Entry(c)], DelTestOf(c)) == 2
  {
    EntryIsALine(one, c);
    assert (one + [Entry(c)])[0] == one[0];
  }

  lemma {:induction false} RunOfThree(a: Op, b: Op, c: Op, x: string, y: string)
    requires Apply("", a) == x && Apply(x, b) == y
    ensures Run("", [a, b, c]) == Apply(y, c)
  {
    RunOfOne(a);
    RunNext("", [a], b);
    assert [a] + [b] == [a, b];
    RunNext("", [a, b], c);
    assert [a, b] + [c] == [a, b, c];
  }

  lemma {:induction false} RunOfOne(a: Op)
    ensures Run("", [a]) == Apply("", a)
  {
    RunNext("", [], a);
    assert [] + [a] == [a];
  }

  lemma ColumnsAppend(itemtype: char, shown: string, sel: string, host: string, last: string, more: string)
    ensures Columns(itemtype, shown, sel, host, last) + more == Columns(itemtype, shown, sel, host, last + more)
  {
  }

  lemma GluedText(port: string, itemtype: char, shown: string, rest: string)
    ensures port + ([itemtype] + (shown + ("\t" + rest))) == (port + ([itemtype] + shown)) + ("\t" + rest)
  {
  }

  // What a new entry makes of the last line when that has no line feed: its port grows.
  lemma GluedFields(itemtype: char, shown: string, sel: string, host: string, port: string, b: Bookmark)
    requires NoTabNorNul(shown) && NoTabNorNul(sel) && NoTabNorNul(host) && NoTabNorNul(port)
    requires OneLine(b) && '\t' !in b.host && '\t' !in b.selector
    ensures Explode(Columns(itemtype, shown, sel, host, port) + Entry(b)) ==
            Fields(Some(sel), Some(host), Some(port + ([b.itemtype] + Label(b))))
  {
    var grown, rest := port + ([b.itemtype] + Label(b)), b.selector + ("\t" + (b.host + ("\t" + Decimal(b.port))));
    LabelIsPlain(b);
    ColumnsAppend(itemtype, shown, sel, host, port, Entry(b));
    GluedText(port, b.itemtype, Label(b), rest);
    FieldsOfColumns(itemtype, shown, sel, host, port + Entry(b));
    TabEndsField(grown, rest);
  }

  lemma GluedMatchesNone(tail: string, itemtype: char, shown: string, sel: string, host: string, port: string,
                         b: Bookmark)
    requires NoTabNorNul(shown) && NoTabNorNul(sel) && NoTabNorNul(host) && NoTabNorNul(port)
    requires OneLine(b) && '\t' !in b.host && '\t' !in b.selector && !SameNoCase(b.host, host)
    requires tail == Columns(itemtype, shown, sel, host, port)
    ensures !AddMatches(tail, b) && !AddMatches(tail + Entry(b), b)
    ensures forall c :: AddMatches(tail + Entry(b), c) ==> c.port == Atoi(port + ([b.itemtype] + Label(b))) % 0x1_0000
  {
    FieldsOfColumns(itemtype, shown, sel, host, port);
    GluedFields(itemtype, shown, sel, host, port, b);
  }

  /** A file whose last line is an entry without a line feed: a location on another host is glued to
      that line, which does not stand for it, and has a new port for whatever it stood for before. So
      the location is added a second time, and deleting it does not bring the file back. */
  lemma {:induction false} LastLineIsGlued(ls: seq<string>, itemtype: char, shown: string, sel: string, host: string,
                                           port: string, b: Bookmark)
    requires NoTabNorNul(shown) && NoTabNorNul(sel) && NoTabNorNul(host) && NoTabNorNul(port)
    requires OneLine(b) && '\t' !in b.host && '\t' !in b.selector && !SameNoCase(b.host, host)
    requires AllLines(ls) && First(ls, AddTest(b)) == |ls| && port != "" && port[|port| - 1] != '\r'
    requires '\n' !in Columns(itemtype, shown, sel, host, port)
    ensures var tail := Columns(itemtype, shown, sel, host, port);
            var data := Unlines(ls) + tail;
            !AddMatches(tail + Entry(b), b) && Find(data, 0, AddTest(b)) == None &&
            Added(Added(data, b), b) != Added(data, b) &&
            Deleted(Added(data, b), Some(b.host), b.port, Some(b.selector)) != data
  {
    var tail := Columns(itemtype, shown, sel, host, port);
    GluedMatchesNone(tail, itemtype, shown, sel, host, port, b);
    assert tail[|tail| - 1] == port[|port| - 1];
    FindInText(ls, tail, AddTest(b));
    AddTwice(ls, tail, b);
    AddThenDelete(ls, tail, b);
  }

  // The same for a file of one line.
  lemma {:induction false} OnlyLineIsGlued(data: string, itemtype: char, shown: string, sel: string, host: string,
                                           port: string, b: Bookmark)
    requires NoTabNorNul(shown) && NoTabNorNul(sel) && NoTabNorNul(host) && NoTabNorNul(port)
    requires OneLine(b) && '\t' !in b.host && '\t' !in b.selector && !SameNoCase(b.host, host)
    requires port != "" && port[|port| - 1] != '\r'
    requires data == Columns(itemtype, shown, sel, host, port) && '\n' !in data
    ensures Added(Added(data, b), b) != Added(data, b)
    ensures Deleted(Added(data, b), Some(b.host), b.port, Some(b.selector)) != data
  {
    LastLineIsGlued([], itemtype, shown, sel, host, port, b);
    assert Unlines([]) + data == data;
  }

  /** For one: the line of a menu on host h, and a menu on host g. */
  lemma {:induction false} MenusGlued()
    ensures var data, b := Columns('1', "c", "", "h", "70"), Bookmark('1', "g", 70, "");
            Plain(b) && Added(Added(data, b), b) != Added(data, b) &&
            Deleted(Added(data, b), Some(b.host), b.port, Some(b.selector)) != data
  {
    var data, b := Columns('1', "c", "", "h", "70"), Bookmark('1', "g", 70, "");
    EntryBound(b);
    assert Fold(b.host)[0] == 'g' && Fold("h")[0] == 'h';
    OnlyLineIsGlued(data, '1', "c", "", "h", "70", b);
  }

  /* ---------- the room a line has ---------- */

  lemma DecimalLength(n: nat)
    requires n < 0x1_0000
    ensures |Decimal(n)| <= 5
  {
    var a := n / 10;
    var b := a / 10;
    var c := b / 10;
    assert n >= 10 ==> |Decimal(n)| == |Decimal(a)| + 1;
    assert a >= 10 ==> |Decimal(a)| == |Decimal(b)| + 1;
    assert b >= 10 ==> |Decimal(b)| == |Decimal(c)| + 1;
    assert c >= 10 ==> |Decimal(c)| == |Decimal(c / 10)| + 1 && c / 10 < 10;
  }

  /** The line buffer is large enough for what the parser's buffers hold. */
  lemma EntryBound(b: Bookmark)
    requires |b.host| < MAXHOSTLEN && |b.selector| < MAXSELLEN && b.port < 0x1_0000
    ensures |Entry(b)| <= 653
  {
    DecimalLength(b.port);
  }

  /** Every location parsed from a URL without TABs and line feeds is plain. */
  lemma {:induction false} ParsedIsPlain(url: string)
    requires NUL !in url && '\t' !in url && '\n' !in url
    ensures var u := GopherUrl.ParseUrl(url, MAXHOSTLEN, MAXSELLEN);
            u.Url? ==> u.port >= 0 && Plain(Bookmark(u.itemtype, u.host, u.port, u.selector))
  {
    var u := GopherUrl.ParseUrl(url, MAXHOSTLEN, MAXSELLEN);
    if u.Url? {
      GopherUrl.ParsedFields(url, MAXHOSTLEN, MAXSELLEN);
      EntryBound(Bookmark(u.itemtype, u.host, u.port, u.selector));
    }
  }

  /* ---------- splitting a line in place ---------- */

  // The string a pointer into a buffer stands for; -1 is NULL.
  function Pointed(mem: string, p: int): Option<string> {
    if 0 <= p <= |mem| then Some(Content(mem[p..])) else None
  }

  // The position behind the first TAB at or behind p and in front of c, or -1.
  function BehindTab(text: string, p: int, c: nat): (q: int)
    requires c <= |text|
    ensures q == -1 || 0 <= p < q <= c
    decreases c
  {
    if p < 0 || p >= c then -1
    else if BehindTab(text, p, c - 1) != -1 then BehindTab(text, p, c - 1)
    else if text[c - 1] == '\t' then c else -1
  }

  lemma {:induction false} BehindTabIs(text: string, p: int, c: nat)
    requires c <= |text|
    ensures var q := BehindTab(text, p, c);
            if q == -1 then p >= 0 ==> forall k :: p <= k < c ==> text[k] != '\t'
            else 0 <= p < q <= c && text[q - 1] == '\t' && forall k :: p <= k < q - 1 ==> text[k] != '\t'
    decreases c
  {
    if 0 <= p < c { BehindTabIs(text, p, c - 1); }
  }

  // The line buffer when its TABs in front of c have been replaced by NUL.
  ghost predicate Split(mem: string, text: string, c: nat) {
    |text| < |mem| &&
    forall k :: 0 <= k < |text| ==> mem[k] == if 1 <= k < c && text[k] == '\t' then NUL else text[k]
  }

  lemma PointedIsField(mem: string, text: string, p: nat)
    requires Split(mem, text, |text|) && mem[|text|] == NUL && 1 <= p <= |text|
    ensures Content(mem[p..]) == Field(text[p..])
  {
    var s := text[p..];
    var t := IndexOf(s, '\t');
    var n := IndexOf(s[..t], NUL);
    assert forall k :: 0 <= k < |s| ==> mem[p..][k] == mem[p + k] && s[k] == text[p + k];
    assert n < t ==> s[n] == NUL;
    forall k | 0 <= k < n
      ensures mem[p..][k] == s[k] && s[k] != NUL
    {
      assert s[..t][k] == s[k];
    }
    ContentIs(mem[p..], n);
    assert mem[p..][..n] == s[..t][..n];
  }

  lemma AfterTabIs(text: string, p: nat)
    requires p <= |text|
    ensures var q := BehindTab(text, p, |text|);
            AfterTab(Some(text[p..])) == if q == -1 then None else Some(text[q..])
  {
    var s := text[p..];
    var q := BehindTab(text, p, |text|);
    var i := IndexOf(s, '\t');
    BehindTabIs(text, p, |text|);
    assert forall k :: 0 <= k < |s| ==> s[k] == text[p + k];
    if q != -1 {
      assert s[q - 1 - p] == '\t';
      assert i == q - 1 - p;
      assert s[i + 1..] == text[q..];
    }
  }

  lemma {:induction false} ExplodedPointers(mem: string, text: string, sel: int, host: int, port: int)
    requires Split(mem, text, |text|) && mem[|text|] == NUL
    requires sel == BehindTab(text, 1, |text|) && host == BehindTab(text, sel, |text|) &&
             port == BehindTab(text, host, |text|)
    ensures Fields(Pointed(mem, sel), Pointed(mem, host), Pointed(mem, port)) == Explode(text)
  {
    BehindTabIs(text, 1, |text|);
    BehindTabIs(text, sel, |text|);
    BehindTabIs(text, host, |text|);
    if text != "" {
      AfterTabIs(text, 1);
      if sel != -1 {
        PointedIsField(mem, text, sel);
        AfterTabIs(text, sel);
        if host != -1 {
          PointedIsField(mem, text, host);
          AfterTabIs(text, host);
          if port != -1 { PointedIsField(mem, text, port); }
        }
      }
    }
  }

  // Where the first line of a text ends: at the first line feed behind its item type, or at its end.
  function LineStop(text: string): (n: nat)
    ensures n <= |text|
  {
    if text == "" then 0 else IndexFrom(text, '\n', 1)
  }

  // The three pointers when the characters in front of c have been looked at, and the columns seen.
  ghost predicate Pointers(text: string, c: nat, selector: int, host: int, port: int, column: int)
    requires c <= |text|
  {
    selector == BehindTab(text, 1, c) && host == BehindTab(text, selector, c) && port == BehindTab(text, host, c) &&
    (column == 0 <==> selector == -1) && (column == 1 <==> selector != -1 && host == -1) &&
    (column == 2 <==> host != -1 && port == -1) && 0 <= column <= 16
  }

  /** menuline_explode: terminates the fields of the first line in place and returns the positions
      of selector, host and port, -1 for NULL, and the length of the line with its line feed. */
  method MenulineExplode(buffer: array<char>, bufferlen: nat) returns (len: nat, selector: int, host: int, port: int)
    requires bufferlen < buffer.Length && buffer[bufferlen] == NUL
    modifies buffer
    ensures var text := old(buffer[..bufferlen]);
            Fields(Pointed(buffer[..], selector), Pointed(buffer[..], host), Pointed(buffer[..], port))
            == Explode(text[..LineStop(text)])
    ensures var text := old(buffer[..bufferlen]);
            len == if LineStop(text) < |text| then LineStop(text) + 1 else if text == "" then 1 else |text|
  {
    ghost var stop := LineStop(buffer[..bufferlen]);
    ghost var line := buffer[..stop];
    assert line == buffer[..bufferlen][..stop];
    selector, host, port := -1, -1, -1;
    var column := 0;
    var cursor := 1;
    while cursor < bufferlen
      invariant 1 <= cursor && (cursor <= stop || cursor == 1)
      invariant Split(buffer[..], line, cursor)
      invariant buffer[stop] == if stop < bufferlen then '\n' else NUL
      invariant forall k :: 1 <= k < stop ==> line[k] != '\n'
      invariant Pointers(line, if cursor <= stop then cursor else stop, selector, host, port, column)
    {
      if buffer[cursor] == '\n' {
        buffer[cursor] := NUL;
        cursor := cursor + 1;
        break;
      }
      if buffer[cursor] == '\t' {
        buffer[cursor] := NUL;
        if column == 0 {
          selector := cursor + 1;
        } else if column == 1 {
          host := cursor + 1;
        } else if column == 2 {
          port := cursor + 1;
        }
        if column < 16 { column := column + 1; }
      }
      cursor := cursor + 1;
    }
    ExplodedPointers(buffer[..], line, selector, host, port);
    len := cursor;
  }

  /* ---------- the operations on the file ---------- */

  // What the status bar says.
  datatype Outcome = AlreadyBookmarked | Saved | AccessError

  /** addbookmarkifnotexist. A file that cannot be read is taken to hold no bookmarks, and one that
      cannot be opened for appending stays as it is. */
  method AddBookmark(f: File, readable: bool, writable: bool, b: Bookmark) returns (outcome: Outcome)
    modifies f
    ensures outcome.AlreadyBookmarked? <==> readable && Find(old(f.data), 0, AddTest(b)).Some?
    ensures outcome.Saved? ==> writable && f.data == old(f.data) + Entry(b) + "\n"
    ensures outcome.AccessError? ==> !writable
    ensures !outcome.Saved? ==> f.data == old(f.data)
    ensures readable && writable ==> f.data == Added(old(f.data), b)
  {
    if readable {
      f.Seek(0);
      var x := FindInFile(f, AddFields(b));
      if x.Some? { return AlreadyBookmarked; }
    }
    if !writable { return AccessError; }
    f.data := f.data + Entry(b) + "\n";
    outcome := Saved;
  }

  /** The reading loop of both operations: the first line whose fields satisfy the test. */
  method FindInFile(f: File, test: Fields -> bool) returns (x: Option<Extent>)
    requires f.pos == 0
    modifies f`pos
    ensures x == Find(f.data, 0, OnLine(test))
    ensures x.Some? ==> f.pos == x.value.end
  {
    var lbuf := new char[LINELEN];
    ghost var lineTest := OnLine(test);
    while true
      invariant f.pos <= |f.data| && Find(f.data, 0, lineTest) == Find(f.data, f.pos, lineTest)
      decreases |f.data| - f.pos
    {
      var woff := f.pos;
      var llen, fields := ReadFields(f, lbuf);
      if llen == 0 { return None; }
      if test(fields) {
        return Some(Extent(woff, f.pos));
      }
    }
  }

  /** A line read and split into its fields. */
  method ReadFields(f: File, lbuf: array<char>) returns (llen: nat, fields: Fields)
    requires f.pos <= |f.data| && lbuf.Length == LINELEN
    modifies f`pos, lbuf
    ensures f.pos == LineAt(f.data, old(f.pos), LINELEN).next
    ensures llen == 0 <==> LineAt(f.data, old(f.pos), LINELEN).Nothing?
    ensures llen != 0 ==> fields == Explode(LineAt(f.data, old(f.pos), LINELEN).text)
  {
    fields := Fields(None, None, None);
    ghost var found := LineAt(f.data, f.pos, LINELEN);
    llen := ReadLine(f, lbuf);
    if llen == 0 { return; }
    assert lbuf[..llen][llen - 1] == NUL && lbuf[..llen][..llen - 1] == found.text;
    assert lbuf[..llen - 1] == found.text && lbuf[llen - 1] == NUL;
    assert LineStop(found.text) == |found.text| && found.text[..|found.text|] == found.text;
    var _, sel, host, port := MenulineExplode(lbuf, llen - 1);
    fields := Fields(Pointed(lbuf[..], sel), Pointed(lbuf[..], host), Pointed(lbuf[..], port));
  }

  /** delbookmark: the rest of the file is copied down over the line in chunks, and the file is
      cut at the end of the copy. A file that cannot be opened stays as it is. */
  method DeleteBookmark(f: File, openable: bool, bhost: Option<string>, bport: int, bsel: Option<string>)
    modifies f
    ensures f.data == if openable then Deleted(old(f.data), bhost, bport, bsel) else old(f.data)
  {
    if !openable { return; }
    f.Seek(0);
    var x := FindInFile(f, DelFields(bhost, bport, bsel));
    if x == None { return; }
    CopyDown(f, x.value.start, x.value.end);
  }

  method CopyDown(f: File, start: nat, end: nat)
    requires start < end <= |f.data|
    modifies f
    ensures f.data == old(f.data)[..start] + old(f.data)[end..]
  {
    ghost var orig := f.data;
    var woff, roff := start, end;
    while true
      invariant start <= woff && woff + (end - start) == roff <= |orig| == |f.data|
      invariant f.data[..woff] == orig[..start] + orig[end..roff]
      invariant f.data[roff..] == orig[roff..]
      decreases |orig| - roff
    {
      f.Seek(roff);
      var chunk := f.Read(LINELEN);
      if |chunk| == 0 { break; }
      ghost var was := f.data;
      CopyStep(orig, was, start, end, woff, roff, |chunk|);
      roff := f.pos;
      f.Seek(woff);
      f.Write(chunk);
      woff := f.pos;
    }
    f.data := f.data[..woff];
  }

  // One chunk: the write stays behind what is still to be read.
  lemma CopyStep(orig: string, was: string, start: nat, end: nat, woff: nat, roff: nat, n: nat)
    requires start <= woff && start < end && woff + (end - start) == roff && roff + n <= |orig| == |was|
    requires was[..woff] == orig[..start] + orig[end..roff] && was[roff..] == orig[roff..]
    ensures var now := was[..woff] + was[roff..roff + n] + was[woff + n..];
            |now| == |orig| && now[..woff + n] == orig[..start] + orig[end..roff + n] &&
            now[roff + n..] == orig[roff + n..]
  {
    var chunk := was[roff..roff + n];
    assert chunk == was[roff..][..n] == orig[roff..][..n] == orig[roff..roff + n];
    assert orig[end..roff + n] == orig[end..roff] + orig[roff..roff + n];
    var now := was[..woff] + chunk + was[woff + n..];
    assert now[..woff + n] == was[..woff] + chunk;
    assert now[roff + n..] == was[roff + n..] == was[roff..][n..] == orig[roff..][n..];
  }
}
