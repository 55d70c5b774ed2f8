/** The display-control loop of display_text: a window of lines over the wrapped text. */
module TextView {
  import opened CStrings
  import opened WordWrap

  datatype Key = Up | Down | Home | PageUp | PageDown | Other

  function Line(lines: seq<string>, k: int): string {
    if 0 <= k < |lines| then lines[k] else ""
  }

  // The loop over the text has produced y lines and goes on from txtptr, -1 standing for NULL.
  ghost predicate Pending(text: string, width: nat, y: nat, txtptr: int)
    requires width >= 1
  {
    y <= |WrapAll(text, width)| &&
    (txtptr == -1 ==> y == |WrapAll(text, width)|) &&
    (txtptr != -1 ==> 0 <= txtptr <= |text| && WrapAll(text, width)[y..] == WrapAll(text[txtptr..], width))
  }

  lemma PendingStep(text: string, width: nat, y: nat, txtptr: nat, next: int)
    requires width >= 1 && Pending(text, width, y, txtptr) && txtptr <= |text|
    requires ResumesAt(text, Wrap(text[txtptr..], width), next)
    ensures y < |WrapAll(text, width)|
    ensures WrapAll(text, width)[y] == Wrap(text[txtptr..], width).line
    ensures Pending(text, width, y + 1, next)
  {
    var all := WrapAll(text, width);
    var here := text[txtptr..];
    WrapAdvances(here, width);
    assert all[y] == all[y..][0];
    assert all[y + 1..] == all[y..][1..];
  }

  // Screen rows 1 to n show the lines from number firstline on.
  ghost predicate Shows(screen: seq<string>, n: int, firstline: int, lines: seq<string>)
    requires n < |screen|
  {
    forall r :: 1 <= r <= n ==> screen[r] == Line(lines, firstline + r - 1)
  }

  lemma ShowsNext(screen: seq<string>, n: nat, firstline: nat, lines: seq<string>)
    requires n + 1 < |screen| && Shows(screen, n, firstline, lines) && firstline + n < |lines|
    ensures Shows(screen[n + 1 := lines[firstline + n]], n + 1, firstline, lines)
  {
  }

  /** The two painting loops: the wrapped lines, then blank rows up to the end of the window. */
  method PaintWindow(text: string, width: nat, firstline: int, lastline: int, screen: array<string>,
                     linebuff: array<char>)
    returns (eof: bool)
    requires NUL !in text && width >= 1 && 0 <= firstline <= lastline && firstline < |WrapAll(text, width)|
    requires lastline - firstline + 3 == screen.Length && width < linebuff.Length
    requires screen as object != linebuff
    modifies screen, linebuff
    ensures Shows(screen[..], lastline - firstline + 1, firstline, WrapAll(text, width))
    ensures screen[0] == old(screen[0]) && screen[screen.Length - 1] == old(screen[screen.Length - 1])
    ensures eof <==> |WrapAll(text, width)| <= lastline
  {
    ghost var all := WrapAll(text, width);
    var y := PaintLines(text, width, firstline, lastline, screen, linebuff);
    eof := y <= lastline;
    while y <= lastline
      invariant firstline <= y <= lastline + 1
      invariant y <= lastline ==> y >= |all|
      invariant Shows(screen[..], y - firstline, firstline, all)
      invariant screen[0] == old(screen[0]) && screen[screen.Length - 1] == old(screen[screen.Length - 1])
    {
      screen[y + 1 - firstline] := "";
      y := y + 1;
    }
  }

  /** One line painted below the first n. */
  method PaintLine(screen: array<string>, n: nat, line: string, ghost firstline: nat, ghost all: seq<string>)
    requires n + 2 < screen.Length && firstline + n < |all| && line == all[firstline + n]
    requires Shows(screen[..], n, firstline, all)
    modifies screen
    ensures Shows(screen[..], n + 1, firstline, all)
    ensures screen[0] == old(screen[0]) && screen[screen.Length - 1] == old(screen[screen.Length - 1])
  {
    ghost var was := screen[..];
    screen[n + 1] := line;
    assert screen[..] == was[n + 1 := line];
    ShowsNext(was, n, firstline, all);
  }

  method PaintLines(text: string, width: nat, firstline: int, lastline: int, screen: array<string>,
                    linebuff: array<char>)
    returns (y: int)
    requires NUL !in text && width >= 1 && 0 <= firstline <= lastline && firstline < |WrapAll(text, width)|
    requires lastline - firstline + 3 == screen.Length && width < linebuff.Length
    requires screen as object != linebuff
    modifies screen, linebuff
    ensures firstline < y <= lastline + 1
    ensures if |WrapAll(text, width)| <= lastline then y == |WrapAll(text, width)| else y == lastline + 1
    ensures Shows(screen[..], y - firstline, firstline, WrapAll(text, width))
    ensures screen[0] == old(screen[0]) && screen[screen.Length - 1] == old(screen[screen.Length - 1])
  {
    ghost var all := WrapAll(text, width);
    y := 0;
    var txtptr: int := 0;
    assert text[0..] == text;
    while txtptr != -1 && y <= lastline
      invariant 0 <= y <= lastline + 1 && Pending(text, width, y, txtptr)
      invariant Shows(screen[..], y - firstline, firstline, all)
      invariant screen[0] == old(screen[0]) && screen[screen.Length - 1] == old(screen[screen.Length - 1])
      decreases |all| - y, txtptr != -1
    {
      ghost var from := txtptr;
      txtptr := Wordwrap(text, txtptr, linebuff, width);
      PendingStep(text, width, y, from, txtptr);
      if y >= firstline {
        PaintLine(screen, y - firstline, Content(linebuff[..]), firstline, all);
      }
      y := y + 1;
    }
  }

  class Viewer {
    const text: string
    const width: nat
    const rows: nat
    var firstline: int
    var lastline: int

    // The window is rows - 2 lines high and shows at least one line of the text.
    ghost predicate Valid()
      reads this
    {
      NUL !in text && width >= 1 && rows >= 4 &&
      lastline == firstline + (rows - 3) && 0 <= firstline < |WrapAll(text, width)|
    }

    ghost predicate AtEnd()
      requires width >= 1
      reads this
    {
      |WrapAll(text, width)| <= lastline
    }

    constructor (text: string, width: nat, rows: nat)
      requires NUL !in text && width >= 1 && rows >= 4
      ensures Valid() && this.text == text && this.width == width && this.rows == rows && firstline == 0
    {
      this.text, this.width, this.rows := text, width, rows;
      firstline, lastline := 0, rows - 3;
    }

    /** One pass of the loop's painting: screen row r, from 1 to rows - 2, gets line
        firstline + r - 1 of the text, or nothing past its end. */
    method Paint(screen: array<string>, linebuff: array<char>) returns (eof: bool)
      requires Valid() && screen.Length == rows && width < linebuff.Length
      requires screen as object != linebuff
      modifies screen, linebuff
      ensures var lines := WrapAll(text, width);
              forall r :: 1 <= r <= rows - 2 ==>
                screen[r] == if firstline + r - 1 < |lines| then lines[firstline + r - 1] else ""
      ensures screen[0] == old(screen[0]) && screen[rows - 1] == old(screen[rows - 1])
      ensures eof <==> |WrapAll(text, width)| <= firstline + rows - 3
    {
      eof := PaintWindow(text, width, firstline, lastline, screen, linebuff);
    }

    /** The scrolling keys: whatever is pressed, a line of the text stays on the screen. */
    method Scroll(key: Key, eof: bool)
      requires Valid() && (eof <==> AtEnd())
      modifies this
      ensures Valid()
      ensures firstline ==
              match key
              case Up => if old(firstline) > 0 then old(firstline) - 1 else 0
              case Down => if old(AtEnd()) then old(firstline) else old(firstline) + 1
              case Home => 0
              case PageUp => if old(firstline) > rows - 3 then old(firstline) - (rows - 3) else 0
              case PageDown => if old(AtEnd()) then old(firstline) else old(lastline)
              case Other => old(firstline)
    {
      match key
      case Up =>
        if firstline > 0 {
          firstline, lastline := firstline - 1, lastline - 1;
        }
      case Down =>
        if !eof {
          firstline, lastline := firstline + 1, lastline + 1;
        }
      case Home =>
        lastline := lastline - firstline;
        firstline := 0;
      case PageUp =>
        if firstline > 0 {
          firstline := firstline - (rows - 3);
          if firstline < 0 { firstline := 0; }
          lastline := firstline + (rows - 3);
        }
      case PageDown =>
        if !eof {
          firstline := firstline + (rows - 3);
          lastline := lastline + (rows - 3);
        }
      case Other =>
    }
  }
}
