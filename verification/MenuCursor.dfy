/** The selection machine of display_menu: the selected row and the scroll offset of a menu under
    the navigation keys. The exploded menu is an input: its row types, first and last link. */
module MenuCursor {
  import opened CStrings

  // isitemtypeselectable: line continuations have bit 7 set; 'i', '3' and '.' are plain text.
  predicate Selectable(itemtype: Byte) {
    itemtype < 128 && itemtype as char != 'i' && itemtype as char != '3' && itemtype as char != '.'
  }

  datatype Menu = Menu(items: seq<Byte>, first: int, last: int, rows: int) {
    predicate Link(i: int) { 0 <= i < |items| && Selectable(items[i]) }

    // first and last are the first and last link, or -1; the screen has at least four rows.
    ghost predicate Ok() {
      rows >= 4 &&
      (forall i :: Link(i) ==> first <= i <= last) &&
      (if first == -1 then last == -1 else Link(first) && Link(last))
    }

    function Height(): int { rows - 2 }

    predicate Visible(i: int, offset: int) { offset <= i < offset + Height() }

    // The next link below i: there is one when i is above the last link.
    function Next(i: int): (j: int)
      requires -1 <= i < last < |items| && Link(last)
      ensures i < j <= last && Link(j) && forall k :: i < k < j ==> !Link(k)
      decreases last - i
    {
      if Link(i + 1) then i + 1 else Next(i + 1)
    }

    function Previous(i: int): (j: int)
      requires 0 <= first < i <= |items| && Link(first)
      ensures first <= j < i && Link(j) && forall k :: j < k < i ==> !Link(k)
      decreases i
    {
      if Link(i - 1) then i - 1 else Previous(i - 1)
    }
  }

  // The selected row (-1 for none) and the first row on screen.
  datatype Pos = Pos(selected: int, offset: int)

  ghost predicate Inv(m: Menu, p: Pos) {
    (if m.first == -1 then p.selected == -1 else m.Link(p.selected)) &&
    0 <= p.offset && (p.offset == 0 || p.offset < |m.items|)
  }

  datatype Key = Home | Up | PageUp | End | Down | PageDown

  function UpOne(offset: int): int {
    if offset > 0 then offset - 1 else offset
  }

  function DownOne(m: Menu, offset: int): int {
    if offset < |m.items| - (m.rows - 3) then offset + 1 else offset
  }

  // The last, or first, link among the rows from lo up to hi; none gives the row passed in.
  function LastLink(m: Menu, lo: int, hi: int, none: int): int
    decreases hi - lo
  {
    if hi <= lo then none else if m.Link(hi - 1) then hi - 1 else LastLink(m, lo, hi - 1, none)
  }

  function FirstLink(m: Menu, lo: int, hi: int, none: int): int
    decreases hi - lo
  {
    if hi <= lo then none else if m.Link(lo) then lo else FirstLink(m, lo + 1, hi, none)
  }

  // One key press.
  function Press(m: Menu, p: Pos, key: Key): Pos
    requires m.Ok() && Inv(m, p)
  {
    match key
    case Home => Pos(m.first, 0)
    case Up =>
      if p.selected > m.first then
        var prev := m.Previous(p.selected);
        var offset := if prev >= p.offset then p.offset else UpOne(p.offset);
        Pos(if prev >= offset then prev else p.selected, offset)
      else Pos(p.selected, UpOne(p.offset))
    case PageUp =>
      var offset := if p.offset >= m.Height() then p.offset - m.Height() else 0;
      var end := offset + m.Height();
      Pos(if p.selected >= end then LastLink(m, offset, end, p.selected) else p.selected, offset)
    case End =>
      Pos(m.last, if |m.items| > m.rows - 3 then |m.items| - (m.rows - 3) else 0)
    case Down =>
      if p.selected > p.offset + m.rows - 3 then Pos(p.selected, p.offset + 1)
      else if p.selected < m.last then
        var next := m.Next(p.selected);
        var offset := if m.Visible(next, p.offset) then p.offset else DownOne(m, p.offset);
        Pos(if m.Visible(next, offset) then next else p.selected, offset)
      else Pos(p.selected, DownOne(m, p.offset))
    case PageDown =>
      var offset := if p.offset < |m.items| - m.Height() then p.offset + m.Height() else p.offset;
      Pos(if p.selected < offset then FirstLink(m, offset, offset + m.Height(), p.selected) else p.selected, offset)
  }

  lemma {:induction false} LastLinkIs(m: Menu, lo: int, hi: int, none: int)
    ensures var r := LastLink(m, lo, hi, none);
            r == none || (lo <= r < hi && m.Link(r))
    ensures forall i :: lo <= i < hi && m.Link(i) ==> lo <= i <= LastLink(m, lo, hi, none) < hi
    decreases hi - lo
  {
    if lo < hi && !m.Link(hi - 1) { LastLinkIs(m, lo, hi - 1, none); }
  }

  lemma {:induction false} FirstLinkIs(m: Menu, lo: int, hi: int, none: int)
    ensures var r := FirstLink(m, lo, hi, none);
            r == none || (lo <= r < hi && m.Link(r))
    ensures forall i :: lo <= i < hi && m.Link(i) ==> lo <= FirstLink(m, lo, hi, none) <= i < hi
    decreases hi - lo
  {
    if lo < hi && !m.Link(lo) { FirstLinkIs(m, lo + 1, hi, none); }
  }

  /** Whatever is pressed, the selection is a link of the menu (or -1 when it has none) and the
      offset is a row of the menu. */
  lemma PressKeeps(m: Menu, p: Pos, key: Key)
    requires m.Ok() && Inv(m, p)
    ensures Inv(m, Press(m, p, key))
  {
    if key == PageUp || key == PageDown { PageKeeps(m, p); }
  }

  lemma PageKeeps(m: Menu, p: Pos)
    requires m.Ok() && Inv(m, p)
    ensures Inv(m, Press(m, p, PageUp)) && Inv(m, Press(m, p, PageDown))
  {
    var up := if p.offset >= m.Height() then p.offset - m.Height() else 0;
    LastLinkIs(m, up, up + m.Height(), p.selected);
    var down := if p.offset < |m.items| - m.Height() then p.offset + m.Height() else p.offset;
    FirstLinkIs(m, down, down + m.Height(), p.selected);
  }

  // The first view of a menu, lines 1192 and 1203 of gopherus.c.
  function FirstView(m: Menu): Pos {
    Pos(m.first, 0)
  }

  function Presses(m: Menu, p: Pos, keys: seq<Key>): (q: Pos)
    requires m.Ok() && Inv(m, p)
    ensures Inv(m, q)
    decreases |keys|
  {
    if keys == [] then p else
      PressKeeps(m, p, keys[0]);
      Presses(m, Press(m, p, keys[0]), keys[1..])
  }

  /** Every run of navigation keys from the first view, read field by field. */
  lemma RunStaysInMenu(m: Menu, keys: seq<Key>)
    requires m.Ok()
    ensures var p := Presses(m, FirstView(m), keys);
            (p.selected == -1 || (m.first <= p.selected <= m.last && m.Link(p.selected))) &&
            (p.selected == -1 <==> m.first == -1) &&
            (p.offset == 0 || 0 < p.offset < |m.items|)
  {
    var p := Presses(m, FirstView(m), keys);
    assert Inv(m, p);
  }

  /** Paging brings the selection back on screen: when it went off below, the last link on screen
      is selected, and when it went off above, the first one, if there is any. */
  lemma PagingSelectsVisible(m: Menu, p: Pos, i: int)
    requires m.Ok() && Inv(m, p) && m.Link(i)
    ensures var q := Press(m, p, PageUp);
            if p.selected < q.offset + m.Height() then q.selected == p.selected
            else m.Visible(i, q.offset) ==> m.Visible(q.selected, q.offset) && m.Link(q.selected) && i <= q.selected
    ensures var q := Press(m, p, PageDown);
            if p.selected >= q.offset then q.selected == p.selected
            else m.Visible(i, q.offset) ==> m.Visible(q.selected, q.offset) && m.Link(q.selected) && q.selected <= i
  {
    var up, down := Press(m, p, PageUp).offset, Press(m, p, PageDown).offset;
    LastLinkIs(m, up, up + m.Height(), p.selected);
    FirstLinkIs(m, down, down + m.Height(), p.selected);
    PressKeeps(m, p, PageUp);
    PressKeeps(m, p, PageDown);
  }

  /* ---------- going down ---------- */

  // After k presses of one key.
  function Times(m: Menu, p: Pos, key: Key, k: nat): (q: Pos)
    requires m.Ok() && Inv(m, p)
    ensures Inv(m, q)
    decreases k
  {
    if k == 0 then p else
      PressKeeps(m, p, key);
      Times(m, Press(m, p, key), key, k - 1)
  }

  // No link below the selected one has been scrolled off the top.
  ghost predicate NothingSkipped(m: Menu, p: Pos) {
    forall i :: m.Link(i) && i > p.selected ==> i >= p.offset
  }

  // One press moves the selection to the next link or scrolls by one row.
  lemma DownStep(m: Menu, p: Pos)
    requires m.Ok() && Inv(m, p) && NothingSkipped(m, p) && m.first >= 0 && p.selected < m.last
    ensures var q := Press(m, p, Down);
            NothingSkipped(m, q) &&
            ((q.selected == p.selected && q.offset == p.offset + 1) ||
             (q.selected == m.Next(p.selected) && q.offset >= p.offset))
  {
  }

  // The selection moved on to the next link, or stayed, on the j-th press.
  ghost predicate MovesOn(m: Menu, p: Pos, j: nat, s: int)
    requires m.Ok() && Inv(m, p)
  {
    var a, b := Times(m, p, Down, j).selected, Times(m, p, Down, j + 1).selected;
    a < s && a < m.last && (b == a || b == m.Next(a))
  }

  lemma {:induction false} DownReaches(m: Menu, p: Pos, s: int) returns (n: nat)
    requires m.Ok() && m.Link(s) && Inv(m, p) && NothingSkipped(m, p) && p.selected <= s
    ensures Times(m, p, Down, n).selected == s && n <= (s - p.selected) + (|m.items| - p.offset)
    ensures forall j: nat :: j < n ==> MovesOn(m, p, j, s)
    decreases (s - p.selected) + (|m.items| - p.offset)
  {
    if p.selected == s {
      return 0;
    }
    DownStep(m, p);
    PressKeeps(m, p, Down);
    var q := Press(m, p, Down);
    var k := DownReaches(m, q, s);
    n := k + 1;
    forall j: nat | j < n
      ensures MovesOn(m, p, j, s)
    {
      assert Times(m, p, Down, j + 1) == Times(m, q, Down, j);
      if j > 0 {
        assert Times(m, p, Down, j) == Times(m, q, Down, j - 1);
        assert MovesOn(m, q, j - 1, s);
      }
    }
  }

  /** From the first view KEY_DOWN alone selects every link, each in its turn: row s is selected
      after at most s - first + linecount presses, and every press before that leaves the
      selection or moves it to the next link. */
  lemma DownVisitsAllInOrder(m: Menu, s: int) returns (n: nat)
    requires m.Ok() && m.Link(s)
    ensures Times(m, FirstView(m), Down, n).selected == s && n <= (s - m.first) + |m.items|
    ensures forall j: nat :: j < n ==> MovesOn(m, FirstView(m), j, s)
  {
    n := DownReaches(m, FirstView(m), s);
  }

  /* ---------- going up ---------- */

  // j is the nearest link above i.
  ghost predicate NextAbove(m: Menu, i: int, j: int) {
    m.Link(j) && j < i && forall k :: j < k < i ==> !m.Link(k)
  }

  /** KEY_UP selects the nearest link above the selected one if that is not above the screen, after
      scrolling up by one row if need be; without a link above it only scrolls. */
  lemma UpStep(m: Menu, p: Pos)
    requires m.Ok() && Inv(m, p)
    ensures var q := Press(m, p, Up);
            if p.selected > m.first then
              exists j :: NextAbove(m, p.selected, j) &&
                (if j >= p.offset then q == Pos(j, p.offset)
                 else q == Pos(if j == p.offset - 1 then j else p.selected, p.offset - 1))
            else q == Pos(p.selected, if p.offset > 0 then p.offset - 1 else 0)
  {
    if p.selected > m.first { assert NextAbove(m, p.selected, m.Previous(p.selected)); }
  }

  // The selection moved up to the next link, or stayed, on the j-th press.
  ghost predicate MovesUp(m: Menu, p: Pos, j: nat, s: int)
    requires m.Ok() && Inv(m, p)
  {
    var a, b := Times(m, p, Up, j).selected, Times(m, p, Up, j + 1).selected;
    s < a && (b == a || NextAbove(m, a, b))
  }

  /** From any position KEY_UP alone selects every link above, each in its turn: row s after at most as
      many presses as there are rows from s to the selection and from the top of the menu to the screen. */
  lemma {:induction false} UpVisitsAllInOrder(m: Menu, p: Pos, s: int) returns (n: nat)
    requires m.Ok() && Inv(m, p) && m.Link(s) && s <= p.selected
    ensures Times(m, p, Up, n).selected == s && n <= (p.selected - s) + p.offset
    ensures forall j: nat :: j < n ==> MovesUp(m, p, j, s)
    decreases (p.selected - s) + p.offset
  {
    if p.selected == s {
      return 0;
    }
    UpStep(m, p);
    PressKeeps(m, p, Up);
    var q := Press(m, p, Up);
    var k := UpVisitsAllInOrder(m, q, s);
    n := k + 1;
    forall j: nat | j < n
      ensures MovesUp(m, p, j, s)
    {
      assert Times(m, p, Up, j + 1) == Times(m, q, Up, j);
      if j > 0 {
        assert Times(m, p, Up, j) == Times(m, q, Up, j - 1);
        assert MovesUp(m, q, j - 1, s);
      }
    }
  }

  /* ---------- where the other keys go ---------- */

  /** Rows can be selected unless they continue a line or are of type i, 3 or '.'. */
  lemma SelectableIs(itemtype: Byte)
    ensures Selectable(itemtype) <==> itemtype < 128 && itemtype != 105 && itemtype != 51 && itemtype != 46
  {
  }

  /** HOME goes to the first link and the first row; END to the last link and the last row, which it
      shows in the last row but one of the window unless the menu fits. */
  lemma HomeAndEnd(m: Menu, p: Pos)
    requires m.Ok() && Inv(m, p)
    ensures var q := Press(m, p, Home);
            q.offset == 0 && (forall i :: m.Link(i) ==> q.selected <= i) &&
            ((exists i :: m.Link(i)) ==> m.Link(q.selected))
    ensures var q := Press(m, p, End);
            (forall i :: m.Link(i) ==> i <= q.selected) && ((exists i :: m.Link(i)) ==> m.Link(q.selected)) &&
            (m.items != [] ==> m.Visible(|m.items| - 1, q.offset)) &&
            (q.offset == 0 || q.offset + (m.rows - 4) == |m.items| - 1)
  {
  }

  /** The page keys move by the height of the window, or to the top; at the end of the menu KEY_PGDOWN
      does not move. */
  lemma PageOffsets(m: Menu, p: Pos)
    requires m.Ok() && Inv(m, p)
    ensures var offset := Press(m, p, PageUp).offset;
            offset == p.offset - (m.rows - 2) || (offset == 0 && p.offset < m.rows - 2)
    ensures var offset := Press(m, p, PageDown).offset;
            if m.Visible(|m.items| - 1, p.offset) || m.items == [] then offset == p.offset
            else offset == p.offset + (m.rows - 2)
  {
  }

  /** A page without a link leaves the selection where it is. */
  lemma EmptyPage(m: Menu, p: Pos)
    requires m.Ok() && Inv(m, p)
    ensures var q := Press(m, p, PageUp);
            (forall i :: q.offset <= i < q.offset + (m.rows - 2) ==> !m.Link(i)) ==> q.selected == p.selected
    ensures var q := Press(m, p, PageDown);
            (forall i :: q.offset <= i < q.offset + (m.rows - 2) ==> !m.Link(i)) ==> q.selected == p.selected
  {
    var up, down := Press(m, p, PageUp).offset, Press(m, p, PageDown).offset;
    LastLinkIs(m, up, up + m.Height(), p.selected);
    FirstLinkIs(m, down, down + m.Height(), p.selected);
  }

  // j is the nearest link below i.
  ghost predicate NextBelow(m: Menu, i: int, j: int) {
    m.Link(j) && i < j && forall k :: i < k < j ==> !m.Link(k)
  }

  // One row down, as long as rows are below those shown, less one.
  function RowDown(m: Menu, offset: int): int {
    if offset + (m.rows - 3) < |m.items| then offset + 1 else offset
  }

  /** KEY_DOWN selects the nearest link below the selected one if that is on screen, after scrolling
      down by one row if need be; with the selection below the screen, or no link below it, it only
      scrolls. */
  lemma DownMoves(m: Menu, p: Pos)
    requires m.Ok() && Inv(m, p)
    ensures var q, end := Press(m, p, Down), p.offset + (m.rows - 2);
            if p.selected >= end then q == Pos(p.selected, p.offset + 1)
            else if p.selected < m.last then
              exists j :: NextBelow(m, p.selected, j) &&
                (if p.offset <= j < end then q == Pos(j, p.offset)
                 else
                   var offset := RowDown(m, p.offset);
                   q == Pos(if offset <= j < offset + (m.rows - 2) then j else p.selected, offset))
            else (forall i :: m.Link(i) ==> i <= p.selected) && q == Pos(p.selected, RowDown(m, p.offset))
  {
    if p.selected < m.last { assert NextBelow(m, p.selected, m.Next(p.selected)); }
  }

  /* ---------- the key handling ---------- */

  class View {
    const m: Menu
    var selectedline: int
    var screenlineoffset: int

    ghost function At(): Pos
      reads this
    {
      Pos(selectedline, screenlineoffset)
    }

    ghost predicate Valid()
      reads this
    {
      m.Ok() && Inv(m, At())
    }

    /** Entering display_menu with the position remembered in the history node, or with the -1
        values of a new one. */
    constructor (m: Menu, displaymemory: (int, int))
      requires m.Ok() && (displaymemory == (-1, -1) || Inv(m, Pos(displaymemory.0, displaymemory.1)))
      ensures Valid() && this.m == m
      ensures At() == if displaymemory == (-1, -1) then FirstView(m) else Pos(displaymemory.0, displaymemory.1)
    {
      this.m := m;
      selectedline, screenlineoffset := displaymemory.0, displaymemory.1;
      new;
      if screenlineoffset < 0 { screenlineoffset := 0; }
      if m.first >= 0 && selectedline < 0 { selectedline := m.first; }
    }

    /** The key switch of display_menu. */
    method Handle(key: Key)
      requires Valid()
      modifies this
      ensures Valid() && At() == Press(m, old(At()), key)
    {
      PressKeeps(m, At(), key);
      match key
      case Home =>
        if selectedline >= 0 { selectedline := m.first; }
        screenlineoffset := 0;
      case Up => GoUp();
      case PageUp => GoPageUp();
      case End =>
        if selectedline >= 0 { selectedline := m.last; }
        screenlineoffset := |m.items| - (m.rows - 3);
        if screenlineoffset < 0 { screenlineoffset := 0; }
      case Down => GoDown();
      case PageDown => GoPageDown();
    }

    method GoUp()
      requires Valid()
      modifies this
      ensures At() == Press(m, old(At()), Up)
    {
      if selectedline > m.first {
        var prevlink := selectedline - 1;
        while !Selectable(m.items[prevlink])
          invariant m.first <= prevlink < selectedline
          invariant forall k :: prevlink < k < selectedline ==> !m.Link(k)
          decreases prevlink - m.first
        {
          prevlink := prevlink - 1;
        }
        assert m.Link(prevlink) && prevlink == m.Previous(selectedline);
        if prevlink >= screenlineoffset {
          selectedline := prevlink;
        } else {
          if screenlineoffset > 0 { screenlineoffset := screenlineoffset - 1; }
          if prevlink >= screenlineoffset { selectedline := prevlink; }
        }
      } else {
        if screenlineoffset > 0 { screenlineoffset := screenlineoffset - 1; }
      }
    }

    method GoDown()
      requires Valid()
      modifies this
      ensures At() == Press(m, old(At()), Down)
    {
      if selectedline > screenlineoffset + m.rows - 3 {
        screenlineoffset := screenlineoffset + 1;
        return;
      }
      if selectedline < m.last {
        var nextlink := selectedline + 1;
        while !Selectable(m.items[nextlink])
          invariant selectedline < nextlink <= m.last
          invariant forall k :: selectedline < k < nextlink ==> !m.Link(k)
          decreases m.last - nextlink
        {
          nextlink := nextlink + 1;
        }
        assert m.Link(nextlink) && nextlink == m.Next(selectedline);
        if screenlineoffset <= nextlink <= screenlineoffset + (m.rows - 3) {
          selectedline := nextlink;
        } else {
          if screenlineoffset < |m.items| - (m.rows - 3) { screenlineoffset := screenlineoffset + 1; }
          if screenlineoffset <= nextlink <= screenlineoffset + (m.rows - 3) { selectedline := nextlink; }
        }
      } else {
        if screenlineoffset < |m.items| - (m.rows - 3) { screenlineoffset := screenlineoffset + 1; }
      }
    }

    method GoPageUp()
      requires Valid()
      modifies this
      ensures At() == Press(m, old(At()), PageUp)
    {
      if screenlineoffset >= m.rows - 2 {
        screenlineoffset := screenlineoffset - (m.rows - 2);
      } else {
        screenlineoffset := 0;
      }
      if selectedline >= screenlineoffset + m.rows - 2 {
        ghost var none := selectedline;
        var i := screenlineoffset;
        while i < screenlineoffset + m.rows - 2 && i < |m.items|
          invariant screenlineoffset <= i <= screenlineoffset + m.rows - 2
          invariant screenlineoffset == Press(m, old(At()), PageUp).offset
          invariant selectedline == LastLink(m, screenlineoffset, i, none)
        {
          if Selectable(m.items[i]) { selectedline := i; }
          i := i + 1;
        }
        LastLinkBeyond(m, screenlineoffset, i, screenlineoffset + m.rows - 2, none);
      }
    }

    method GoPageDown()
      requires Valid()
      modifies this
      ensures At() == Press(m, old(At()), PageDown)
    {
      if screenlineoffset < |m.items| - (m.rows - 2) {
        screenlineoffset := screenlineoffset + m.rows - 2;
      }
      if selectedline < screenlineoffset {
        var i := screenlineoffset;
        while i < screenlineoffset + m.rows - 2 && i < |m.items|
          invariant screenlineoffset <= i <= screenlineoffset + m.rows - 2
          invariant FirstLink(m, screenlineoffset, screenlineoffset + m.rows - 2, selectedline)
                 == FirstLink(m, i, screenlineoffset + m.rows - 2, selectedline)
        {
          if Selectable(m.items[i]) {
            selectedline := i;
            return;
          }
          i := i + 1;
        }
        FirstLinkBeyond(m, i, screenlineoffset + m.rows - 2, selectedline);
      }
    }
  }

  // Rows past the end of the menu hold no link.
  lemma {:induction false} LastLinkBeyond(m: Menu, lo: int, i: int, hi: int, none: int)
    requires i <= hi && (i == hi || i >= |m.items|)
    ensures LastLink(m, lo, hi, none) == LastLink(m, lo, i, none)
    decreases hi - i
  {
    if i < hi && lo < hi { LastLinkBeyond(m, lo, i, hi - 1, none); }
  }

  lemma {:induction false} FirstLinkBeyond(m: Menu, i: int, hi: int, none: int)
    requires i >= |m.items| || i >= hi
    ensures FirstLink(m, i, hi, none) == none
    decreases hi - i
  {
    if i < hi { FirstLinkBeyond(m, i + 1, hi, none); }
  }
}
