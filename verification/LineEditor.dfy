/** editstring of gopherus.c: editing a string in place in a fixed buffer. */
module LineEditor {
  import opened CStrings

  // The abstract editor: a text and a cursor in it.
  datatype Edit = Edit(text: string, cursor: int)

  ghost predicate Inv(e: Edit, maxlen: int) {
    NUL !in e.text && 0 <= e.cursor <= |e.text| <= maxlen - 1
  }

  predicate Printable(key: int) {
    0x1F < key < 127
  }

  function Insert(e: Edit, c: char, maxlen: int): Edit
    requires 0 <= e.cursor <= |e.text|
  {
    if |e.text| < maxlen - 1 then Edit(e.text[..e.cursor] + [c] + e.text[e.cursor..], e.cursor + 1) else e
  }

  function Backspace(e: Edit): Edit
    requires 0 <= e.cursor <= |e.text|
  {
    if e.cursor > 0 then Edit(e.text[..e.cursor - 1] + e.text[e.cursor..], e.cursor - 1) else e
  }

  function Delete(e: Edit): Edit
    requires 0 <= e.cursor <= |e.text|
  {
    if e.cursor < |e.text| then Edit(e.text[..e.cursor] + e.text[e.cursor + 1..], e.cursor) else e
  }

  // One key press that does not end the editing.
  function Press(e: Edit, key: int, maxlen: int): Edit
    requires 0 <= e.cursor <= |e.text|
  {
    if key == 0x147 then e.(cursor := 0)
    else if key == 0x14F then e.(cursor := |e.text|)
    else if key == 0x14B then e.(cursor := if e.cursor > 0 then e.cursor - 1 else 0)
    else if key == 0x14D then e.(cursor := if e.cursor < |e.text| then e.cursor + 1 else e.cursor)
    else if key == 0x08 then Backspace(e)
    else if key == 0x153 then Delete(e)
    else if Printable(key) then Insert(e, key as char, maxlen)
    else e
  }

  // ESC, TAB and ENTER end the editing.
  predicate Ends(key: int) {
    key == 0x1B || key == 0x09 || key == 0x0D
  }

  lemma PressKeeps(e: Edit, key: int, maxlen: int)
    requires Inv(e, maxlen)
    ensures Inv(Press(e, key, maxlen), maxlen)
  {
  }

  /** The keys that move the cursor: HOME, END, LEFT and RIGHT, inside the text. */
  lemma CursorKeys(e: Edit, maxlen: int)
    requires Inv(e, maxlen)
    ensures Press(e, 0x147, maxlen) == Edit(e.text, 0) && Press(e, 0x14F, maxlen) == Edit(e.text, |e.text|)
    ensures Press(e, 0x14B, maxlen) == if e.cursor == 0 then e else Edit(e.text, e.cursor - 1)
    ensures Press(e, 0x14D, maxlen) == if e.cursor == |e.text| then e else Edit(e.text, e.cursor + 1)
  {
  }

  /** The keys that change the text, for a text in two parts with the cursor between them: a printable
      character goes there if there is room, backspace takes the last character of the first part, delete
      the first of the second; other keys change nothing. */
  lemma TextKeys(front: string, back: string, key: int, maxlen: int)
    requires Inv(Edit(front + back, |front|), maxlen)
    ensures var e := Edit(front + back, |front|);
            (0x20 <= key <= 0x7E ==>
               Press(e, key, maxlen) ==
               if |front| + |back| < maxlen - 1 then Edit(front + ([key as char] + back), |front| + 1) else e) &&
            Press(e, 8, maxlen) == (if front == "" then e else Edit(front[..|front| - 1] + back, |front| - 1)) &&
            Press(e, 0x153, maxlen) == (if back == "" then e else Edit(front + back[1..], |front|)) &&
            (!(0x20 <= key <= 0x7E) && key !in {8, 0x147, 0x14B, 0x14D, 0x14F, 0x153} ==> Press(e, key, maxlen) == e)
    ensures Ends(key) <==> key == 27 || key == 9 || key == 13
  {
    var text := front + back;
    assert text[..|front|] == front && text[|front|..] == back;
    assert front != "" ==> text[..|front| - 1] == front[..|front| - 1];
    assert back != "" ==> text[|front| + 1..] == back[1..];
    assert 0x20 <= key <= 0x7E ==> (front + [key as char]) + back == front + ([key as char] + back);
  }

  // All the keys up to the one that ends the editing.
  function Session(e: Edit, keys: seq<int>, maxlen: int): (r: Edit)
    requires Inv(e, maxlen)
    ensures Inv(r, maxlen)
    decreases |keys|
  {
    if keys == [] || Ends(keys[0]) then e else
      PressKeeps(e, keys[0], maxlen);
      Session(Press(e, keys[0], maxlen), keys[1..], maxlen)
  }

  predicate NoneEnds(keys: seq<int>) {
    forall k :: 0 <= k < |keys| ==> !Ends(keys[k])
  }

  lemma {:induction false} SessionNext(e: Edit, keys: seq<int>, key: int, maxlen: int)
    requires Inv(e, maxlen) && NoneEnds(keys)
    ensures Session(e, keys + [key], maxlen)
         == if Ends(key) then Session(e, keys, maxlen) else Press(Session(e, keys, maxlen), key, maxlen)
    decreases |keys|
  {
    if keys == [] {
      assert [key][1..] == [];
    } else {
      PressKeeps(e, keys[0], maxlen);
      SessionNext(Press(e, keys[0], maxlen), keys[1..], key, maxlen);
      assert (keys + [key])[1..] == keys[1..] + [key];
    }
  }

  // The keys behind the one that ends the editing do not count.
  lemma {:induction false} SessionStops(e: Edit, keys: seq<int>, i: nat, maxlen: int)
    requires Inv(e, maxlen) && i < |keys| && NoneEnds(keys[..i]) && Ends(keys[i])
    ensures Session(e, keys, maxlen) == Session(e, keys[..i], maxlen)
    decreases i
  {
    if i > 0 {
      assert keys[..i][0] == keys[0] && keys[..i][1..] == keys[1..][..i - 1];
      PressKeeps(e, keys[0], maxlen);
      SessionStops(Press(e, keys[0], maxlen), keys[1..], i - 1, maxlen);
    }
  }

  /** What one key undoes of another: a typed character is taken back by backspace, and by
      stepping left and deleting; deleting is stepping right and backspacing. */
  lemma EditLaws(e: Edit, key: int, maxlen: int)
    requires Inv(e, maxlen) && Printable(key)
    ensures |e.text| < maxlen - 1 ==> Backspace(Press(e, key, maxlen)) == e
    ensures |e.text| < maxlen - 1 ==> Delete(Press(Press(e, key, maxlen), 0x14B, maxlen)) == e
    ensures e.cursor < |e.text| ==> Backspace(Press(e, 0x14D, maxlen)) == Delete(e)
  {
    if |e.text| < maxlen - 1 {
      var i := Insert(e, key as char, maxlen);
      assert i.text[..i.cursor - 1] == e.text[..e.cursor] && i.text[i.cursor..] == e.text[e.cursor..];
      assert e.text == e.text[..e.cursor] + e.text[e.cursor..];
    }
  }

  /* ---------- the displayed part ---------- */

  // The first character shown, lines 631 to 639 of gopherus.c.
  function DisplayOffset(len: int, cursor: int, maxdisplaylen: int): int {
    var tail := if len > maxdisplaylen - 1 then len - (maxdisplaylen - 1) else 0;
    if tail > cursor - 8 then (if cursor - 8 < 0 then 0 else cursor - 8) else tail
  }

  // The column of the field the cursor is shown in.
  function Column(e: Edit, maxdisplaylen: int): int {
    e.cursor - DisplayOffset(|e.text|, e.cursor, maxdisplaylen)
  }

  /** The cursor column stays inside the field exactly for fields at least nine wide. */
  lemma ColumnInField(maxdisplaylen: int)
    requires maxdisplaylen >= 1
    ensures maxdisplaylen >= 9 <==>
            forall len, cursor :: 0 <= cursor <= len ==>
              0 <= cursor - DisplayOffset(len, cursor, maxdisplaylen) <= maxdisplaylen - 1
  {
    if maxdisplaylen < 9 {
      assert 9 - DisplayOffset(20, 9, maxdisplaylen) == 8;
    }
  }

  /** As much of the end of the text is shown as fits, if that leaves eight characters in front of the
      cursor; otherwise those, as far as there are any. */
  lemma OffsetIs(len: int, cursor: int, maxdisplaylen: int)
    ensures DisplayOffset(len, cursor, maxdisplaylen) ==
            if 0 <= len - maxdisplaylen + 1 <= cursor - 8 then len - maxdisplaylen + 1
            else if len < maxdisplaylen && 8 <= cursor then 0
            else if 8 <= cursor then cursor - 8 else 0
  {
  }

  /** The text shown starts inside the string. */
  lemma OffsetInText(len: int, cursor: int, maxdisplaylen: int)
    requires 0 <= cursor <= len && maxdisplaylen >= 1
    ensures 0 <= DisplayOffset(len, cursor, maxdisplaylen) <= cursor
  {
  }

  /* ---------- the editing loop ---------- */

  // Where the characters are once room has been made at p.
  lemma Spread(was: string, now: string, p: nat, c: char, n: nat)
    requires p <= n < |was| == |now| && now[p] == c
    requires forall k :: p < k <= n ==> now[k] == was[k - 1]
    requires forall k :: 0 <= k < p ==> now[k] == was[k]
    ensures now[..n + 1] == was[..p] + [c] + was[p..n]
  {
  }

  class Editor {
    const url: array<char>
    var urllen: int
    var cursorpos: int

    ghost function Value(): Edit
      requires 0 <= urllen <= url.Length
      reads this, url
    {
      Edit(url[..urllen], cursorpos)
    }

    ghost predicate Valid()
      reads this, url
    {
      0 <= urllen < url.Length && Inv(Value(), url.Length)
    }

    constructor (url: array<char>, urllen: nat)
      requires urllen < url.Length && NUL !in url[..urllen]
      ensures Valid() && this.url == url && Value() == Edit(url[..urllen], urllen)
    {
      this.url, this.urllen, this.cursorpos := url, urllen, urllen;
    }

    /** The shift loop of the backspace and delete keys: removes the character at p. */
    method CloseGap(p: nat)
      requires p < urllen <= url.Length
      modifies url
      ensures url[..urllen - 1] == old(url[..p] + url[p + 1..urllen])
    {
      var y := p;
      while y < urllen - 1
        invariant p <= y <= urllen - 1
        invariant forall k :: 0 <= k < y ==> url[k] == if k < p then old(url[k]) else old(url[k + 1])
        invariant forall k :: y <= k < urllen ==> url[k] == old(url[k])
      {
        url[y] := url[y + 1];
        y := y + 1;
      }
    }

    /** The shift loop of a printable key: makes room at p. */
    method OpenGap(p: nat, c: char)
      requires p <= urllen < url.Length
      modifies url
      ensures url[..urllen + 1] == old(url[..p]) + [c] + old(url[p..urllen])
    {
      ghost var was := url[..];
      var y := urllen;
      while y > p
        invariant p <= y <= urllen
        invariant forall k :: y < k <= urllen ==> url[k] == was[k - 1]
        invariant forall k :: 0 <= k < y ==> url[k] == was[k]
      {
        url[y] := url[y - 1];
        y := y - 1;
      }
      url[p] := c;
      Spread(was, url[..], p, c, urllen);
    }

    method KeyBackspace()
      requires Valid()
      modifies this, url
      ensures Valid() && Value() == Backspace(old(Value()))
    {
      if cursorpos > 0 {
        CloseGap(cursorpos - 1);
        urllen := urllen - 1;
        cursorpos := cursorpos - 1;
        assert Value().text == Backspace(old(Value())).text;
      }
    }

    method KeyDelete()
      requires Valid()
      modifies this, url
      ensures Valid() && Value() == Delete(old(Value()))
    {
      if cursorpos < urllen {
        CloseGap(cursorpos);
        urllen := urllen - 1;
        assert Value().text == Delete(old(Value())).text;
      }
    }

    method KeyInsert(c: char)
      requires Valid() && c != NUL
      modifies this, url
      ensures Valid() && Value() == Insert(old(Value()), c, url.Length)
    {
      if urllen < url.Length - 1 {
        OpenGap(cursorpos, c);
        urllen := urllen + 1;
        cursorpos := cursorpos + 1;
        assert Value().text == Insert(old(Value()), c, url.Length).text;
      }
    }

    /** The display part of the loop: where the cursor and the text are shown. */
    method Show(maxdisplaylen: int) returns (displayoffset: int, column: int)
      requires Valid() && maxdisplaylen >= 1
      ensures column == Column(Value(), maxdisplaylen) && displayoffset + column == cursorpos
      ensures 0 <= displayoffset <= urllen && 0 <= column && (maxdisplaylen >= 9 ==> column < maxdisplaylen)
    {
      OffsetInText(urllen, cursorpos, maxdisplaylen);
      if urllen > maxdisplaylen - 1 {
        displayoffset := urllen - (maxdisplaylen - 1);
      } else {
        displayoffset := 0;
      }
      if displayoffset > cursorpos - 8 {
        displayoffset := cursorpos - 8;
        if displayoffset < 0 { displayoffset := 0; }
      }
      column := cursorpos - displayoffset;
    }

    /** One key of the loop; done tells that the editing ends with the given result. */
    method Key(presskey: int) returns (done: bool, result: int)
      requires Valid()
      modifies this, url
      ensures Valid() && (done <==> Ends(presskey))
      ensures Value() == if done then old(Value()) else Press(old(Value()), presskey, url.Length)
      ensures result == if presskey == 0x0D then -1 else 0
    {
      PressKeeps(Value(), presskey, url.Length);
      done, result := false, 0;
      if presskey == 0x1B || presskey == 0x09 {
        done := true;
      } else if presskey == 0x147 {
        cursorpos := 0;
      } else if presskey == 0x14F {
        cursorpos := urllen;
      } else if presskey == 0x0D {
        done, result := true, -1;
      } else if presskey == 0x14B {
        if cursorpos > 0 { cursorpos := cursorpos - 1; }
      } else if presskey == 0x14D {
        if cursorpos < urllen { cursorpos := cursorpos + 1; }
      } else if presskey == 0x08 {
        KeyBackspace();
      } else if presskey == 0x153 {
        KeyDelete();
      } else if presskey > 0x1F && presskey < 127 {
        KeyInsert(presskey as char);
      }
    }
  }

  // The state in front of each key, and the columns shown for it.
  ghost predicate Traced(start: Edit, keys: seq<int>, n: nat, maxlen: int, maxdisplaylen: int, columns: seq<int>)
    requires Inv(start, maxlen) && n <= |keys|
  {
    |columns| == n && forall k :: 0 <= k < n ==> columns[k] == Column(Session(start, keys[..k], maxlen), maxdisplaylen)
  }

  // The i-th key ends the editing, and none before it.
  predicate EndsAt(keys: seq<int>, i: nat) {
    i < |keys| && Ends(keys[i]) && forall k :: 0 <= k < i ==> !Ends(keys[k])
  }

  // ENTER ends the editing.
  ghost predicate EndsInEnter(keys: seq<int>) {
    exists k: nat :: EndsAt(keys, k) && keys[k] == 0x0D
  }

  /** The result does not tell whether the string has changed: ENTER alone leaves every string as it
      is, with a result other than 0, and backspace followed by ESC changes any string with the
      cursor behind its start, with the result 0. */
  lemma ResultIsNotChange(e: Edit, maxlen: int)
    requires Inv(e, maxlen)
    ensures EndsInEnter([0x0D]) && Session(e, [0x0D], maxlen) == e
    ensures !EndsInEnter([0x08, 0x1B])
    ensures e.cursor > 0 ==> |Session(e, [0x08, 0x1B], maxlen).text| == |e.text| - 1
  {
    assert EndsAt([0x0D], 0);
    assert [0x08, 0x1B][1..] == [0x1B];
    PressKeeps(e, 0x08, maxlen);
  }

  ghost predicate InField(columns: seq<int>, maxdisplaylen: int) {
    forall k :: 0 <= k < |columns| ==> 0 <= columns[k] < maxdisplaylen
  }

  // The loop after i keys: the state, the columns so far, and whether and how the editing has ended.
  ghost predicate Edited(start: Edit, keys: seq<int>, i: nat, maxlen: int, maxdisplaylen: int,
                         e: Edit, columns: seq<int>, done: bool, result: int)
  {
    Inv(start, maxlen) && i <= |keys| && e == Session(start, keys[..i], maxlen) &&
    Traced(start, keys, i, maxlen, maxdisplaylen, columns) &&
    (maxdisplaylen >= 9 ==> InField(columns, maxdisplaylen)) &&
    if done then i > 0 && EndsAt(keys, i - 1) && result == (if keys[i - 1] == 0x0D then -1 else 0)
    else NoneEnds(keys[..i]) && result == 0
  }

  lemma EditedStep(start: Edit, keys: seq<int>, i: nat, maxlen: int, maxdisplaylen: int, e: Edit, columns: seq<int>,
                   column: int)
    requires i < |keys| && Edited(start, keys, i, maxlen, maxdisplaylen, e, columns, false, 0)
    requires column == Column(e, maxdisplaylen) && 0 <= column && (maxdisplaylen >= 9 ==> column < maxdisplaylen)
    ensures var done := Ends(keys[i]);
            0 <= e.cursor <= |e.text| &&
            Edited(start, keys, i + 1, maxlen, maxdisplaylen, if done then e else Press(e, keys[i], maxlen),
                   columns + [column], done, if keys[i] == 0x0D then -1 else 0)
  {
    SessionNext(start, keys[..i], keys[i], maxlen);
    assert keys[..i + 1] == keys[..i] + [keys[i]];
  }

  // The loop has ended.
  lemma EditedWhole(start: Edit, keys: seq<int>, i: nat, maxlen: int, maxdisplaylen: int, e: Edit, columns: seq<int>,
                    done: bool, result: int)
    requires Edited(start, keys, i, maxlen, maxdisplaylen, e, columns, done, result) && (i == |keys| || done)
    ensures e == Session(start, keys, maxlen) && (result == -1 || result == 0)
    ensures result == -1 <==> EndsInEnter(keys)
  {
    SessionFinishes(start, keys, i, done, maxlen);
    if done {
      assert forall k: nat :: EndsAt(keys, k) ==> k == i - 1;
    } else {
      assert forall k :: 0 <= k < |keys| ==> keys[k] == keys[..i][k];
    }
  }

  /** editstring: edits the string in url with the keys that come in, up to the one that ends the
      editing, and shows the cursor in some column in front of each. The result is non-zero when
      ENTER ended it; it is 0 when it was given up, or the keys ran out. */
  method EditString(url: array<char>, keys: seq<int>, maxdisplaylen: int) returns (result: int, columns: seq<int>)
    requires NUL in url[..] && maxdisplaylen >= 1
    modifies url
    ensures Content(url[..]) == Session(Edit(old(Content(url[..])), |old(Content(url[..]))|), keys, url.Length).text
    ensures result == -1 <==> EndsInEnter(keys)
    ensures result == -1 || result == 0
    ensures (result != 0 <==> Content(url[..]) != old(Content(url[..]))) <==>
            (EndsInEnter(keys) <==> Content(url[..]) != old(Content(url[..])))
    ensures |columns| <= |keys| &&
            Traced(Edit(old(Content(url[..])), |old(Content(url[..]))|), keys, |columns|, url.Length,
                   maxdisplaylen, columns)
    ensures maxdisplaylen >= 9 ==> InField(columns, maxdisplaylen)
  {
    var ed := new Editor(url, |Content(url[..])|);
    ghost var start := ed.Value();
    var i, done := 0, false;
    result, columns := 0, [];
    while i < |keys| && !done
      invariant 0 <= i <= |keys| && ed.Valid() && fresh(ed) && ed.url == url
      invariant Edited(start, keys, i, url.Length, maxdisplaylen, ed.Value(), columns, done, result)
    {
      var displayoffset, column := ed.Show(maxdisplaylen);
      EditedStep(start, keys, i, url.Length, maxdisplaylen, ed.Value(), columns, column);
      columns := columns + [column];
      done, result := ed.Key(keys[i]);
      i := i + 1;
    }
    EditedWhole(start, keys, i, url.Length, maxdisplaylen, ed.Value(), columns, done, result);
    url[ed.urllen] := NUL;
  }

  lemma SessionFinishes(e: Edit, keys: seq<int>, i: nat, done: bool, maxlen: int)
    requires Inv(e, maxlen) && i <= |keys|
    requires if done then i > 0 && EndsAt(keys, i - 1) else i == |keys| && NoneEnds(keys[..i])
    ensures Session(e, keys, maxlen) == Session(e, keys[..i], maxlen)
  {
    if done {
      SessionStops(e, keys, i - 1, maxlen);
      SessionStops(e, keys[..i], i - 1, maxlen);
      assert keys[..i][..i - 1] == keys[..i - 1];
    } else {
      assert keys[..i] == keys;
    }
  }
}
