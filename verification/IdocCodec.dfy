/** The embedded-document codec: the packer of idoc/idocgen.c, which replaces four-byte grams
    of a static dictionary by one-byte codes, and the bounded unpacker of startpg.c. */
module IdocCodec {

  import opened CStrings

  // The flat gram table: at most 128 entries of four bytes each.
  predicate GramTable(dict: seq<Byte>) {
    |dict| % 4 == 0 && |dict| <= 512
  }

  predicate SevenBit(text: seq<Byte>) {
    forall k :: 0 <= k < |text| ==> text[k] < 128
  }

  // A code is a literal byte below 128, or 128 plus the number of a dictionary entry.
  predicate IsCode(dict: seq<Byte>, code: Byte) {
    code < 128 || 4 * (code - 128) + 4 <= |dict|
  }

  predicate Decodable(dict: seq<Byte>, codes: seq<Byte>) {
    forall k :: 0 <= k < |codes| ==> IsCode(dict, codes[k])
  }

  function ExpandCode(dict: seq<Byte>, code: Byte): seq<Byte>
    requires IsCode(dict, code)
  {
    if code < 128 then [code] else dict[4 * (code - 128)..4 * (code - 128) + 4]
  }

  function Expand(dict: seq<Byte>, codes: seq<Byte>): seq<Byte>
    requires Decodable(dict, codes)
  {
    if codes == [] then [] else ExpandCode(dict, codes[0]) + Expand(dict, codes[1..])
  }

  lemma {:induction false} ExpandConcat(dict: seq<Byte>, a: seq<Byte>, b: seq<Byte>)
    requires Decodable(dict, a) && Decodable(dict, b)
    ensures Decodable(dict, a + b)
    ensures Expand(dict, a + b) == Expand(dict, a) + Expand(dict, b)
  {
    if a == [] {
      assert a + b == b;
    } else {
      ExpandConcat(dict, a[1..], b);
      assert (a + b)[1..] == a[1..] + b;
    }
  }

  /* ---------- packing ---------- */

  // Entry k of the table is what the text starts with. The bytes of the text are compared as
  // signed characters, so that one from 128 on equals none of the table.
  predicate StartsWithGram(dict: seq<Byte>, text: seq<Byte>, k: nat)
    requires GramTable(dict)
  {
    |text| >= 4 && 4 * k + 4 <= |dict| && dict[4 * k..4 * k + 4] == text[..4] && SevenBit(text[..4])
  }

  ghost predicate NoGram(dict: seq<Byte>, text: seq<Byte>)
    requires GramTable(dict)
  {
    forall k: nat :: !StartsWithGram(dict, text, k)
  }

  // The first code the packer emits for a non-empty text.
  ghost predicate FirstCode(dict: seq<Byte>, text: seq<Byte>, code: Byte)
    requires GramTable(dict) && |text| > 0
  {
    if code < 128 then
      code == text[0] && NoGram(dict, text)
    else
      StartsWithGram(dict, text, code - 128) &&
      forall j: nat :: j < code - 128 ==> !StartsWithGram(dict, text, j)
  }

  function CodeLength(code: Byte): (n: nat) {
    if code < 128 then 1 else 4
  }

  // codes is the greedy parse of text: at every point a gram when one matches, the
  // lowest-numbered one, and a literal otherwise.
  ghost predicate GreedyParse(dict: seq<Byte>, text: seq<Byte>, codes: seq<Byte>)
    requires GramTable(dict)
    decreases |text|
  {
    if text == [] then codes == []
    else
      codes != [] && FirstCode(dict, text, codes[0]) &&
      GreedyParse(dict, text[CodeLength(codes[0])..], codes[1..])
  }

  lemma MatchIsSigned(dict: seq<Byte>, text: seq<Byte>, k: nat)
    requires GramTable(dict) && |text| >= 4 && 4 * k + 4 <= |dict|
    ensures StartsWithGram(dict, text, k) <==>
            dict[4 * k] == Signed(text[0]) && dict[4 * k + 1] == Signed(text[1]) &&
            dict[4 * k + 2] == Signed(text[2]) && dict[4 * k + 3] == Signed(text[3])
  {
    var d, t := dict[4 * k..4 * k + 4], text[..4];
    assert d[0] == dict[4 * k] && d[1] == dict[4 * k + 1] && d[2] == dict[4 * k + 2] && d[3] == dict[4 * k + 3];
    assert t[0] == text[0] && t[1] == text[1] && t[2] == text[2] && t[3] == text[3];
    if StartsWithGram(dict, text, k) {
      assert d == t;
    } else if d[0] == Signed(t[0]) && d[1] == Signed(t[1]) && d[2] == Signed(t[2]) && d[3] == Signed(t[3]) {
      assert forall j :: 0 <= j < 4 ==> d[j] == t[j];
      assert d == t;
    }
  }

  // Entry k of the table, byte by byte; no byte of it is above 127.
  predicate EntryIs(dict: seq<Byte>, k: nat, a: Byte, b: Byte, c: Byte, d: Byte) {
    4 * k + 4 <= |dict| && dict[4 * k] == a < 128 && dict[4 * k + 1] == b < 128 &&
    dict[4 * k + 2] == c < 128 && dict[4 * k + 3] == d < 128
  }

  lemma MatchIsEntry(dict: seq<Byte>, text: seq<Byte>, k: nat)
    requires GramTable(dict)
    ensures StartsWithGram(dict, text, k) <==> |text| >= 4 && EntryIs(dict, k, text[0], text[1], text[2], text[3])
  {
    if |text| >= 4 && 4 * k + 4 <= |dict| {
      MatchIsSigned(dict, text, k);
      assert SevenBit(text[..4]) <==> text[0] < 128 && text[1] < 128 && text[2] < 128 && text[3] < 128;
    }
  }

  /** The first code of a greedy parse: the next byte if fewer than four bytes are left or no entry of the
      table equals the next four, and otherwise 128 plus the number of the first entry that does. */
  lemma GreedyCodeIs(dict: seq<Byte>, text: seq<Byte>, codes: seq<Byte>)
    requires GramTable(dict) && text != [] && GreedyParse(dict, text, codes)
    ensures codes != []
    ensures codes[0] < 128 ==>
              codes[0] == text[0] &&
              (|text| < 4 || forall k: nat :: !EntryIs(dict, k, text[0], text[1], text[2], text[3]))
    ensures codes[0] >= 128 ==>
              |text| >= 4 && EntryIs(dict, codes[0] - 128, text[0], text[1], text[2], text[3]) &&
              forall k: nat :: k < codes[0] - 128 ==> !EntryIs(dict, k, text[0], text[1], text[2], text[3])
  {
    forall k: nat
      ensures StartsWithGram(dict, text, k) <==>
              |text| >= 4 && EntryIs(dict, k, text[0], text[1], text[2], text[3])
    {
      MatchIsEntry(dict, text, k);
    }
  }

  /** gramlookup: the code of the lowest-numbered gram that equals the next four bytes, or -1. */
  method GramLookup(dict: seq<Byte>, text: seq<Byte>) returns (code: int)
    requires GramTable(dict) && |text| >= 4
    ensures code == -1 || 128 <= code < 256
    ensures code == -1 ==> NoGram(dict, text)
    ensures code >= 128 ==> FirstCode(dict, text, code)
  {
    var i := 0;
    while i < |dict|
      invariant 0 <= i <= |dict| && i % 4 == 0
      invariant forall j: nat :: 4 * j < i ==> !StartsWithGram(dict, text, j)
    {
      MatchIsSigned(dict, text, i / 4);
      if dict[i] == Signed(text[0]) && dict[i + 1] == Signed(text[1]) &&
         dict[i + 2] == Signed(text[2]) && dict[i + 3] == Signed(text[3])
      {
        return 128 + i / 4;
      }
      i := i + 4;
    }
    return -1;
  }

  // The codes so far, followed by a greedy parse of the text from i on, are one of the whole text.
  ghost predicate ParsedTo(dict: seq<Byte>, text: seq<Byte>, codes: seq<Byte>, i: nat)
    requires GramTable(dict) && i <= |text|
  {
    forall rest :: GreedyParse(dict, text[i..], rest) ==> GreedyParse(dict, text, codes + rest)
  }

  lemma ParsedStep(dict: seq<Byte>, text: seq<Byte>, codes: seq<Byte>, i: nat, code: Byte)
    requires GramTable(dict) && i < |text| && ParsedTo(dict, text, codes, i)
    requires FirstCode(dict, text[i..], code)
    ensures i + CodeLength(code) <= |text| && ParsedTo(dict, text, codes + [code], i + CodeLength(code))
  {
    var next := i + CodeLength(code);
    forall rest | GreedyParse(dict, text[next..], rest)
      ensures GreedyParse(dict, text, codes + [code] + rest)
    {
      assert ([code] + rest)[0] == code && ([code] + rest)[1..] == rest;
      assert text[i..][CodeLength(code)..] == text[next..];
      assert GreedyParse(dict, text[i..], [code] + rest);
      assert codes + [code] + rest == codes + ([code] + rest);
    }
  }

  /** processfile: the codes printed for a text, as a sequence. */
  method Pack(dict: seq<Byte>, text: seq<Byte>) returns (codes: seq<Byte>)
    requires GramTable(dict)
    requires SevenBit(text) && |text| < 0x1_0000
    ensures GreedyParse(dict, text, codes)
    ensures Decodable(dict, codes) && Expand(dict, codes) == text
    ensures Shortest(dict, text, codes)
  {
    codes := [];
    var i := 0;
    assert text[0..] == text && forall rest: seq<Byte> :: [] + rest == rest;
    while i < |text|
      invariant 0 <= i <= |text| && ParsedTo(dict, text, codes, i)
    {
      var c: int := text[i];
      var start := i;
      if i + 3 < |text| {
        var g := GramLookup(dict, text[i..]);
        if g >= 0 {
          c := g;
          i := i + 3;
        }
      }
      ParsedStep(dict, text, codes, start, c);
      codes := codes + [c];
      i := i + 1;
    }
    PackIsBest(dict, text, codes);
  }

  // No code sequence for the text is shorter.
  ghost predicate Shortest(dict: seq<Byte>, text: seq<Byte>, codes: seq<Byte>) {
    forall other :: Decodable(dict, other) && Expand(dict, other) == text ==> |codes| <= |other|
  }

  lemma {:induction false} PackIsBest(dict: seq<Byte>, text: seq<Byte>, codes: seq<Byte>)
    requires GramTable(dict) && SevenBit(text) && ParsedTo(dict, text, codes, |text|)
    ensures GreedyParse(dict, text, codes)
    ensures Decodable(dict, codes) && Expand(dict, codes) == text
    ensures Shortest(dict, text, codes)
  {
    assert GreedyParse(dict, text[|text|..], []);
    assert codes + [] == codes;
    GreedyExpands(dict, text, codes);
    forall other | Decodable(dict, other) && Expand(dict, other) == text
      ensures |codes| <= |other|
    {
      GreedyIsOptimal(dict, text, codes, other);
    }
  }

  /** Packing loses nothing: a greedy parse expands to the text it was made from. */
  lemma {:induction false} GreedyExpands(dict: seq<Byte>, text: seq<Byte>, codes: seq<Byte>)
    requires GramTable(dict) && SevenBit(text) && GreedyParse(dict, text, codes)
    ensures Decodable(dict, codes) && Expand(dict, codes) == text
    decreases |text|
  {
    if text != [] {
      var n := CodeLength(codes[0]);
      GreedyExpands(dict, text[n..], codes[1..]);
      assert ExpandCode(dict, codes[0]) == text[..n];
      assert text == text[..n] + text[n..];
    }
  }

  function Grams(codes: seq<Byte>): nat {
    if codes == [] then 0 else (if codes[0] < 128 then 0 else 1) + Grams(codes[1..])
  }

  lemma {:induction false} LengthByGrams(dict: seq<Byte>, codes: seq<Byte>)
    requires Decodable(dict, codes)
    ensures |Expand(dict, codes)| == |codes| + 3 * Grams(codes)
  {
    if codes != [] {
      LengthByGrams(dict, codes[1..]);
    }
  }

  // The first code of a parse, and the parse of the rest.
  lemma ParseTail(dict: seq<Byte>, text: seq<Byte>, j: nat, other: seq<Byte>)
    requires GramTable(dict) && SevenBit(text) && j <= |text|
    requires Decodable(dict, other) && other != [] && Expand(dict, other) == text[j..]
    ensures var m := CodeLength(other[0]);
            j + m <= |text| && Expand(dict, other[1..]) == text[j + m..] &&
            (m == 4 ==> StartsWithGram(dict, text[j..], other[0] - 128))
  {
    var m := CodeLength(other[0]);
    var e := Expand(dict, other[1..]);
    assert text[j..] == ExpandCode(dict, other[0]) + e;
    assert text[j..][..m] == ExpandCode(dict, other[0]);
    assert text[j + m..] == text[j..][m..] == e;
  }

  // Stays ahead: started no later than any other parse, the greedy one uses at least as many grams.
  lemma {:induction false} GreedyStaysAhead(dict: seq<Byte>, text: seq<Byte>, i: nat, greedy: seq<Byte>, j: nat,
                                            other: seq<Byte>)
    requires GramTable(dict) && SevenBit(text)
    requires i <= j <= |text|
    requires GreedyParse(dict, text[i..], greedy)
    requires Decodable(dict, other) && Expand(dict, other) == text[j..]
    ensures Grams(other) <= Grams(greedy)
    decreases |text| - i, |text| - j
  {
    if other != [] && greedy != [] {
      var m := CodeLength(other[0]);
      var n := CodeLength(greedy[0]);
      ParseTail(dict, text, j, other);
      assert text[i..][n..] == text[i + n..];
      if i + n <= j {
        GreedyStaysAhead(dict, text, i + n, greedy[1..], j, other);
      } else if m == 1 && n == 4 {
        GreedyStaysAhead(dict, text, i, greedy, j + 1, other[1..]);
      } else {
        assert m == 4 ==> StartsWithGram(dict, text[j..], other[0] - 128);
        GreedyStaysAhead(dict, text, i + n, greedy[1..], j + m, other[1..]);
      }
    }
  }

  /** No code sequence for the text is shorter than the greedy one. */
  lemma {:induction false} GreedyIsOptimal(dict: seq<Byte>, text: seq<Byte>, codes: seq<Byte>, other: seq<Byte>)
    requires GramTable(dict) && SevenBit(text) && GreedyParse(dict, text, codes)
    requires Decodable(dict, other) && Expand(dict, other) == text
    ensures |codes| <= |other|
  {
    GreedyExpands(dict, text, codes);
    assert text[0..] == text;
    GreedyStaysAhead(dict, text, 0, codes, 0, other);
    LengthByGrams(dict, codes);
    LengthByGrams(dict, other);
  }

  /* ---------- unpacking ---------- */

  // The first k codes all pass the unpacker's room checks: after a literal one cell must be
  // left for the terminator, after a gram two.
  ghost predicate Room(dict: seq<Byte>, codes: seq<Byte>, k: nat, bufsz: nat)
    requires Decodable(dict, codes) && k <= |codes|
  {
    k == 0 || |Expand(dict, codes[..k])| + (if codes[k - 1] < 128 then 1 else 2) <= bufsz
  }

  // The unpacker stops after k codes: the longest run of codes there is room for.
  ghost predicate IsCut(dict: seq<Byte>, codes: seq<Byte>, k: nat, bufsz: nat)
    requires Decodable(dict, codes)
  {
    k <= |codes| && Room(dict, codes, k, bufsz) &&
    forall j :: k < j <= |codes| ==> !Room(dict, codes, j, bufsz)
  }

  lemma ExpandNext(dict: seq<Byte>, codes: seq<Byte>, k: nat)
    requires Decodable(dict, codes) && k < |codes|
    ensures Expand(dict, codes[..k + 1]) == Expand(dict, codes[..k]) + ExpandCode(dict, codes[k])
  {
    assert codes[..k + 1] == codes[..k] + [codes[k]];
    assert [codes[k]][1..] == [];
    ExpandConcat(dict, codes[..k], [codes[k]]);
  }

  // Room runs out for good.
  lemma {:induction false} RoomIsMonotone(dict: seq<Byte>, codes: seq<Byte>, j: nat, k: nat, bufsz: nat)
    requires Decodable(dict, codes) && j <= k <= |codes|
    requires Room(dict, codes, k, bufsz)
    ensures Room(dict, codes, j, bufsz)
    decreases k
  {
    if j < k {
      if k > 1 {
        ExpandNext(dict, codes, k - 1);
        RoomIsMonotone(dict, codes, j, k - 1, bufsz);
      }
    }
  }

  lemma CutBefore(dict: seq<Byte>, codes: seq<Byte>, k: nat, bufsz: nat)
    requires Decodable(dict, codes) && k <= |codes|
    requires Room(dict, codes, k, bufsz) && (k < |codes| ==> !Room(dict, codes, k + 1, bufsz))
    ensures IsCut(dict, codes, k, bufsz)
  {
    forall j | k < j <= |codes|
      ensures !Room(dict, codes, j, bufsz)
    {
      if Room(dict, codes, j, bufsz) {
        RoomIsMonotone(dict, codes, k + 1, j, bufsz);
      }
    }
  }

  // Stopping in front of a gram that does not fit, or at the end.
  lemma CutAtGram(dict: seq<Byte>, codes: seq<Byte>, k: nat, bufsz: nat)
    requires Decodable(dict, codes) && k <= |codes|
    requires k > 0 ==> |Expand(dict, codes[..k])| + 2 <= bufsz
    requires k < |codes| ==> codes[k] >= 128 && |Expand(dict, codes[..k])| + 5 >= bufsz
    ensures IsCut(dict, codes, k, bufsz)
  {
    if k < |codes| {
      ExpandNext(dict, codes, k);
    }
    CutBefore(dict, codes, k, bufsz);
  }

  // Stopping behind the literal that takes the last cell but one.
  lemma CutAtLiteral(dict: seq<Byte>, codes: seq<Byte>, k: nat, bufsz: nat)
    requires Decodable(dict, codes) && 0 < k <= |codes|
    requires codes[k - 1] < 128 && |Expand(dict, codes[..k])| + 1 == bufsz
    ensures IsCut(dict, codes, k, bufsz)
  {
    if k < |codes| {
      ExpandNext(dict, codes, k);
    }
    CutBefore(dict, codes, k, bufsz);
  }

  /** idoc_unpack: expands codes into buf as far as they fit and terminates the result. The
      precondition is what keeps the source inside the buffer. */
  method Unpack(dict: seq<Byte>, codes: seq<Byte>, buf: array<Byte>) returns (y: nat, ghost k: nat)
    requires GramTable(dict) && Decodable(dict, codes)
    requires buf.Length >= 1 && (buf.Length >= 2 || codes == [] || codes[0] >= 128)
    modifies buf
    ensures IsCut(dict, codes, k, buf.Length)
    ensures y < buf.Length && buf[..y] == Expand(dict, codes[..k]) && buf[y] == 0
    ensures forall m :: y < m < buf.Length ==> buf[m] == old(buf[m])
  {
    y := 0;
    k := 0;
    var i := 0;
    while i < |codes|
      invariant 0 <= i <= |codes|
      invariant y < buf.Length && (i > 0 ==> y + 1 < buf.Length)
      invariant buf[..y] == Expand(dict, codes[..i])
      invariant forall m :: y <= m < buf.Length ==> buf[m] == old(buf[m])
    {
      ExpandNext(dict, codes, i);
      if codes[i] < 128 {
        buf[y] := codes[i];
        y := y + 1;
        if y + 1 >= buf.Length {
          i := i + 1;
          CutAtLiteral(dict, codes, i, buf.Length);
          break;
        }
      } else {
        if y + 5 >= buf.Length {
          CutAtGram(dict, codes, i, buf.Length);
          break;
        }
        y := CopyGram(dict, codes[i], buf, y);
      }
      i := i + 1;
    }
    if i == |codes| && y + 1 < buf.Length {
      CutAtGram(dict, codes, i, buf.Length);
    }
    k := i;
    buf[y] := 0;
  }

  /** The four gram stores of idoc_unpack. */
  method CopyGram(dict: seq<Byte>, code: Byte, buf: array<Byte>, y: nat) returns (end: nat)
    requires IsCode(dict, code) && code >= 128 && y + 4 <= buf.Length
    modifies buf
    ensures end == y + 4 && buf[..end] == old(buf[..y]) + ExpandCode(dict, code)
    ensures forall m :: end <= m < buf.Length ==> buf[m] == old(buf[m])
  {
    var g: int := 4 * (code as int - 128);
    buf[y] := dict[g];
    buf[y + 1] := dict[g + 1];
    buf[y + 2] := dict[g + 2];
    buf[y + 3] := dict[g + 3];
    end := y + 4;
  }

  /** Truncation is exact: the output is the expansion cut to a prefix; nothing is cut iff the
      buffer has two spare cells, or one when the last code is a literal; and a cut output still
      fills the buffer up to its last five cells. */
  lemma CutIsExact(dict: seq<Byte>, codes: seq<Byte>, k: nat, bufsz: nat)
    requires GramTable(dict) && Decodable(dict, codes) && IsCut(dict, codes, k, bufsz)
    ensures Expand(dict, codes[..k]) <= Expand(dict, codes)
    ensures k == |codes| <==>
            codes == [] ||
            |Expand(dict, codes)| + (if codes[|codes| - 1] < 128 then 1 else 2) <= bufsz
    ensures k < |codes| ==> |Expand(dict, codes[..k])| + 5 >= bufsz
    ensures forall j: nat :: IsCut(dict, codes, j, bufsz) ==> j == k
  {
    assert codes[..|codes|] == codes;
    assert codes == codes[..k] + codes[k..];
    ExpandConcat(dict, codes[..k], codes[k..]);
    if k < |codes| {
      ExpandNext(dict, codes, k);
      assert !Room(dict, codes, k + 1, bufsz);
      assert !Room(dict, codes, |codes|, bufsz);
    }
  }

  /** Round trip: with two spare cells the unpacker returns exactly the packed text; the bound is
      tight, since one spare cell is enough only when the packed text ends in a literal. */
  lemma {:induction false} RoundTrip(dict: seq<Byte>, text: seq<Byte>, codes: seq<Byte>, k: nat, bufsz: nat)
    requires GramTable(dict) && SevenBit(text) && GreedyParse(dict, text, codes)
    requires Decodable(dict, codes) && IsCut(dict, codes, k, bufsz)
    ensures Expand(dict, codes[..k]) <= text
    ensures bufsz >= |text| + 2 ==> Expand(dict, codes[..k]) == text
    ensures bufsz == |text| + 1 && text != [] ==>
            (Expand(dict, codes[..k]) == text <==> codes[|codes| - 1] < 128)
  {
    GreedyExpands(dict, text, codes);
    CutIsExact(dict, codes, k, bufsz);
    if k < |codes| {
      CutLosesBytes(dict, codes, k);
    } else {
      assert codes[..k] == codes;
    }
  }

  lemma CutLosesBytes(dict: seq<Byte>, codes: seq<Byte>, k: nat)
    requires GramTable(dict) && Decodable(dict, codes) && k < |codes|
    ensures |Expand(dict, codes[..k])| < |Expand(dict, codes)|
  {
    assert codes == codes[..k] + codes[k..];
    ExpandConcat(dict, codes[..k], codes[k..]);
  }
}
