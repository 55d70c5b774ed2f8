/** utf8toint and drawstr of gopherus.c: the incremental UTF-8 decoder with its static state, and
    the function every cell of the screen is painted through. */
module Utf8Screen {

  // The decoder's static variables: the bits collected and the continuation bytes still due.
  datatype Decoder = Decoder(buff: bv32, waitfor: nat)

  const CLEAN := Decoder(0, 0)
  const DOT: bv32 := 46

  function Wide(s: bv8): bv32 { s as bv32 }

  // What a byte can be: a character of its own, a continuation with six bits, the first of a
  // character with so many bytes to follow and its high bits, or none of these.
  datatype Kind = Ascii | Continuation(bits: bv32) | Lead(due: nat, bits: bv32) | Invalid

  function KindOf(s: bv8): Kind {
    if s < 0x80 then Ascii
    else if s < 0xC0 then Continuation(Wide(s & 0x3F))
    else if s < 0xE0 then Lead(1, Wide(s & 0x1F))
    else if s < 0xF0 then Lead(2, Wide(s & 0x0F))
    else if s < 0xF8 then Lead(3, Wide(s & 0x07))
    else Invalid
  }

  // One byte: the value returned (0 for none yet) and the new state. A byte that does not fit, a
  // continuation between characters or anything else inside of one, gives a dot.
  function Feed(d: Decoder, s: bv8): (r: (bv32, Decoder)) {
    var kind := KindOf(s);
    if kind.Invalid? || (kind.Continuation? <==> d.waitfor == 0) then (DOT, CLEAN)
    else match kind
      case Continuation(bits) =>
        var buff := (d.buff << 6) | bits;
        (if d.waitfor == 1 then buff else 0, Decoder(buff, d.waitfor - 1))
      case Lead(due, bits) => (0, Decoder(bits, due))
      case _ => (Wide(s), CLEAN)
  }

  function Emit(w: bv32): seq<bv32> {
    if w == 0 then [] else [w]
  }

  // The non-zero values a run of bytes yields.
  function Out(d: Decoder, bytes: seq<bv8>): seq<bv32>
    decreases |bytes|
  {
    if bytes == [] then [] else Emit(Feed(d, bytes[0]).0) + Out(Feed(d, bytes[0]).1, bytes[1..])
  }

  // The state it leaves.
  function After(d: Decoder, bytes: seq<bv8>): Decoder
    decreases |bytes|
  {
    if bytes == [] then d else After(Feed(d, bytes[0]).1, bytes[1..])
  }

  // Unicode scalar values other than NUL.
  predicate Scalar(c: bv32) {
    c != 0 && c < 0x110000 && !(0xD800 <= c <= 0xDFFF)
  }

  function Narrow(x: bv32): bv8
  {
    (x & 0xFF) as bv8
  }

  // Section 3 of RFC 3629.
  function Encode(c: bv32): seq<bv8> {
    if c < 0x80 then [Narrow(c)]
    else if c < 0x800 then [Narrow(0xC0 | (c >> 6)), Narrow(0x80 | (c & 0x3F))]
    else if c < 0x10000 then
      [Narrow(0xE0 | (c >> 12)), Narrow(0x80 | ((c >> 6) & 0x3F)), Narrow(0x80 | (c & 0x3F))]
    else
      [Narrow(0xF0 | (c >> 18)), Narrow(0x80 | ((c >> 12) & 0x3F)), Narrow(0x80 | ((c >> 6) & 0x3F)),
       Narrow(0x80 | (c & 0x3F))]
  }

  function EncodeAll(cs: seq<bv32>): seq<bv8> {
    if cs == [] then [] else Encode(cs[0]) + EncodeAll(cs[1..])
  }

  /** Examples of section 7 of RFC 3629. */
  lemma EncodeExamples()
    ensures EncodeAll([0x41, 0x2262, 0x391, 0x2E]) == [0x41, 0xE2, 0x89, 0xA2, 0xCE, 0x91, 0x2E]
    ensures EncodeAll([0x233B4]) == [0xF0, 0xA3, 0x8E, 0xB4]
  {
    assert Encode(0x2262) == [0xE2, 0x89, 0xA2] && Encode(0x391) == [0xCE, 0x91];
    EncodeMore(0x2E, []);
    EncodeMore(0x391, [0x2E]);
    EncodeMore(0x2262, [0x391, 0x2E]);
    EncodeMore(0x41, [0x2262, 0x391, 0x2E]);
    EncodeMore(0x233B4, []);
  }

  lemma EncodeMore(c: bv32, cs: seq<bv32>)
    ensures EncodeAll([c] + cs) == Encode(c) + EncodeAll(cs)
  {
    assert ([c] + cs)[1..] == cs;
  }

  /** Bytes that do not fit give a dot and a clean state: in the middle of a character any but a
      continuation, between characters a continuation, and 0xF8 to 0xFF everywhere. */
  lemma FeedErrors(d: Decoder, s: bv8)
    ensures d.waitfor == 0 ==> (Feed(d, s) == (46, Decoder(0, 0)) <==> s >= 0xF8 || 0x80 <= s < 0xC0 || s == 46)
    ensures d.waitfor != 0 ==> (Feed(d, s) == (46, Decoder(0, 0)) <==> !(0x80 <= s < 0xC0))
  {
  }

  /** Bytes that fit: ASCII is taken as it is, a lead says how many bytes are to come, and each of those
      adds six bits; the last one gives the value. */
  lemma FeedFits(d: Decoder, s: bv8)
    ensures d.waitfor == 0 && s < 0x80 ==> Feed(d, s) == (Wide(s), Decoder(0, 0))
    ensures d.waitfor == 0 && 0xC0 <= s < 0xE0 ==> Feed(d, s) == (0, Decoder(Wide(s) - 0xC0, 1))
    ensures d.waitfor == 0 && 0xE0 <= s < 0xF0 ==> Feed(d, s) == (0, Decoder(Wide(s) - 0xE0, 2))
    ensures d.waitfor == 0 && 0xF0 <= s < 0xF8 ==> Feed(d, s) == (0, Decoder(Wide(s) - 0xF0, 3))
    ensures d.waitfor > 0 && 0x80 <= s < 0xC0 ==>
              var buff := d.buff * 64 + (Wide(s) - 0x80);
              Feed(d, s) == (if d.waitfor == 1 then buff else 0, Decoder(buff, d.waitfor - 1))
  {
  }

  // In the middle of a character a lead byte or an ASCII byte is an error.
  lemma LeadInterrupts(d: Decoder, c: bv32)
    requires d.waitfor != 0 && Scalar(c)
    ensures Feed(d, Encode(c)[0]) == (DOT, CLEAN)
  {
  }

  lemma {:induction false} FeedConcat(d: Decoder, a: seq<bv8>, b: seq<bv8>)
    ensures Out(d, a + b) == Out(d, a) + Out(After(d, a), b)
    ensures After(d, a + b) == After(After(d, a), b)
    decreases |a|
  {
    if a == [] {
      assert a + b == b;
    } else {
      assert (a + b)[0] == a[0] && (a + b)[1..] == a[1..] + b;
      FeedConcat(Feed(d, a[0]).1, a[1..], b);
    }
  }

  // A run of up to four bytes, one after the other.
  lemma FeedCons(d: Decoder, b: bv8, rest: seq<bv8>, w: bv32, d1: Decoder)
    requires Feed(d, b) == (w, d1)
    ensures Out(d, [b] + rest) == Emit(w) + Out(d1, rest)
    ensures After(d, [b] + rest) == After(d1, rest)
  {
    assert ([b] + rest)[0] == b && ([b] + rest)[1..] == rest;
  }

  lemma Feed2(d: Decoder, b: seq<bv8>, w0: bv32, d1: Decoder, w1: bv32, d2: Decoder)
    requires |b| == 2 && Feed(d, b[0]) == (w0, d1) && Feed(d1, b[1]) == (w1, d2)
    ensures Out(d, b) == Emit(w0) + Emit(w1) && After(d, b) == d2
  {
    assert b == [b[0]] + ([b[1]] + []);
    FeedCons(d1, b[1], [], w1, d2);
    FeedCons(d, b[0], [b[1]] + [], w0, d1);
  }

  lemma Feed3(d: Decoder, b: seq<bv8>, w0: bv32, d1: Decoder, w1: bv32, d2: Decoder, w2: bv32, d3: Decoder)
    requires |b| == 3 && Feed(d, b[0]) == (w0, d1) && Feed(d1, b[1]) == (w1, d2) && Feed(d2, b[2]) == (w2, d3)
    ensures Out(d, b) == Emit(w0) + (Emit(w1) + Emit(w2)) && After(d, b) == d3
  {
    assert b == [b[0]] + b[1..];
    Feed2(d1, b[1..], w1, d2, w2, d3);
    FeedCons(d, b[0], b[1..], w0, d1);
  }

  lemma Feed4(d: Decoder, b: seq<bv8>, w0: bv32, d1: Decoder, w1: bv32, d2: Decoder, w2: bv32, d3: Decoder, w3: bv32,
              d4: Decoder)
    requires |b| == 4 && Feed(d, b[0]) == (w0, d1) && Feed(d1, b[1]) == (w1, d2)
    requires Feed(d2, b[2]) == (w2, d3) && Feed(d3, b[3]) == (w3, d4)
    ensures Out(d, b) == Emit(w0) + (Emit(w1) + (Emit(w2) + Emit(w3))) && After(d, b) == d4
  {
    assert b == [b[0]] + b[1..];
    Feed3(d1, b[1..], w1, d2, w2, d3, w3, d4);
    FeedCons(d, b[0], b[1..], w0, d1);
  }

  // The states a character leads through: its bits so far, and the bytes still due.
  lemma Lead2(d: Decoder, c: bv32)
    requires d.waitfor == 0 && 0x80 <= c < 0x800
    ensures Feed(d, Encode(c)[0]) == (0, Decoder(c >> 6, 1))
  {
  }

  lemma Lead3(d: Decoder, c: bv32)
    requires d.waitfor == 0 && 0x800 <= c < 0x10000
    ensures Feed(d, Encode(c)[0]) == (0, Decoder(c >> 12, 2))
  {
  }

  lemma Lead4(d: Decoder, c: bv32)
    requires d.waitfor == 0 && 0x10000 <= c < 0x110000
    ensures Feed(d, Encode(c)[0]) == (0, Decoder(c >> 18, 3))
  {
  }

  // Six more bits, with w bytes due.
  lemma SixBits(c: bv32, high: bv32, w: nat)
    requires c < 0x110000 && high == c >> 6 && w > 0
    ensures Feed(Decoder(high, w), Narrow(0x80 | (c & 0x3F))) == (if w == 1 then c else 0, Decoder(c, w - 1))
  {
  }

  lemma Shifts(c: bv32) returns (x: bv32, y: bv32, z: bv32)
    requires c < 0x110000
    ensures x == c >> 6 && y == c >> 12 && z == c >> 18
    ensures y == x >> 6 && z == y >> 6 && x < 0x110000 && y < 0x110000
  {
    x, y, z := c >> 6, c >> 12, c >> 18;
  }

  lemma Decode1(d: Decoder, c: bv32)
    requires d.waitfor == 0 && 0 < c < 0x80
    ensures Out(d, Encode(c)) == [c] && After(d, Encode(c)) == CLEAN
  {
    assert Feed(d, Narrow(c)) == (c, CLEAN);
    FeedCons(d, Narrow(c), [], c, CLEAN);
    assert [Narrow(c)] + [] == Encode(c);
  }

  lemma Decode2(d: Decoder, c: bv32)
    requires d.waitfor == 0 && 0x80 <= c < 0x800
    ensures Out(d, Encode(c)) == [c] && After(d, Encode(c)) == Decoder(c, 0)
  {
    Lead2(d, c);
    SixBits(c, c >> 6, 1);
    Feed2(d, Encode(c), 0, Decoder(c >> 6, 1), c, Decoder(c, 0));
  }

  lemma Decode3(d: Decoder, c: bv32)
    requires d.waitfor == 0 && 0x800 <= c < 0x10000
    ensures Out(d, Encode(c)) == [c] && After(d, Encode(c)) == Decoder(c, 0)
  {
    var x, y, z := Shifts(c);
    Lead3(d, c);
    SixBits(x, y, 2);
    SixBits(c, x, 1);
    Feed3(d, Encode(c), 0, Decoder(y, 2), 0, Decoder(x, 1), c, Decoder(c, 0));
  }

  lemma Decode4(d: Decoder, c: bv32)
    requires d.waitfor == 0 && 0x10000 <= c < 0x110000
    ensures Out(d, Encode(c)) == [c] && After(d, Encode(c)) == Decoder(c, 0)
  {
    var x, y, z := Shifts(c);
    Lead4(d, c);
    SixBits(y, z, 3);
    SixBits(x, y, 2);
    SixBits(c, x, 1);
    Feed4(d, Encode(c), 0, Decoder(z, 3), 0, Decoder(y, 2), 0, Decoder(x, 1), c, Decoder(c, 0));
  }

  // Between characters the encoding of a character decodes to it.
  lemma DecodeOne(d: Decoder, c: bv32)
    requires d.waitfor == 0 && Scalar(c)
    ensures Out(d, Encode(c)) == [c] && After(d, Encode(c)).waitfor == 0
  {
    if c < 0x80 { Decode1(d, c); } else if c < 0x800 { Decode2(d, c); }
    else if c < 0x10000 { Decode3(d, c); } else { Decode4(d, c); }
  }

  function Dots(n: nat): seq<bv32> {
    seq(n, _ => DOT)
  }

  // With no byte due a continuation byte is an error.
  lemma StrayByte(c: bv32, k: nat)
    requires 0 < k < |Encode(c)|
    ensures Feed(CLEAN, Encode(c)[k]) == (DOT, CLEAN)
  {
  }

  // In the middle of a character every byte of the next one is an error, and the state is clean.
  lemma InterruptOne(d: Decoder, c: bv32)
    requires d.waitfor != 0 && Scalar(c)
    ensures Out(d, Encode(c)) == Dots(|Encode(c)|) && After(d, Encode(c)) == CLEAN
  {
    var b := Encode(c);
    LeadInterrupts(d, c);
    if |b| == 1 {
      FeedCons(d, b[0], [], DOT, CLEAN);
      assert [b[0]] + [] == b;
    } else if |b| == 2 {
      StrayByte(c, 1);
      Feed2(d, b, DOT, CLEAN, DOT, CLEAN);
    } else if |b| == 3 {
      StrayByte(c, 1);
      StrayByte(c, 2);
      Feed3(d, b, DOT, CLEAN, DOT, CLEAN, DOT, CLEAN);
    } else {
      StrayByte(c, 1);
      StrayByte(c, 2);
      StrayByte(c, 3);
      Feed4(d, b, DOT, CLEAN, DOT, CLEAN, DOT, CLEAN, DOT, CLEAN);
    }
  }

  /** Decoding inverts encoding: between characters, the encoding of any text yields that text. */
  lemma {:induction false} DecodeInvertsEncode(d: Decoder, cs: seq<bv32>)
    requires d.waitfor == 0 && forall k :: 0 <= k < |cs| ==> Scalar(cs[k])
    ensures Out(d, EncodeAll(cs)) == cs && After(d, EncodeAll(cs)).waitfor == 0
    decreases |cs|
  {
    if cs != [] {
      DecodeOne(d, cs[0]);
      DecodeInvertsEncode(After(d, Encode(cs[0])), cs[1..]);
      FeedConcat(d, Encode(cs[0]), EncodeAll(cs[1..]));
    }
  }

  /** The decoder resynchronises: from any state all characters after the first decode correctly;
      the first does too when none was pending, and turns into one dot a byte otherwise. */
  lemma DecoderResynchronises(d: Decoder, cs: seq<bv32>)
    requires cs != [] && forall k :: 0 <= k < |cs| ==> Scalar(cs[k])
    ensures Out(d, EncodeAll(cs)) == (if d.waitfor == 0 then [cs[0]] else Dots(|Encode(cs[0])|)) + cs[1..]
    ensures After(d, EncodeAll(cs)).waitfor == 0
  {
    if d.waitfor == 0 {
      DecodeOne(d, cs[0]);
    } else {
      InterruptOne(d, cs[0]);
    }
    DecodeInvertsEncode(After(d, Encode(cs[0])), cs[1..]);
    FeedConcat(d, Encode(cs[0]), EncodeAll(cs[1..]));
  }

  /* ---------- painting ---------- */

  datatype Cell = Cell(wchar: bv32, attr: int, x: int, y: int)

  // TABs show as spaces, other control characters as dots.
  function Glyph(w: bv32): bv32 {
    if w == 9 then 32 else if w < 32 then DOT else w
  }

  // The glyph in column k of a string that decodes to ws: blank past its end.
  function Column(ws: seq<bv32>, k: nat): bv32 {
    if k < |ws| then Glyph(ws[k]) else 32
  }

  // n cells from (x, y) on, showing what a string decodes to.
  function Row(ws: seq<bv32>, n: nat, attr: int, x: int, y: int): seq<Cell> {
    seq(n, k requires 0 <= k < n => Cell(Column(ws, k), attr, x + k, y))
  }

  // One more byte: at most one more glyph.
  lemma OutNext(d: Decoder, s: seq<bv8>, i: nat)
    requires i < |s|
    ensures Out(d, s[..i + 1]) == Out(d, s[..i]) + Emit(Feed(After(d, s[..i]), s[i]).0)
    ensures After(d, s[..i + 1]) == Feed(After(d, s[..i]), s[i]).1
  {
    FeedConcat(d, s[..i], [s[i]]);
    FeedOne(After(d, s[..i]), s[i]);
    assert s[..i + 1] == s[..i] + [s[i]];
  }

  lemma FeedOne(d: Decoder, b: bv8)
    ensures Out(d, [b]) == Emit(Feed(d, b).0) && After(d, [b]) == Feed(d, b).1
  {
    assert [b][1..] == [];
  }

  lemma OutPrefix(d: Decoder, s: seq<bv8>, i: nat)
    requires i <= |s|
    ensures Out(d, s[..i]) <= Out(d, s)
  {
    FeedConcat(d, s[..i], s[i..]);
    assert s == s[..i] + s[i..];
  }

  lemma RowGlyph(ws: seq<bv32>, w: bv32, attr: int, x: int, y: int)
    ensures Row(ws + [w], |ws| + 1, attr, x, y) == Row(ws, |ws|, attr, x, y) + [Cell(Glyph(w), attr, x + |ws|, y)]
  {
  }

  // The first i bytes have been decoded and their glyphs painted into l cells.
  ghost predicate Drawn(d: Decoder, was: seq<Cell>, s: seq<bv8>, i: nat, attr: int, x: int, y: int,
                        decoder: Decoder, painted: seq<Cell>, l: nat)
  {
    i <= |s| && decoder == After(d, s[..i]) && l == |Out(d, s[..i])| &&
    painted == was + Row(Out(d, s[..i]), l, attr, x, y)
  }

  lemma DrawnNext(d: Decoder, was: seq<Cell>, s: seq<bv8>, i: nat, attr: int, x: int, y: int,
                  decoder: Decoder, painted: seq<Cell>, l: nat)
    requires i < |s| && Drawn(d, was, s, i, attr, x, y, decoder, painted, l)
    ensures var (w, next) := Feed(decoder, s[i]);
            if w == 0 then Drawn(d, was, s, i + 1, attr, x, y, next, painted, l)
            else Drawn(d, was, s, i + 1, attr, x, y, next, painted + [Cell(Glyph(w), attr, x + l, y)], l + 1)
  {
    OutNext(d, s, i);
    var w := Feed(decoder, s[i]).0;
    var ws := Out(d, s[..i]);
    if w == 0 {
      assert ws + [] == ws;
    } else {
      RowGlyph(ws, w, attr, x, y);
      assert was + (Row(ws, l, attr, x, y) + [Cell(Glyph(w), attr, x + l, y)])
          == (was + Row(ws, l, attr, x, y)) + [Cell(Glyph(w), attr, x + l, y)];
    }
  }

  // What has been drawn is the beginning of the row.
  lemma DrawnIsRow(d: Decoder, was: seq<Cell>, s: seq<bv8>, i: nat, attr: int, x: int, y: int,
                   decoder: Decoder, painted: seq<Cell>, l: nat)
    requires Drawn(d, was, s, i, attr, x, y, decoder, painted, l)
    ensures painted == was + Row(Out(d, s), l, attr, x, y)
    ensures i == |s| ==> s[..i] == s
  {
    OutPrefix(d, s, i);
    RowPrefix(Out(d, s[..i]), Out(d, s), l, attr, x, y);
  }

  lemma RowPrefix(ws: seq<bv32>, vs: seq<bv32>, n: nat, attr: int, x: int, y: int)
    requires ws <= vs && n <= |ws|
    ensures Row(ws, n, attr, x, y) == Row(vs, n, attr, x, y)
  {
  }

  // The masks of the source tell the kinds apart.
  lemma MaskedKind(s: bv8)
    ensures s & 0x80 == 0 <==> s < 0x80
    ensures s & 0xC0 == 0x80 <==> 0x80 <= s < 0xC0
    ensures s & 0xE0 == 0xC0 <==> 0xC0 <= s < 0xE0
    ensures s & 0xF0 == 0xE0 <==> 0xE0 <= s < 0xF0
    ensures s & 0xF8 == 0xF0 <==> 0xF0 <= s < 0xF8
  {
  }

  class Painter {
    // The static variables of utf8toint, and the calls of ui_putchar so far.
    var buff: bv32
    var waitfor: nat
    var painted: seq<Cell>

    function State(): Decoder
      reads this
    {
      Decoder(buff, waitfor)
    }

    constructor ()
      ensures State() == CLEAN && painted == []
    {
      buff, waitfor, painted := 0, 0, [];
    }

    /** utf8toint: the masks sort the byte, and the static variables follow the decoder. */
    method Utf8ToInt(s: bv8) returns (wchar: bv32)
      modifies this`buff, this`waitfor
      ensures (wchar, State()) == Feed(old(State()), s)
    {
      MaskedKind(s);
      if s & 0x80 == 0 {
        if waitfor == 0 {
          buff := 0;
          return Wide(s);
        }
      } else if s & 0xC0 == 0x80 {
        if waitfor != 0 {
          waitfor := waitfor - 1;
          buff := buff << 6;
          buff := buff | Wide(s & 0x3F);
          return if waitfor == 0 then buff else 0;
        }
      } else if s & 0xE0 == 0xC0 {
        if waitfor == 0 {
          waitfor, buff := 1, Wide(s & 0x1F);
          return 0;
        }
      } else if s & 0xF0 == 0xE0 {
        if waitfor == 0 {
          waitfor, buff := 2, Wide(s & 0x0F);
          return 0;
        }
      } else if s & 0xF8 == 0xF0 {
        if waitfor == 0 {
          waitfor, buff := 3, Wide(s & 0x07);
          return 0;
        }
      }
      // decoding error
      waitfor, buff := 0, 0;
      wchar := DOT;
    }

    /** The cell drawstr paints for a decoded value. */
    method PutGlyph(w: bv32, attr: int, x: int, y: int)
      modifies this`painted
      ensures painted == old(painted) + [Cell(Glyph(w), attr, x, y)]
    {
      var wchar := w;
      if wchar == 9 { wchar := 32; }
      if wchar < 32 { wchar := 46; }
      painted := painted + [Cell(wchar, attr, x, y)];
    }

    /** drawstr: paints exactly len cells from (x, y) on: the decoded string as glyphs, then
        blanks; the decoder is left where the last byte it needed took it. */
    method DrawStr(s: seq<bv8>, attr: int, x: int, y: int, len: int)
      requires 0 !in s
      modifies this
      ensures painted == old(painted) + Row(Out(old(State()), s), if len > 0 then len else 0, attr, x, y)
      ensures exists n :: 0 <= n <= |s| && State() == After(old(State()), s[..n]) &&
                (n == |s| || |Out(old(State()), s[..n])| >= len)
    {
      var l := DrawGlyphs(s, attr, x, y, len);
      ghost var ws, was := Out(old(State()), s), old(painted);
      while l < len
        invariant painted == was + Row(ws, l, attr, x, y)
        invariant l <= len || l == 0
        invariant l < len ==> l >= |ws|
        invariant exists n :: 0 <= n <= |s| && State() == After(old(State()), s[..n]) &&
                    (n == |s| || |Out(old(State()), s[..n])| >= len)
      {
        painted := painted + [Cell(32, attr, x + l, y)];
        assert Row(ws, l + 1, attr, x, y) == Row(ws, l, attr, x, y) + [Cell(32, attr, x + l, y)];
        l := l + 1;
      }
    }

    /** The first loop of drawstr; l counts the cells painted. */
    method DrawGlyphs(s: seq<bv8>, attr: int, x: int, y: int, len: int) returns (l: nat)
      requires 0 !in s
      modifies this
      ensures l <= len || l == 0
      ensures l < len ==> l == |Out(old(State()), s)|
      ensures painted == old(painted) + Row(Out(old(State()), s), l, attr, x, y)
      ensures exists n :: 0 <= n <= |s| && State() == After(old(State()), s[..n]) &&
                (n == |s| || |Out(old(State()), s[..n])| >= len)
    {
      ghost var d, was := State(), painted;
      var i := 0;
      l := 0;
      while i < |s| && l < len
        invariant l <= len || l == 0
        invariant Drawn(d, was, s, i, attr, x, y, State(), painted, l)
      {
        DrawnNext(d, was, s, i, attr, x, y, State(), painted, l);
        var wchar := Utf8ToInt(s[i]);
        if wchar != 0 {
          PutGlyph(wchar, attr, x + l, y);
          l := l + 1;
        }
        i := i + 1;
      }
      DrawnIsRow(d, was, s, i, attr, x, y, State(), painted, l);
    }
  }

  /** What drawstr paints for a text between characters: cell k shows character k, a TAB as a space and
      any other control character as a dot, and blanks follow its end. */
  lemma DrawnText(d: Decoder, cs: seq<bv32>, n: nat, attr: int, x: int, y: int)
    requires d.waitfor == 0 && forall j :: 0 <= j < |cs| ==> Scalar(cs[j])
    ensures var cells := Row(Out(d, EncodeAll(cs)), n, attr, x, y);
            |cells| == n && forall k :: 0 <= k < n ==>
              cells[k].attr == attr && cells[k].x == x + k && cells[k].y == y &&
              cells[k].wchar == if k >= |cs| || cs[k] == 9 then 32 else if cs[k] < 32 then 46 else cs[k]
  {
    DecodeInvertsEncode(d, cs);
  }
}
