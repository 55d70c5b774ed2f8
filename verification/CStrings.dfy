/** Bytes, C strings and the few library functions the modules share. A C string is modelled by
    its content, a string without NUL; the memory it lives in by an array of characters. */
module CStrings {

  type Byte = x: int | 0 <= x < 256

  function Min(a: int, b: int): int {
    if a < b then a else b
  }

  const NUL := '\0'

  // C's plain char is signed: a byte above 127 reads as a negative number.
  function Signed(b: Byte): int {
    if b < 128 then b else b - 256
  }

  datatype Option<+T> = None | Some(value: T)

  // The p-th character of a NUL-terminated string, its terminator included.
  function CharAt(text: string, p: nat): char
    requires p <= |text|
  {
    if p < |text| then text[p] else NUL
  }

  // Where c first occurs in s, or |s|.
  function IndexOf(s: string, c: char): (i: nat)
    ensures i <= |s|
    ensures forall k :: 0 <= k < i ==> s[k] != c
    ensures i < |s| ==> s[i] == c
  {
    IndexFrom(s, c, 0)
  }

  function IndexFrom(s: string, c: char, from: nat): (i: nat)
    requires from <= |s|
    ensures from <= i <= |s|
    ensures forall k :: from <= k < i ==> s[k] != c
    ensures i < |s| ==> s[i] == c
    decreases |s| - from
  {
    if from == |s| || s[from] == c then from else IndexFrom(s, c, from + 1)
  }

  // The C string stored in a piece of memory.
  function Content(mem: seq<char>): (s: string)
    ensures NUL !in s
  {
    mem[..IndexOf(mem, NUL)]
  }

  lemma ContentIs(mem: seq<char>, n: nat)
    requires n < |mem| && mem[n] == NUL
    requires forall k :: 0 <= k < n ==> mem[k] != NUL
    ensures Content(mem) == mem[..n]
  {
    assert IndexOf(mem, NUL) == n;
  }

  // ASCII lower case, as strcasecmp compares in the C locale.
  function Lower(c: char): char {
    if 'A' <= c <= 'Z' then c + ('a' - 'A') else c
  }

  function Fold(s: string): string {
    seq(|s|, k requires 0 <= k < |s| => Lower(s[k]))
  }

  // strcasecmp(a, b) == 0
  predicate SameNoCase(a: string, b: string) {
    Fold(a) == Fold(b)
  }

  // Equal, or an ASCII letter in its two cases.
  predicate Alike(a: char, b: char) {
    a == b || ('A' <= a <= 'Z' && b as int == a as int + 32) || ('A' <= b <= 'Z' && a as int == b as int + 32)
  }

  // The same characters, but for the case of ASCII letters.
  predicate LooksLike(a: string, b: string) {
    |a| == |b| && forall k :: 0 <= k < |a| ==> Alike(a[k], b[k])
  }

  /** strcasecmp(a, b) == 0, character by character. */
  lemma SameNoCaseIs(a: string, b: string)
    ensures SameNoCase(a, b) <==> LooksLike(a, b)
  {
    assert |Fold(a)| == |a| && |Fold(b)| == |b|;
    if |a| == |b| {
      forall k | 0 <= k < |a|
        ensures Alike(a[k], b[k]) <==> Fold(a)[k] == Fold(b)[k]
      {
        LowerIs(a[k], b[k]);
      }
    }
  }

  lemma LowerIs(a: char, b: char)
    ensures Lower(a) == Lower(b) <==> Alike(a, b)
  {
  }

  /* ---------- decimal numbers ---------- */

  predicate IsSpace(c: char) {
    c == ' ' || 9 <= c as int <= 13
  }

  predicate IsDigit(c: char) {
    '0' <= c <= '9'
  }

  function Digits(s: string, acc: int): int
    decreases |s|
  {
    if s == "" || !IsDigit(s[0]) then acc else Digits(s[1..], acc * 10 + (s[0] - '0') as int)
  }

  // atoi, on unbounded integers.
  function Atoi(s: string): int
    decreases |s|
  {
    if s == "" then 0
    else if IsSpace(s[0]) then Atoi(s[1..])
    else if s[0] == '-' then -Digits(s[1..], 0)
    else if s[0] == '+' then Digits(s[1..], 0)
    else Digits(s, 0)
  }

  // What %u prints.
  function Decimal(n: nat): (s: string)
    ensures s != "" && forall k :: 0 <= k < |s| ==> IsDigit(s[k])
  {
    if n < 10 then ['0' + n as char] else Decimal(n / 10) + ['0' + (n % 10) as char]
  }

  lemma {:induction false} DigitsOfDecimal(n: nat, rest: string)
    ensures Digits(Decimal(n) + rest, 0) == Digits(rest, n)
  {
    var d := ['0' + (n % 10) as char];
    assert (d + rest)[1..] == rest;
    if n < 10 {
      assert Decimal(n) == d;
    } else {
      assert Decimal(n) + rest == Decimal(n / 10) + (d + rest);
      DigitsOfDecimal(n / 10, d + rest);
    }
  }

  /** Reading a printed number back. */
  lemma AtoiOfDecimal(n: nat)
    ensures Atoi(Decimal(n)) == n
  {
    DigitsOfDecimal(n, "");
    assert Decimal(n) + "" == Decimal(n);
  }

  /** A number is read behind white space, with a sign, and up to the first character that is no digit. */
  lemma {:induction false} AtoiOfText(space: string, n: nat, rest: string)
    requires forall k :: 0 <= k < |space| ==> space[k] in {' ', '\t', '\n', 11 as char, 12 as char, '\r'}
    requires rest == "" || !('0' <= rest[0] <= '9')
    ensures Atoi(space + (Decimal(n) + rest)) == n
    ensures Atoi(space + ("-" + (Decimal(n) + rest))) + n == 0
    ensures Atoi(space + ("+" + (Decimal(n) + rest))) == n
  {
    var number := Decimal(n) + rest;
    DigitsOfDecimal(n, rest);
    assert number[0] == Decimal(n)[0];
    assert ("-" + number)[1..] == number && ("+" + number)[1..] == number;
    AtoiSkips(space, number);
    AtoiSkips(space, "-" + number);
    AtoiSkips(space, "+" + number);
  }

  lemma {:induction false} AtoiSkips(space: string, text: string)
    requires forall k :: 0 <= k < |space| ==> IsSpace(space[k])
    ensures Atoi(space + text) == Atoi(text)
  {
    if space == "" {
      assert space + text == text;
    } else {
      assert (space + text)[1..] == space[1..] + text;
      AtoiSkips(space[1..], text);
    }
  }

  /** Text that does not begin with a number reads as 0. */
  lemma AtoiOfNoNumber(text: string)
    requires text == "" || text[0] !in {' ', '\t', '\n', 11 as char, 12 as char, '\r', '-', '+'}
    requires text == "" || !('0' <= text[0] <= '9')
    ensures Atoi(text) == 0
  {
  }

  /** A number is printed without leading zeros. */
  lemma {:induction false} DecimalIsCanonical(n: nat)
    ensures if n == 0 then Decimal(n) == "0" else Decimal(n)[0] != '0'
  {
    if n >= 10 { DecimalIsCanonical(n / 10); }
  }
}
