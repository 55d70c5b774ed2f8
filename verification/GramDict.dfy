/** The dictionary builder of idoc/grams.c: count the grams of a buffer, take the most frequent
    one, blank out its occurrences with 0xff, repeat. */
module GramDict {

  import opened CStrings

  const BLANK: Byte := 0xff
  const MAXGRAMS := 128

  predicate Clean(w: seq<Byte>) {
    BLANK !in w
  }

  // The integer bestgram builds from a window: big-endian, base 256.
  function Pack(w: seq<Byte>): nat {
    if w == [] then 0 else Pack(w[..|w| - 1]) * 256 + w[|w| - 1]
  }

  // The window starting at i; the source scans the starts below |buf| - glen.
  function Window(buf: seq<Byte>, glen: nat, i: nat): seq<Byte>
    requires i + glen <= |buf|
  {
    buf[i..i + glen]
  }

  // How many clean windows among the first n starts hold the gram g.
  function Count(buf: seq<Byte>, g: seq<Byte>, n: nat): nat
    requires n == 0 || n - 1 + |g| <= |buf|
  {
    if n == 0 then 0
    else Count(buf, g, n - 1) + (if Clean(g) && Window(buf, |g|, n - 1) == g then 1 else 0)
  }

  function Starts(buf: seq<Byte>, glen: nat): nat {
    if |buf| < glen then 0 else |buf| - glen
  }

  // The count bestgram compares: all scanned windows.
  function Total(buf: seq<Byte>, g: seq<Byte>): nat {
    Count(buf, g, Starts(buf, |g|))
  }

  lemma {:induction false} PackIsInjective(a: seq<Byte>, b: seq<Byte>)
    requires |a| == |b| && Pack(a) == Pack(b)
    ensures a == b
  {
    if a != [] {
      var n := |a| - 1;
      PackIsInjective(a[..n], b[..n]);
      assert a == a[..n] + [a[n]] && b == b[..n] + [b[n]];
    }
  }

  /** The integer of a gram: its bytes in base 256, the first one the most significant. */
  lemma {:induction false} PackPolynomial(w: seq<Byte>)
    requires 1 <= |w| <= 4
    ensures |w| == 1 ==> Pack(w) == w[0]
    ensures |w| == 2 ==> Pack(w) == w[0] as int * 0x100 + w[1]
    ensures |w| == 3 ==> Pack(w) == w[0] as int * 0x1_0000 + w[1] as int * 0x100 + w[2]
    ensures |w| == 4 ==> Pack(w) == w[0] as int * 0x100_0000 + w[1] as int * 0x1_0000 + w[2] as int * 0x100 + w[3]
  {
    if |w| > 1 {
      PackPolynomial(w[..|w| - 1]);
    } else {
      assert w[..0] == [];
    }
  }

  /** The count of a gram is the number of its scanned occurrences. */
  lemma {:induction false} CountIsNumber(buf: seq<Byte>, g: seq<Byte>, n: nat)
    requires BLANK !in g && (n == 0 || n - 1 + |g| <= |buf|)
    ensures Count(buf, g, n) == |OccurrencesBelow(buf, g, n)|
  {
    if n > 0 {
      CountIsNumber(buf, g, n - 1);
      var less := OccurrencesBelow(buf, g, n - 1);
      var extra := if OccursAt(buf, g, n - 1) then {n - 1} else {};
      assert OccurrencesBelow(buf, g, n) == less + extra;
    }
  }

  ghost function OccurrencesBelow(buf: seq<Byte>, g: seq<Byte>, n: nat): set<int> {
    set i | 0 <= i < n && OccursAt(buf, g, i)
  }

  predicate OccursAt(buf: seq<Byte>, g: seq<Byte>, i: nat) {
    i + |g| <= |buf| && buf[i..i + |g|] == g
  }

  // A gram of at most four bytes fits the source's 32-bit integer.
  lemma {:induction false} PackFits(w: seq<Byte>)
    requires |w| <= 4
    ensures Pack(w) < 0x1_0000_0000
    ensures |w| <= 3 ==> Pack(w) < 0x100_0000
    ensures |w| <= 2 ==> Pack(w) < 0x1_0000
    ensures |w| <= 1 ==> Pack(w) < 0x100
  {
    if w != [] {
      PackFits(w[..|w| - 1]);
    }
  }

  /** sgram: writes the bytes of a packed gram into s, the last one first, and terminates it. */
  method Sgram(s: array<Byte>, gram: nat, glen: nat, ghost w: seq<Byte>)
    requires |w| == glen < s.Length && gram == Pack(w)
    modifies s
    ensures s[..glen] == w && s[glen] == 0
    ensures forall k :: glen < k < s.Length ==> s[k] == old(s[k])
  {
    var g := gram;
    var i := 0;
    assert w[..glen] == w;
    while i < glen
      invariant 0 <= i <= glen
      invariant g == Pack(w[..glen - i])
      invariant forall k :: glen - i <= k < glen ==> s[k] == w[k]
      invariant forall k :: glen <= k < s.Length ==> s[k] == old(s[k])
    {
      assert w[..glen - i][..glen - i - 1] == w[..glen - i - 1];
      s[(glen - 1) - i] := g % 256;
      g := g / 256;
      i := i + 1;
    }
    s[i] := 0;
  }

  /* ---------- counting ---------- */

  datatype GramCount = GramCount(trigram: nat, count: nat)

  /** The inner loop of bestgram: the integer for the window at i, or 0xff when it is not clean. */
  method WindowGram(buf: array<Byte>, glen: nat, i: nat) returns (tg: nat)
    requires 1 <= glen <= 4 && i + glen <= buf.Length
    ensures Clean(Window(buf[..], glen, i)) ==> tg == Pack(Window(buf[..], glen, i))
    ensures tg == 0xff <==> !Clean(Window(buf[..], glen, i))
    ensures tg < 0x1_0000_0000
  {
    ghost var w := Window(buf[..], glen, i);
    tg := 0;
    var t := 0;
    while t < glen
      invariant 0 <= t <= glen && BLANK !in w[..t] && tg == Pack(w[..t])
    {
      PackNext(w, t);
      tg := tg * 256 + buf[i + t];
      if buf[i + t] == BLANK {
        assert w[t] == BLANK;
        return 0xff;
      }
      t := t + 1;
    }
    assert w[..glen] == w;
    PackIsNotBlank(w);
  }

  lemma PackNext(w: seq<Byte>, t: nat)
    requires t < |w|
    ensures Pack(w[..t + 1]) == Pack(w[..t]) * 256 + w[t]
    ensures BLANK !in w[..t] && w[t] != BLANK ==> BLANK !in w[..t + 1]
  {
    assert w[..t + 1] == w[..t] + [w[t]];
    assert w[..t + 1][..t] == w[..t];
  }

  lemma PackIsNotBlank(w: seq<Byte>)
    requires 1 <= |w| <= 4 && Clean(w)
    ensures Pack(w) < 0x1_0000_0000 && Pack(w) != 0xff
  {
    var last := w[|w| - 1];
    PackFits(w);
    assert last in w;
    assert Pack(w) == Pack(w[..|w| - 1]) * 256 + last;
    assert Pack(w) % 256 == last;
  }

  // w turns up in the buffer before g does.
  ghost predicate Earlier(buf: seq<Byte>, w: seq<Byte>, g: seq<Byte>)
    requires |w| == |g|
  {
    exists q :: 0 <= q < Starts(buf, |g|) && Window(buf, |g|, q) == w &&
                forall p :: 0 <= p <= q ==> Window(buf, |g|, p) != g
  }

  // Every entry of the list carries the count of its gram over the first i starts.
  ghost predicate Entries(buf: seq<Byte>, glen: nat, i: nat, list: seq<GramCount>, gs: seq<seq<Byte>>)
    requires i <= Starts(buf, glen)
  {
    |list| == |gs| &&
    forall k :: 0 <= k < |gs| ==>
      |gs[k]| == glen && Clean(gs[k]) && list[k].trigram == Pack(gs[k]) &&
      list[k].count == Count(buf, gs[k], i) && list[k].count > 0
  }

  // The grams are distinct, the latest newcomer first.
  ghost predicate Ordered(buf: seq<Byte>, gs: seq<seq<Byte>>) {
    forall j, k :: 0 <= j < k < |gs| ==> gs[j] != gs[k] && |gs[j]| == |gs[k]| && Earlier(buf, gs[k], gs[j])
  }

  ghost predicate Complete(buf: seq<Byte>, glen: nat, i: nat, gs: seq<seq<Byte>>)
    requires i <= Starts(buf, glen)
  {
    forall q :: 0 <= q < i && Clean(Window(buf, glen, q)) ==> Window(buf, glen, q) in gs
  }

  // The list of bestgram describes the windows starting below i; gs names its grams.
  ghost predicate Tally(buf: seq<Byte>, glen: nat, i: nat, list: seq<GramCount>, gs: seq<seq<Byte>>)
    requires i <= Starts(buf, glen)
  {
    Entries(buf, glen, i, list, gs) && Ordered(buf, gs) && Complete(buf, glen, i, gs)
  }

  // The list is a tally of those windows.
  ghost predicate IsTally(buf: seq<Byte>, glen: nat, i: nat, list: seq<GramCount>)
    requires i <= Starts(buf, glen)
  {
    exists gs :: Tally(buf, glen, i, list, gs)
  }

  lemma {:induction false} CountPositive(buf: seq<Byte>, g: seq<Byte>, n: nat)
    requires n + |g| <= |buf|
    ensures Count(buf, g, n) > 0 <==> Clean(g) && exists q :: 0 <= q < n && Window(buf, |g|, q) == g
  {
    if n > 0 {
      CountPositive(buf, g, n - 1);
    }
  }

  lemma TallySkip(buf: seq<Byte>, glen: nat, i: nat, list: seq<GramCount>, gs: seq<seq<Byte>>)
    requires i < Starts(buf, glen) && Tally(buf, glen, i, list, gs)
    requires !Clean(Window(buf, glen, i))
    ensures Tally(buf, glen, i + 1, list, gs)
  {
  }

  lemma TallyHit(buf: seq<Byte>, glen: nat, i: nat, list: seq<GramCount>, gs: seq<seq<Byte>>, k: nat)
    requires i < Starts(buf, glen) && Tally(buf, glen, i, list, gs)
    requires k < |gs| && gs[k] == Window(buf, glen, i)
    ensures Tally(buf, glen, i + 1, list[k := list[k].(count := list[k].count + 1)], gs)
  {
    forall j | 0 <= j < |gs|
      ensures Count(buf, gs[j], i + 1) == Count(buf, gs[j], i) + (if j == k then 1 else 0)
    {
      if j != k {
        assert gs[j] != gs[k];
      }
    }
  }

  lemma TallyNew(buf: seq<Byte>, glen: nat, i: nat, list: seq<GramCount>, gs: seq<seq<Byte>>)
    requires i < Starts(buf, glen) && Tally(buf, glen, i, list, gs)
    requires Clean(Window(buf, glen, i)) && Window(buf, glen, i) !in gs
    ensures Tally(buf, glen, i + 1, [GramCount(Pack(Window(buf, glen, i)), 1)] + list, [Window(buf, glen, i)] + gs)
  {
    var w := Window(buf, glen, i);
    CountPositive(buf, w, i);
    EntriesNew(buf, glen, i, list, gs, w);
    OrderedNew(buf, i, gs, w);
    assert ([w] + gs)[0] == w;
    assert forall g :: g in gs ==> g in [w] + gs;
  }

  lemma EntriesNew(buf: seq<Byte>, glen: nat, i: nat, list: seq<GramCount>, gs: seq<seq<Byte>>, w: seq<Byte>)
    requires i < Starts(buf, glen) && Entries(buf, glen, i, list, gs)
    requires w == Window(buf, glen, i) && Clean(w) && w !in gs && Count(buf, w, i) == 0
    ensures Entries(buf, glen, i + 1, [GramCount(Pack(w), 1)] + list, [w] + gs)
  {
    var list', gs' := [GramCount(Pack(w), 1)] + list, [w] + gs;
    forall k | 0 <= k < |gs'|
      ensures |gs'[k]| == glen && Clean(gs'[k]) && list'[k].trigram == Pack(gs'[k])
      ensures list'[k].count == Count(buf, gs'[k], i + 1) && list'[k].count > 0
    {
      if k == 0 {
        assert gs'[k] == w && list'[k] == GramCount(Pack(w), 1);
      } else {
        var g := gs[k - 1];
        assert gs'[k] == g && list'[k] == list[k - 1];
        assert Count(buf, g, i + 1) == Count(buf, g, i);
      }
    }
  }

  lemma {:induction false} OrderedNew(buf: seq<Byte>, i: nat, gs: seq<seq<Byte>>, w: seq<Byte>)
    requires Ordered(buf, gs) && i < Starts(buf, |w|) && Clean(w) && w !in gs && Count(buf, w, i) == 0
    requires forall k :: 0 <= k < |gs| ==> |gs[k]| == |w| && Count(buf, gs[k], i) > 0
    ensures Ordered(buf, [w] + gs)
  {
    forall k | 0 <= k < |gs|
      ensures Earlier(buf, gs[k], w)
    {
      SeenIsEarlier(buf, gs[k], w, i);
    }
  }

  lemma SeenIsEarlier(buf: seq<Byte>, seen: seq<Byte>, w: seq<Byte>, i: nat)
    requires |seen| == |w| && i < Starts(buf, |w|)
    requires Count(buf, seen, i) > 0 && Count(buf, w, i) == 0 && Clean(w)
    ensures Earlier(buf, seen, w)
  {
    CountPositive(buf, seen, i);
    CountPositive(buf, w, i);
    var q :| 0 <= q < i && Window(buf, |seen|, q) == seen;
    assert forall p :: 0 <= p <= q ==> Window(buf, |w|, p) != w;
  }

  /** The counting loop of bestgram; each gram is put in front of the list when first seen. */
  method CountGrams(buf: array<Byte>, glen: nat) returns (list: seq<GramCount>)
    requires 1 <= glen <= 4
    ensures IsTally(buf[..], glen, Starts(buf[..], glen), list)
  {
    ghost var was := buf[..];
    list := [];
    assert Tally(was, glen, 0, list, []);
    var i := 0;
    while i < buf.Length - glen
      invariant 0 <= i <= Starts(was, glen)
      invariant IsTally(was, glen, i, list)
    {
      var tg := WindowGram(buf, glen, i);
      if tg != 0xff {
        list := CountOne(tg, list, was, glen, i);
      } else {
        ghost var gs :| Tally(was, glen, i, list, gs);
        TallySkip(was, glen, i, list, gs);
      }
      i := i + 1;
    }
    assert i == Starts(was, glen);
  }

  /** Counting one gram: its node is looked up in the list, and made if there is none. */
  method CountOne(tg: nat, list0: seq<GramCount>, ghost buf: seq<Byte>, ghost glen: nat, ghost i: nat)
    returns (list: seq<GramCount>)
    requires i < Starts(buf, glen) && IsTally(buf, glen, i, list0)
    requires Clean(Window(buf, glen, i)) && tg == Pack(Window(buf, glen, i))
    ensures IsTally(buf, glen, i + 1, list)
  {
    var k := FindNode(tg, list0);
    ghost var gs :| Tally(buf, glen, i, list0, gs);
    TallyOne(buf, glen, i, list0, gs, k);
    if k < |list0| {
      list := list0[k := list0[k].(count := list0[k].count + 1)];
    } else {
      list := [GramCount(tg, 1)] + list0;
    }
  }

  /** The search for the node of a gram. */
  method FindNode(tg: nat, list: seq<GramCount>) returns (k: nat)
    ensures k <= |list| && (k < |list| ==> list[k].trigram == tg)
    ensures forall j :: 0 <= j < k ==> list[j].trigram != tg
  {
    k := 0;
    while k < |list| && list[k].trigram != tg
      invariant k <= |list|
      invariant forall j :: 0 <= j < k ==> list[j].trigram != tg
    {
      k := k + 1;
    }
  }

  // Counting the window at i in the node at k, the first that holds its integer, or in a new one.
  lemma TallyOne(buf: seq<Byte>, glen: nat, i: nat, list: seq<GramCount>, gs: seq<seq<Byte>>, k: nat)
    requires i < Starts(buf, glen) && Tally(buf, glen, i, list, gs) && Clean(Window(buf, glen, i))
    requires k <= |list| && (k < |list| ==> list[k].trigram == Pack(Window(buf, glen, i)))
    requires forall j :: 0 <= j < k ==> list[j].trigram != Pack(Window(buf, glen, i))
    ensures IsTally(buf, glen, i + 1, if k < |list| then list[k := list[k].(count := list[k].count + 1)]
                                      else [GramCount(Pack(Window(buf, glen, i)), 1)] + list)
  {
    if k < |list| {
      PackIsInjective(gs[k], Window(buf, glen, i));
      TallyHit(buf, glen, i, list, gs, k);
    } else {
      TallyNew(buf, glen, i, list, gs);
    }
  }

  // No gram is more frequent, and those that are as frequent turned up before this one did.
  ghost predicate IsBest(buf: seq<Byte>, glen: nat, gram: seq<Byte>, count: nat) {
    |gram| == glen && Clean(gram) && Total(buf, gram) == count &&
    (forall w: seq<Byte> :: |w| == glen ==> Total(buf, w) <= count) &&
    forall w: seq<Byte> :: |w| == glen && w != gram && Total(buf, w) == count ==> Earlier(buf, w, gram)
  }

  /** There is only one of them: the choice of bestgram is determined by the buffer. */
  lemma BestIsUnique(buf: seq<Byte>, glen: nat, g: seq<Byte>, count: nat, h: seq<Byte>, count': nat)
    requires IsBest(buf, glen, g, count) && IsBest(buf, glen, h, count')
    ensures g == h && count == count'
  {
    assert count <= count' <= count;
    if g != h {
      NotBothEarlier(buf, g, h);
    }
  }

  lemma NotBothEarlier(buf: seq<Byte>, g: seq<Byte>, h: seq<Byte>)
    requires |g| == |h|
    ensures !Earlier(buf, g, h) || !Earlier(buf, h, g)
  {
  }

  // The windows of the whole buffer, the last one included.
  function Occurrences(buf: seq<Byte>, g: seq<Byte>): nat {
    if |buf| < |g| then 0 else Count(buf, g, |buf| - |g| + 1)
  }

  /** The scan leaves out the last window: a gram occurs at most once more often than is counted. */
  lemma OccurrencesCounted(buf: seq<Byte>, g: seq<Byte>)
    ensures Total(buf, g) <= Occurrences(buf, g) <= Total(buf, g) + 1
  {
  }

  /** bestgram: the most frequent clean gram of the scanned windows and its count; of several the
      one whose first occurrence comes last. A count of 0 says that no scanned window is clean. */
  method BestGram(buf: array<Byte>, glen: nat) returns (res: nat, count: nat, ghost gram: seq<Byte>)
    requires 1 <= glen <= 4
    ensures count == 0 ==> res == 0
    ensures count > 0 ==> res == Pack(gram) && IsBest(buf[..], glen, gram, count)
    ensures forall w: seq<Byte> :: |w| == glen ==> Total(buf[..], w) <= count
  {
    ghost var was := buf[..];
    var list := CountGrams(buf, glen);
    ghost var gs :| Tally(was, glen, Starts(was, glen), list, gs);
    if list == [] {
      NothingToCount(was, glen, gs);
      return 0, 0, [];
    }
    var best := Greatest(list);
    res, count, gram := list[best].trigram, list[best].count, gs[best];
    forall w: seq<Byte> | |w| == glen
      ensures Total(was, w) <= count
      ensures w != gram && Total(was, w) == count ==> Earlier(was, w, gram)
    {
      TallyKnows(was, glen, list, gs, best, w);
    }
  }

  /** The second loop of bestgram: the first of the largest counts. */
  method Greatest(list: seq<GramCount>) returns (best: nat)
    requires list != []
    ensures best < |list|
    ensures forall j :: 0 <= j < |list| ==> list[j].count <= list[best].count
    ensures forall j :: 0 <= j < best ==> list[j].count < list[best].count
  {
    best := 0;
    var k := 0;
    while k < |list|
      invariant best < |list| && 0 <= k <= |list|
      invariant forall j :: 0 <= j < k ==> list[j].count <= list[best].count
      invariant forall j :: 0 <= j < best ==> list[j].count < list[best].count
    {
      if list[k].count > list[best].count {
        best := k;
      }
      k := k + 1;
    }
  }

  lemma NothingToCount(buf: seq<Byte>, glen: nat, gs: seq<seq<Byte>>)
    requires gs == [] && Complete(buf, glen, Starts(buf, glen), gs)
    ensures forall w: seq<Byte> :: |w| == glen ==> Total(buf, w) == 0
  {
    forall w: seq<Byte> | |w| == glen
      ensures Total(buf, w) == 0
    {
      if |buf| >= glen { CountPositive(buf, w, Starts(buf, glen)); }
    }
  }

  // With the complete list at hand, no gram beats the first of the largest entries.
  lemma TallyKnows(buf: seq<Byte>, glen: nat, list: seq<GramCount>, gs: seq<seq<Byte>>, best: nat, w: seq<Byte>)
    requires Tally(buf, glen, Starts(buf, glen), list, gs) && best < |list| && |w| == glen
    requires forall j :: 0 <= j < |list| ==> list[j].count <= list[best].count
    requires forall j :: 0 <= j < best ==> list[j].count < list[best].count
    ensures Total(buf, w) <= list[best].count
    ensures w != gs[best] && Total(buf, w) == list[best].count ==> Earlier(buf, w, gs[best])
  {
    if Total(buf, w) > 0 {
      CountPositive(buf, w, Starts(buf, glen));
      var q :| 0 <= q < Starts(buf, glen) && Window(buf, glen, q) == w;
      assert w in gs;
      var j :| 0 <= j < |gs| && gs[j] == w;
      assert list[j].count == Total(buf, w);
    }
  }

  /* ---------- removal ---------- */

  predicate Ascii(gram: seq<Byte>) {
    forall t :: 0 <= t < |gram| ==> gram[t] < 128
  }

  // A start that removegram blanks: it holds the gram and no blanked start overlaps it from the
  // left. Bytes above 127 never match, since the gram is compared as signed characters.
  predicate Removed(buf: seq<Byte>, gram: seq<Byte>, i: nat)
    decreases i
  {
    i < Starts(buf, |gram|) && Window(buf, |gram|, i) == gram &&
    Ascii(gram) &&
    forall j :: 0 <= j < i && j > i - |gram| ==> !Removed(buf, gram, j)
  }

  // Cell k lies in a gram blanked at a start below n.
  ghost predicate Covered(buf: seq<Byte>, gram: seq<Byte>, n: nat, k: int) {
    exists s :: 0 <= s < n && s <= k < s + |gram| && Removed(buf, gram, s)
  }

  // What removegram leaves of a buffer.
  ghost predicate RemovalOf(was: seq<Byte>, gram: seq<Byte>, now: seq<Byte>) {
    |now| == |was| &&
    forall k :: 0 <= k < |was| ==> now[k] == if Covered(was, gram, Starts(was, |gram|), k) then BLANK else was[k]
  }

  /** removegram: blanks out the leftmost disjoint occurrences of the gram. */
  method RemoveGram(buf: array<Byte>, gram: seq<Byte>)
    requires gram != []
    modifies buf
    ensures RemovalOf(old(buf[..]), gram, buf[..])
  {
    ghost var was := buf[..];
    var i := 0;
    while i < buf.Length - |gram|
      invariant 0 <= i <= Starts(was, |gram|)
      invariant forall k :: 0 <= k < buf.Length ==> buf[k] == if Covered(was, gram, i, k) then BLANK else was[k]
    {
      var t := 0;
      while t < |gram| && buf[i + t] == Signed(gram[t])
        invariant 0 <= t <= |gram|
        invariant forall p :: i <= p < i + t ==> buf[p] == Signed(gram[p - i])
      {
        t := t + 1;
      }
      MatchIsRemoved(was, buf[..], gram, i, t);
      if t == |gram| {
        var b := 0;
        ghost var mid := buf[..];
        while b < |gram|
          invariant 0 <= b <= |gram|
          invariant forall k :: 0 <= k < buf.Length ==> buf[k] == if i <= k < i + b then BLANK else mid[k]
        {
          buf[i + b] := BLANK;
          b := b + 1;
        }
      }
      i := i + 1;
    }
  }

  // The comparison loop stops past the end exactly at a start to be blanked.
  lemma MatchIsRemoved(was: seq<Byte>, now: seq<Byte>, gram: seq<Byte>, i: nat, t: nat)
    requires gram != [] && i < Starts(was, |gram|) && |now| == |was| && t <= |gram|
    requires forall k :: 0 <= k < |was| ==> now[k] == if Covered(was, gram, i, k) then BLANK else was[k]
    requires forall p :: i <= p < i + t ==> now[p] == Signed(gram[p - i])
    requires t < |gram| ==> now[i + t] != Signed(gram[t])
    ensures t == |gram| <==> Removed(was, gram, i)
  {
    if j :| 0 <= j < i && j > i - |gram| && Removed(was, gram, j) {
      assert !Removed(was, gram, i);
      assert Covered(was, gram, i, i);
      assert now[i] == BLANK;
    } else {
      assert forall k :: i <= k < i + |gram| ==> !Covered(was, gram, i, k);
      assert forall k :: i <= k < i + |gram| ==> now[k] == was[k];
      if t == |gram| {
        assert Window(was, |gram|, i) == gram;
      } else {
        assert Window(was, |gram|, i)[t] == was[i + t];
      }
    }
  }

  /** What is blanked are occurrences of the gram, no two of them overlapping, and every other scanned
      occurrence overlaps one that starts in front of it. */
  lemma RemovedIsDisjoint(was: seq<Byte>, gram: seq<Byte>, now: seq<Byte>)
    requires Ascii(gram) && RemovalOf(was, gram, now)
    ensures forall k :: 0 <= k < |was| && now[k] != was[k] ==>
              exists s :: s <= k < s + |gram| && Blanked(was, gram, now, s) && Removed(was, gram, s)
    ensures forall i: nat, j: nat :: Removed(was, gram, i) && Removed(was, gram, j) && i < j ==> j - i >= |gram|
    ensures forall i :: 0 <= i < |was| - |gram| && was[i..i + |gram|] == gram ==>
              Removed(was, gram, i) || exists j :: i - |gram| < j < i && Blanked(was, gram, now, j)
    ensures forall s: nat :: Removed(was, gram, s) ==> Blanked(was, gram, now, s)
  {
    forall s: nat | Removed(was, gram, s)
      ensures Blanked(was, gram, now, s)
    {
      forall k | s <= k < s + |gram|
        ensures now[k] == 0xff
      {
        assert Covered(was, gram, Starts(was, |gram|), k);
      }
    }
    forall i | 0 <= i < |was| - |gram| && was[i..i + |gram|] == gram && !Removed(was, gram, i)
      ensures exists j :: i - |gram| < j < i && Blanked(was, gram, now, j)
    {
      OverlapsRemoved(was, gram, i);
    }
  }

  // An occurrence of the gram at s is blank now.
  ghost predicate Blanked(was: seq<Byte>, gram: seq<Byte>, now: seq<Byte>, s: int) {
    0 <= s && s + |gram| < |was| == |now| && was[s..s + |gram|] == gram &&
    forall k :: s <= k < s + |gram| ==> now[k] == 0xff
  }

  // now is was with some cells blanked.
  ghost predicate Blanks(was: seq<Byte>, now: seq<Byte>) {
    |now| == |was| && forall k :: 0 <= k < |was| ==> now[k] == was[k] || now[k] == BLANK
  }

  /** Blanking creates no gram: no count grows. */
  lemma {:induction false} BlanksShrinkCounts(was: seq<Byte>, now: seq<Byte>, g: seq<Byte>, n: nat)
    requires Blanks(was, now) && n + |g| <= |was|
    ensures Count(now, g, n) <= Count(was, g, n)
  {
    if n > 0 {
      BlanksShrinkCounts(was, now, g, n - 1);
      var i := n - 1;
      if Clean(g) && Window(now, |g|, i) == g {
        forall t | 0 <= t < |g|
          ensures was[i + t] == g[t]
        {
          assert now[i + t] == Window(now, |g|, i)[t];
          assert g[t] in g;
        }
        assert Window(was, |g|, i) == g;
      }
    }
  }

  /** After removegram no scanned window holds the gram, provided its bytes are below 128;
      otherwise the buffer is left as it was. */
  lemma RemovalErasesGram(was: seq<Byte>, gram: seq<Byte>, now: seq<Byte>)
    requires gram != [] && Clean(gram) && RemovalOf(was, gram, now)
    ensures Blanks(was, now)
    ensures Ascii(gram) ==> Total(now, gram) == 0 && Occurrences(now, gram) <= 1
    ensures !Ascii(gram) ==> now == was
  {
    var n := Starts(was, |gram|);
    if Ascii(gram) {
      forall i | 0 <= i < n
        ensures Window(now, |gram|, i) != gram
      {
        WindowErased(was, gram, now, i);
      }
      if |was| >= |gram| { CountPositive(now, gram, n); }
    } else {
      assert forall i: nat :: !Removed(was, gram, i);
    }
  }

  // An occurrence that is not blanked overlaps one that is.
  lemma OverlapsRemoved(was: seq<Byte>, gram: seq<Byte>, i: nat)
    requires i < Starts(was, |gram|) && Window(was, |gram|, i) == gram && !Removed(was, gram, i)
    requires Ascii(gram)
    ensures exists j :: 0 <= j < i && j > i - |gram| && Removed(was, gram, j)
  {
  }

  lemma WindowErased(was: seq<Byte>, gram: seq<Byte>, now: seq<Byte>, i: nat)
    requires gram != [] && Clean(gram) && RemovalOf(was, gram, now)
    requires Ascii(gram)
    requires i < Starts(was, |gram|)
    ensures Window(now, |gram|, i) != gram
  {
    if Window(now, |gram|, i) == gram {
      assert gram[0] in gram && now[i] == gram[0];
      forall t | 0 <= t < |gram|
        ensures was[i + t] == gram[t]
      {
        assert now[i + t] == Window(now, |gram|, i)[t];
        assert gram[t] in gram;
      }
      assert Window(was, |gram|, i) == gram;
      if !Removed(was, gram, i) {
        OverlapsRemoved(was, gram, i);
      }
      assert Covered(was, gram, Starts(was, |gram|), i);
    }
  }

  // The text being processed is 7-bit, apart from what was blanked.
  ghost predicate AsciiOrBlank(buf: seq<Byte>) {
    forall k :: 0 <= k < |buf| ==> buf[k] < 128 || buf[k] == BLANK
  }

  lemma CleanGramIsAscii(buf: seq<Byte>, g: seq<Byte>)
    requires AsciiOrBlank(buf) && Clean(g) && Total(buf, g) > 0
    ensures Ascii(g)
  {
    CountPositive(buf, g, Starts(buf, |g|));
    var q :| 0 <= q < Starts(buf, |g|) && Window(buf, |g|, q) == g;
    forall t | 0 <= t < |g|
      ensures g[t] < 128
    {
      assert g[t] == buf[q + t] && g[t] in g;
    }
  }

  lemma TotalsShrink(was: seq<Byte>, now: seq<Byte>, w: seq<Byte>)
    requires Blanks(was, now)
    ensures Total(now, w) <= Total(was, w)
  {
    if |w| <= |was| {
      BlanksShrinkCounts(was, now, w, Starts(was, |w|));
    }
  }

  /* ---------- the dictionary ---------- */

  // One round of the dictionary loop: the most frequent gram of the buffer is chosen and removed.
  ghost predicate Round(was: seq<Byte>, now: seq<Byte>, glen: nat, gram: seq<Byte>, count: nat) {
    count >= 2 && IsBest(was, glen, gram, count) && RemovalOf(was, gram, now)
  }

  // Round k takes buffer k to buffer k + 1.
  ghost predicate Rounds(bufs: seq<seq<Byte>>, glen: nat, counts: seq<nat>, grams: seq<seq<Byte>>) {
    glen >= 1 && |bufs| == |grams| + 1 && |counts| == |grams| &&
    forall k :: 0 <= k < |grams| ==> Round(bufs[k], bufs[k + 1], glen, grams[k], counts[k])
  }

  lemma RoundsNext(bufs: seq<seq<Byte>>, glen: nat, counts: seq<nat>, grams: seq<seq<Byte>>, now: seq<Byte>,
                   gram: seq<Byte>, count: nat)
    requires Rounds(bufs, glen, counts, grams) && Round(bufs[|grams|], now, glen, gram, count)
    ensures Rounds(bufs + [now], glen, counts + [count], grams + [gram])
  {
  }

  // From round to round the buffer is only blanked further.
  lemma {:induction false} RoundsBlank(bufs: seq<seq<Byte>>, glen: nat, counts: seq<nat>, grams: seq<seq<Byte>>,
                                       j: nat, k: nat)
    requires Rounds(bufs, glen, counts, grams) && j <= k <= |grams|
    ensures Blanks(bufs[j], bufs[k])
    decreases k
  {
    if j < k {
      RoundsBlank(bufs, glen, counts, grams, j, k - 1);
      assert Round(bufs[k - 1], bufs[k - 1 + 1], glen, grams[k - 1], counts[k - 1]);
      RoundBlanks(bufs[k - 1], bufs[k], glen, grams[k - 1], counts[k - 1]);
      BlanksMore(bufs[j], bufs[k - 1], bufs[k]);
    }
  }

  lemma RoundBlanks(was: seq<Byte>, now: seq<Byte>, glen: nat, gram: seq<Byte>, count: nat)
    requires glen >= 1 && Round(was, now, glen, gram, count)
    ensures Blanks(was, now)
  {
    RemovalErasesGram(was, gram, now);
  }

  lemma BlanksMore(a: seq<Byte>, b: seq<Byte>, c: seq<Byte>)
    requires Blanks(a, b) && Blanks(b, c)
    ensures Blanks(a, c)
  {
  }

  // The chosen grams and their counts: each at least twice in the original buffer, the first
  // one counted exactly, counts in non-increasing order.
  ghost predicate Ranked(orig: seq<Byte>, glen: nat, counts: seq<nat>, grams: seq<seq<Byte>>) {
    |counts| == |grams| &&
    (forall k :: 0 <= k < |grams| ==> |grams[k]| == glen && Clean(grams[k])) &&
    (forall k :: 0 <= k < |grams| ==> 2 <= counts[k] <= Total(orig, grams[k])) &&
    (|grams| > 0 ==> counts[0] == Total(orig, grams[0])) &&
    (forall j, k :: 0 <= j < k < |grams| ==> counts[k] <= counts[j])
  }

  /** The counts never increase, and no gram is counted more often than it occurs in the original. */
  lemma {:induction false} RoundsAreRanked(bufs: seq<seq<Byte>>, glen: nat, counts: seq<nat>, grams: seq<seq<Byte>>)
    requires Rounds(bufs, glen, counts, grams)
    ensures Ranked(bufs[0], glen, counts, grams)
  {
    forall j, k | 0 <= j <= k < |grams|
      ensures counts[k] <= Total(bufs[j], grams[k]) <= counts[j]
    {
      RoundCountsShrink(bufs, glen, counts, grams, j, k);
    }
    forall k | 0 <= k < |grams|
      ensures |grams[k]| == glen && Clean(grams[k]) && 2 <= counts[k] <= Total(bufs[0], grams[k])
    {
      assert Round(bufs[k], bufs[k + 1], glen, grams[k], counts[k]);
    }
  }

  lemma RoundCountsShrink(bufs: seq<seq<Byte>>, glen: nat, counts: seq<nat>, grams: seq<seq<Byte>>, j: nat, k: nat)
    requires Rounds(bufs, glen, counts, grams) && j <= k < |grams|
    ensures counts[k] <= Total(bufs[j], grams[k]) <= counts[j]
  {
    assert Round(bufs[j], bufs[j + 1], glen, grams[j], counts[j]);
    assert Round(bufs[k], bufs[k + 1], glen, grams[k], counts[k]);
    RoundsBlank(bufs, glen, counts, grams, j, k);
    TotalsShrink(bufs[j], bufs[k], grams[k]);
  }

  // A chosen 7-bit gram is gone from then on.
  lemma ChosenIsGone(bufs: seq<seq<Byte>>, glen: nat, counts: seq<nat>, grams: seq<seq<Byte>>, j: nat, k: nat)
    requires Rounds(bufs, glen, counts, grams) && j < |grams| && j < k <= |grams| && Ascii(grams[j])
    ensures Total(bufs[k], grams[j]) == 0
    ensures k < |grams| ==> grams[j] != grams[k]
  {
    assert Round(bufs[j], bufs[j + 1], glen, grams[j], counts[j]);
    RemovalErasesGram(bufs[j], grams[j], bufs[j + 1]);
    RoundsBlank(bufs, glen, counts, grams, j + 1, k);
    TotalsShrink(bufs[j + 1], bufs[k], grams[j]);
    assert k < |grams| ==> Round(bufs[k], bufs[k + 1], glen, grams[k], counts[k]);
  }

  /** Once a chosen gram holds a byte from 128 on, nothing is removed, and every later round chooses
      the same gram again. */
  lemma {:induction false} HighGramRepeats(bufs: seq<seq<Byte>>, glen: nat, counts: seq<nat>, grams: seq<seq<Byte>>,
                                           j: nat, k: nat)
    requires Rounds(bufs, glen, counts, grams) && j <= k <= |grams| && j < |grams| && !Ascii(grams[j])
    ensures bufs[k] == bufs[j]
    ensures k < |grams| ==> grams[k] == grams[j] && counts[k] == counts[j]
    decreases k
  {
    if j < k {
      HighGramRepeats(bufs, glen, counts, grams, j, k - 1);
      assert Round(bufs[k - 1], bufs[k - 1 + 1], glen, grams[k - 1], counts[k - 1]);
      RemovalErasesGram(bufs[k - 1], grams[k - 1], bufs[k]);
      if k < |grams| {
        assert Round(bufs[k], bufs[k + 1], glen, grams[k], counts[k]);
        BestIsUnique(bufs[k], glen, grams[k], counts[k], grams[j], counts[j]);
      }
    }
  }

  /** The entries are pairwise distinct exactly when all of them but the last are 7-bit. */
  lemma {:induction false} DistinctIffAscii(bufs: seq<seq<Byte>>, glen: nat, counts: seq<nat>, grams: seq<seq<Byte>>)
    requires Rounds(bufs, glen, counts, grams)
    ensures (forall j, k :: 0 <= j < k < |grams| ==> grams[j] != grams[k]) <==>
            (forall k :: 0 <= k < |grams| - 1 ==> Ascii(grams[k]))
  {
    if forall k :: 0 <= k < |grams| - 1 ==> Ascii(grams[k]) {
      forall j, k | 0 <= j < k < |grams|
        ensures grams[j] != grams[k]
      {
        ChosenIsGone(bufs, glen, counts, grams, j, k);
      }
    } else {
      var j :| 0 <= j < |grams| - 1 && !Ascii(grams[j]);
      HighGramRepeats(bufs, glen, counts, grams, j, j + 1);
    }
  }

  // The chosen grams are distinct and gone from the buffer.
  ghost predicate Erased(buf: seq<Byte>, grams: seq<seq<Byte>>) {
    (forall k :: 0 <= k < |grams| ==> Total(buf, grams[k]) == 0) &&
    (forall j, k :: 0 <= j < k < |grams| ==> grams[j] != grams[k])
  }

  /** On 7-bit input every chosen gram is, and all of them are distinct and gone at the end. */
  lemma {:induction false} RoundsErase(bufs: seq<seq<Byte>>, glen: nat, counts: seq<nat>, grams: seq<seq<Byte>>)
    requires Rounds(bufs, glen, counts, grams) && AsciiOrBlank(bufs[0])
    ensures Erased(bufs[|grams|], grams)
  {
    forall k | 0 <= k < |grams|
      ensures Ascii(grams[k]) && Total(bufs[|grams|], grams[k]) == 0
    {
      assert Round(bufs[k], bufs[k + 1], glen, grams[k], counts[k]);
      RoundsBlank(bufs, glen, counts, grams, 0, k);
      CleanGramIsAscii(bufs[k], grams[k]);
      ChosenIsGone(bufs, glen, counts, grams, k, |grams|);
    }
    DistinctIffAscii(bufs, glen, counts, grams);
  }

  // Packing keeps distinct grams distinct.
  lemma PackedDistinct(glen: nat, grams: seq<seq<Byte>>, dict: seq<nat>)
    requires |dict| == |grams|
    requires forall k :: 0 <= k < |grams| ==> |grams[k]| == glen && dict[k] == Pack(grams[k])
    requires forall j, k :: 0 <= j < k < |grams| ==> grams[j] != grams[k]
    ensures forall j, k :: 0 <= j < k < |dict| ==> dict[j] != dict[k]
  {
    forall j, k | 0 <= j < k < |dict|
      ensures dict[j] != dict[k]
    {
      if dict[j] == dict[k] { PackIsInjective(grams[j], grams[k]); }
    }
  }

  /** One occurrence can be missed: in "abab" the gram "ab" occurs twice, is counted once, and does not
      get into the dictionary. */
  lemma {:induction false} LastWindowMissed(bufs: seq<seq<Byte>>, counts: seq<nat>, grams: seq<seq<Byte>>)
    requires Rounds(bufs, 2, counts, grams) && bufs[0] == [97, 98, 97, 98]
    ensures grams == [] && Occurrences(bufs[0], [97, 98]) == 2
  {
    var buf := bufs[0];
    assert Window(buf, 2, 0) == [97, 98] && Window(buf, 2, 1) == [98, 97] && Window(buf, 2, 2) == [97, 98];
    if grams != [] {
      assert Round(bufs[0], bufs[1], 2, grams[0], counts[0]);
      CountOfTwo(buf, grams[0]);
    }
    CountOfTwo(buf, [97, 98]);
    assert Occurrences(buf, [97, 98]) == Count(buf, [97, 98], 2) + 1;
  }

  lemma CountOfTwo(buf: seq<Byte>, g: seq<Byte>)
    requires |buf| == 4 && |g| == 2 && Clean(g)
    ensures Total(buf, g) == (if Window(buf, 2, 0) == g then 1 else 0) + (if Window(buf, 2, 1) == g then 1 else 0)
  {
    assert Count(buf, g, 1) == (if Window(buf, 2, 0) == g then 1 else 0);
    assert Count(buf, g, 2) == Count(buf, g, 1) + (if Window(buf, 2, 1) == g then 1 else 0);
  }

  /** Four bytes of value 0xE9 are enough to fill a dictionary with them: a loop that has ended has
      chosen that byte 128 times. */
  lemma {:induction false} HighByteFills(bufs: seq<seq<Byte>>, counts: seq<nat>, grams: seq<seq<Byte>>)
    requires Rounds(bufs, 1, counts, grams) && bufs[0] == [0xE9, 0xE9, 0xE9, 0xE9] && |grams| <= MAXGRAMS
    requires |grams| < MAXGRAMS ==> forall w: seq<Byte> :: |w| == 1 ==> Total(bufs[|grams|], w) < 2
    ensures |grams| == MAXGRAMS && forall k :: 0 <= k < |grams| ==> grams[k] == [0xE9]
  {
    var buf, g: seq<Byte> := bufs[0], [0xE9];
    assert Window(buf, 1, 0) == g && Window(buf, 1, 1) == g && Window(buf, 1, 2) == g;
    assert Count(buf, g, 1) == 1 && Count(buf, g, 2) == 2;
    assert Total(buf, g) >= 2;
    assert Round(bufs[0], bufs[1], 1, grams[0], counts[0]);
    CountPositive(buf, grams[0], 3);
    var q :| 0 <= q < 3 && Window(buf, 1, q) == grams[0];
    assert grams[0] == g && g[0] == 0xE9;
    HighGramFills(bufs, 1, counts, grams, 0);
  }

  /** The dictionary loop of main: at most 128 grams, each the most frequent of what is left of the
      buffer in its round, over the scanned windows; the loop stops early only when no gram is
      counted twice in them. The counts never increase. On 7-bit input the grams are pairwise
      distinct and none is left in the scanned windows; a gram that is not 7-bit fills the rest of a
      dictionary of 128 entries. */
  method BuildDict(buf: array<Byte>, glen: nat)
    returns (dict: seq<nat>, counts: seq<nat>, ghost grams: seq<seq<Byte>>, ghost bufs: seq<seq<Byte>>)
    requires 1 <= glen <= 4
    modifies buf
    ensures |dict| == |grams| <= MAXGRAMS && forall k :: 0 <= k < |dict| ==> dict[k] == Pack(grams[k])
    ensures Rounds(bufs, glen, counts, grams) && bufs[0] == old(buf[..]) && bufs[|grams|] == buf[..]
    ensures |dict| < MAXGRAMS ==> forall w: seq<Byte> :: |w| == glen ==> Total(buf[..], w) < 2
    ensures Ranked(old(buf[..]), glen, counts, grams) && Blanks(old(buf[..]), buf[..])
    ensures AsciiOrBlank(old(buf[..])) ==>
              Erased(buf[..], grams) && forall j, k :: 0 <= j < k < |dict| ==> dict[j] != dict[k]
    ensures forall j :: 0 <= j < |grams| && !Ascii(grams[j]) ==>
              |dict| == MAXGRAMS && forall k :: j <= k < |grams| ==> grams[k] == grams[j]
  {
    var sgr := new Byte[5];
    dict, counts, grams, bufs := [], [], [], [buf[..]];
    while |dict| < MAXGRAMS
      invariant |dict| == |grams| <= MAXGRAMS && forall k :: 0 <= k < |dict| ==> dict[k] == Pack(grams[k])
      invariant Rounds(bufs, glen, counts, grams) && bufs[0] == old(buf[..]) && bufs[|grams|] == buf[..]
    {
      var gram, gramcount, g := BestGram(buf, glen);
      if gramcount < 2 { break; }
      Sgram(sgr, gram, glen, g);
      RemoveGram(buf, sgr[..glen]);
      RoundsNext(bufs, glen, counts, grams, buf[..], g, gramcount);
      dict := dict + [gram];
      counts := counts + [gramcount];
      grams, bufs := grams + [g], bufs + [buf[..]];
    }
    WhatTheRoundsGive(bufs, glen, dict, counts, grams);
  }

  // The consequences of the rounds, for a loop that has ended.
  lemma WhatTheRoundsGive(bufs: seq<seq<Byte>>, glen: nat, dict: seq<nat>, counts: seq<nat>, grams: seq<seq<Byte>>)
    requires Rounds(bufs, glen, counts, grams) && |dict| == |grams|
    requires forall k :: 0 <= k < |dict| ==> dict[k] == Pack(grams[k])
    requires |dict| < MAXGRAMS ==> forall w: seq<Byte> :: |w| == glen ==> Total(bufs[|grams|], w) < 2
    ensures Ranked(bufs[0], glen, counts, grams) && Blanks(bufs[0], bufs[|grams|])
    ensures AsciiOrBlank(bufs[0]) ==>
              Erased(bufs[|grams|], grams) && forall j, k :: 0 <= j < k < |dict| ==> dict[j] != dict[k]
    ensures forall j :: 0 <= j < |grams| && !Ascii(grams[j]) ==>
              |dict| >= MAXGRAMS && forall k :: j <= k < |grams| ==> grams[k] == grams[j]
  {
    RoundsAreRanked(bufs, glen, counts, grams);
    RoundsBlank(bufs, glen, counts, grams, 0, |grams|);
    if AsciiOrBlank(bufs[0]) {
      RoundsErase(bufs, glen, counts, grams);
      PackedDistinct(glen, grams, dict);
    }
    forall j | 0 <= j < |grams| && !Ascii(grams[j])
      ensures |dict| >= MAXGRAMS && forall k :: j <= k < |grams| ==> grams[k] == grams[j]
    {
      HighGramFills(bufs, glen, counts, grams, j);
    }
  }

  lemma HighGramFills(bufs: seq<seq<Byte>>, glen: nat, counts: seq<nat>, grams: seq<seq<Byte>>, j: nat)
    requires Rounds(bufs, glen, counts, grams) && j < |grams| && !Ascii(grams[j])
    ensures Total(bufs[|grams|], grams[j]) >= 2 && |grams[j]| == glen
    ensures forall k :: j <= k < |grams| ==> grams[k] == grams[j]
  {
    assert Round(bufs[j], bufs[j + 1], glen, grams[j], counts[j]);
    HighGramRepeats(bufs, glen, counts, grams, j, |grams|);
    forall k | j <= k < |grams|
      ensures grams[k] == grams[j]
    {
      HighGramRepeats(bufs, glen, counts, grams, j, k);
    }
  }
}
