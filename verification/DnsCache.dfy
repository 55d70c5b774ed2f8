/** dnscache.c: a table of 16 slots with expiry and replacement of the oldest slot. The clock is
    an explicit input. */
module DnsCache {
  import opened CStrings

  const MAXENTRIES := 16
  const MAXHOSTLEN := 31
  const CACHETIME := 120

  datatype Entry = Entry(host: string, addr: string, inserttime: int) {
    predicate Used() { inserttime > 0 }
    function Key(): string { Fold(host) }
  }

  const EMPTY := Entry("", "", 0)

  /* ---------- the log of additions ---------- */

  ghost predicate NonDecreasing(log: seq<Entry>) {
    (forall i :: 0 <= i < |log| ==> log[i].Used()) &&
    forall i, j :: 0 <= i < j < |log| ==> log[i].inserttime <= log[j].inserttime
  }

  ghost predicate Increasing(log: seq<Entry>) {
    (forall i :: 0 <= i < |log| ==> log[i].Used()) &&
    forall i, j :: 0 <= i < j < |log| ==> log[i].inserttime < log[j].inserttime
  }

  // The latest addition of a host.
  function Latest(log: seq<Entry>, key: string): Option<Entry> {
    if log == [] then None
    else if log[|log| - 1].Key() == key then Some(log[|log| - 1])
    else Latest(log[..|log| - 1], key)
  }

  // The hosts added after the latest addition of a host.
  function Newer(log: seq<Entry>, key: string): set<string> {
    if log == [] || log[|log| - 1].Key() == key then {}
    else Newer(log[..|log| - 1], key) + {log[|log| - 1].Key()}
  }

  // What a lookup should find: the host is among the 16 most recently added distinct hosts and
  // its latest addition is at most 120 seconds old.
  function Expected(log: seq<Entry>, host: string, now: int): Option<string> {
    match Latest(log, Fold(host))
    case None => None
    case Some(e) =>
      if |Newer(log, Fold(host))| < MAXENTRIES && now - e.inserttime <= CACHETIME then Some(e.addr) else None
  }

  /* ---------- the distinct hosts by recency ---------- */

  function Without(m: seq<Entry>, key: string): seq<Entry> {
    if m == [] then [] else (if m[0].Key() == key then [] else [m[0]]) + Without(m[1..], key)
  }

  // The latest addition of every host, the most recent host first.
  function Recent(log: seq<Entry>): seq<Entry> {
    if log == [] then []
    else [log[|log| - 1]] + Without(Recent(log[..|log| - 1]), log[|log| - 1].Key())
  }

  function Top(m: seq<Entry>): seq<Entry> {
    if |m| <= MAXENTRIES then m else m[..MAXENTRIES]
  }

  ghost predicate DistinctKeys(m: seq<Entry>) {
    forall i, j :: 0 <= i < j < |m| ==> m[i].Key() != m[j].Key()
  }

  function Keys(m: seq<Entry>): set<string> {
    set i | 0 <= i < |m| :: m[i].Key()
  }

  lemma {:induction false} WithoutAbsent(m: seq<Entry>, key: string)
    requires forall i :: 0 <= i < |m| ==> m[i].Key() != key
    ensures Without(m, key) == m
  {
    if m != [] {
      WithoutAbsent(m[1..], key);
    }
  }

  lemma {:induction false} WithoutAt(m: seq<Entry>, p: nat)
    requires DistinctKeys(m) && p < |m|
    ensures Without(m, m[p].Key()) == m[..p] + m[p + 1..]
  {
    if p == 0 {
      WithoutAbsent(m[1..], m[0].Key());
    } else {
      WithoutAt(m[1..], p - 1);
      assert m[0].Key() != m[p].Key();
      assert [m[0]] + (m[1..][..p - 1] + m[1..][p..]) == m[..p] + m[p + 1..];
    }
  }

  function TakenOut(t: seq<Entry>, q: nat): seq<Entry>
    requires q <= |t|
  {
    t[..q] + (if q < |t| then t[q + 1..] else [])
  }

  // t with the entry at position q taken out, if there is one, and e put in front.
  function Replaced(t: seq<Entry>, q: nat, e: Entry): seq<Entry>
    requires q <= |t|
  {
    [e] + TakenOut(t, q)
  }

  // p is the place of a host in the list, or its length.
  ghost predicate IsPlace(m: seq<Entry>, key: string, p: nat) {
    p <= |m| && (p < |m| ==> m[p].Key() == key) && forall i :: 0 <= i < |m| && i != p ==> m[i].Key() != key
  }

  lemma WithoutIsTakenOut(m: seq<Entry>, key: string) returns (p: nat)
    requires DistinctKeys(m)
    ensures IsPlace(m, key, p) && Without(m, key) == TakenOut(m, p)
  {
    if i :| 0 <= i < |m| && m[i].Key() == key {
      p := i;
      WithoutAt(m, p);
    } else {
      p := |m|;
      WithoutAbsent(m, key);
      assert m[..p] + [] == m;
    }
  }

  // Moving a host to the front: where everything goes.
  lemma RecentStep(log: seq<Entry>, e: Entry) returns (p: nat)
    requires DistinctKeys(Recent(log))
    ensures IsPlace(Recent(log), e.Key(), p) && Recent(log + [e]) == Replaced(Recent(log), p, e)
  {
    assert (log + [e])[..|log|] == log;
    p := WithoutIsTakenOut(Recent(log), e.Key());
  }

  // What is at each place afterwards.
  lemma ReplacedAt(m: seq<Entry>, p: nat, e: Entry, r: nat)
    requires p <= |m| && r < |Replaced(m, p, e)|
    ensures if r == 0 then Replaced(m, p, e)[r] == e
            else (var q := if r <= p then r - 1 else r; q < |m| && q != p && Replaced(m, p, e)[r] == m[q])
  {
  }

  lemma {:induction false} RecentDistinct(log: seq<Entry>)
    ensures DistinctKeys(Recent(log))
  {
    if log != [] {
      var front, e := log[..|log| - 1], log[|log| - 1];
      RecentDistinct(front);
      var p := RecentStep(front, e);
      assert front + [e] == log;
      ReplacedDistinct(Recent(front), p, e);
    }
  }

  lemma ReplacedDistinct(m: seq<Entry>, p: nat, e: Entry)
    requires DistinctKeys(m) && IsPlace(m, e.Key(), p)
    ensures DistinctKeys(Replaced(m, p, e))
  {
    var m' := Replaced(m, p, e);
    forall i, j | 0 <= i < j < |m'|
      ensures m'[i].Key() != m'[j].Key()
    {
      ReplacedAt(m, p, e, i);
      ReplacedAt(m, p, e, j);
    }
  }

  // The list of a log, from the list of the log without its last addition.
  lemma RecentLast(log: seq<Entry>) returns (p: nat)
    requires log != []
    ensures DistinctKeys(Recent(log[..|log| - 1]))
    ensures IsPlace(Recent(log[..|log| - 1]), log[|log| - 1].Key(), p)
    ensures Recent(log) == Replaced(Recent(log[..|log| - 1]), p, log[|log| - 1])
  {
    var front, e := log[..|log| - 1], log[|log| - 1];
    RecentDistinct(front);
    p := RecentStep(front, e);
    assert front + [e] == log;
  }

  // Entry r of the list is the latest addition of its host, and exactly the hosts of the entries
  // in front of it have been added since.
  ghost predicate RankedAt(log: seq<Entry>, m: seq<Entry>, r: nat)
    requires r < |m|
  {
    Latest(log, m[r].Key()) == Some(m[r]) && Newer(log, m[r].Key()) == Keys(m[..r])
  }

  lemma RankedStep(front: seq<Entry>, e: Entry, m: seq<Entry>, p: nat, r: nat)
    requires DistinctKeys(m) && IsPlace(m, e.Key(), p) && r < |Replaced(m, p, e)|
    requires forall q :: 0 <= q < |m| ==> RankedAt(front, m, q)
    ensures RankedAt(front + [e], Replaced(m, p, e), r)
  {
    var m' := Replaced(m, p, e);
    assert (front + [e])[..|front|] == front;
    ReplacedAt(m, p, e, r);
    if r == 0 {
      assert m'[..0] == [];
    } else {
      var q := if r <= p then r - 1 else r;
      assert RankedAt(front, m, q);
      RankStep(m, m', e, p, r);
    }
  }

  /** The recency list read against the log: entry r is the latest addition of its host and
      exactly r distinct hosts have been added since. */
  lemma {:induction false} RecentRank(log: seq<Entry>)
    ensures forall r :: 0 <= r < |Recent(log)| ==> RankedAt(log, Recent(log), r)
  {
    if log != [] {
      var front, e := log[..|log| - 1], log[|log| - 1];
      RecentRank(front);
      var p := RecentLast(log);
      assert front + [e] == log;
      forall r | 0 <= r < |Recent(log)|
        ensures RankedAt(log, Recent(log), r)
      {
        RankedStep(front, e, Recent(front), p, r);
      }
    }
  }

  /** Every host of the log is listed. */
  lemma {:induction false} LatestIsListed(log: seq<Entry>, key: string) returns (r: nat)
    requires Latest(log, key).Some?
    ensures r < |Recent(log)| && Recent(log)[r] == Latest(log, key).value && Recent(log)[r].Key() == key
  {
    var front, e := log[..|log| - 1], log[|log| - 1];
    var p := RecentLast(log);
    if e.Key() == key {
      ReplacedAt(Recent(front), p, e, 0);
      return 0;
    }
    var q := LatestIsListed(front, key);
    r := if q < p then q + 1 else q;
    ReplacedAt(Recent(front), p, e, r);
  }

  lemma KeyIn(m: seq<Entry>, i: nat, n: nat)
    requires i < n <= |m|
    ensures m[i].Key() in Keys(m[..n])
  {
    assert m[..n][i] == m[i];
  }

  // The hosts in front of place r, once e has moved to the front.
  lemma RankStep(m: seq<Entry>, m': seq<Entry>, e: Entry, p: nat, r: nat)
    requires IsPlace(m, e.Key(), p) && m' == Replaced(m, p, e) && 0 < r < |m'|
    ensures Keys(m'[..r]) == Keys(m[..if r <= p then r - 1 else r]) + {e.Key()}
  {
    var q := if r <= p then r - 1 else r;
    forall i | 0 <= i < q
      ensures m[i].Key() in Keys(m'[..r])
    {
      OldKeyStays(m, m', e, p, r, i);
    }
    forall i | 0 <= i < r
      ensures m'[i].Key() in Keys(m[..q]) + {e.Key()}
    {
      ReplacedAt(m, p, e, i);
      if i > 0 { KeyIn(m, if i <= p then i - 1 else i, q); }
    }
    KeyIn(m', 0, r);
  }

  lemma OldKeyStays(m: seq<Entry>, m': seq<Entry>, e: Entry, p: nat, r: nat, i: nat)
    requires IsPlace(m, e.Key(), p) && m' == Replaced(m, p, e) && 0 < r < |m'|
    requires i < if r <= p then r - 1 else r
    ensures m[i].Key() in Keys(m'[..r])
  {
    var j := if i < p then i + 1 else if i == p then 0 else i;
    ReplacedAt(m, p, e, j);
    KeyIn(m', j, r);
  }

  lemma {:induction false} DistinctCount(m: seq<Entry>)
    requires DistinctKeys(m)
    ensures |Keys(m)| == |m|
  {
    if m != [] {
      var n := |m| - 1;
      DistinctCount(m[..n]);
      assert Keys(m) == Keys(m[..n]) + {m[n].Key()};
      assert m[n].Key() !in Keys(m[..n]);
    }
  }

  lemma NewerIsRank(log: seq<Entry>, r: nat)
    requires r < |Recent(log)|
    ensures Latest(log, Recent(log)[r].Key()) == Some(Recent(log)[r])
    ensures |Newer(log, Recent(log)[r].Key())| == r
  {
    RecentRank(log);
    assert RankedAt(log, Recent(log), r);
    RecentDistinct(log);
    DistinctCount(Recent(log)[..r]);
  }

  /** The sixteen most recent hosts are those with fewer than sixteen newer ones. */
  lemma TopIsFewNewer(log: seq<Entry>, key: string)
    requires Latest(log, key).Some?
    ensures Latest(log, key).value.Key() == key
    ensures Latest(log, key).value in Top(Recent(log)) <==> |Newer(log, key)| < MAXENTRIES
  {
    var r := LatestIsListed(log, key);
    NewerIsRank(log, r);
    RecentDistinct(log);
    InTop(Recent(log), r);
  }

  lemma InTop(m: seq<Entry>, r: nat)
    requires DistinctKeys(m) && r < |m|
    ensures m[r] in Top(m) <==> r < MAXENTRIES
  {
    if r < MAXENTRIES {
      assert Top(m)[r] == m[r];
    } else {
      assert forall i :: 0 <= i < |Top(m)| ==> Top(m)[i] == m[i];
    }
  }

  /* ---------- the table ---------- */

  // No host in two used slots, and every used slot is the latest addition of its host.
  ghost predicate Safe(table: seq<Entry>, log: seq<Entry>) {
    (forall i, j :: 0 <= i < j < |table| && table[i].Used() && table[j].Used() ==> table[i].Key() != table[j].Key()) &&
    (forall i :: 0 <= i < |table| && table[i].Used() ==> Latest(log, table[i].Key()) == Some(table[i])) &&
    (forall i :: 0 <= i < |table| && !table[i].Used() ==> table[i] == EMPTY)
  }

  function CountUsed(table: seq<Entry>): nat {
    if table == [] then 0 else CountUsed(table[1..]) + (if table[0].Used() then 1 else 0)
  }

  // The slot dnscache_add overwrites: the used one with the same host, or else the first of
  // those with the smallest time.
  ghost predicate IsVictim(table: seq<Entry>, key: string, k: nat) {
    k < |table| &&
    if exists i :: 0 <= i < |table| && table[i].Used() && table[i].Key() == key then
      table[k].Used() && table[k].Key() == key
    else
      (forall i :: 0 <= i < |table| ==> table[k].inserttime <= table[i].inserttime) &&
      (forall i :: 0 <= i < k ==> table[k].inserttime < table[i].inserttime)
  }

  lemma {:induction false} CountUpdate(table: seq<Entry>, k: nat, e: Entry)
    requires k < |table| && e.Used()
    ensures CountUsed(table[k := e]) == CountUsed(table) + (if table[k].Used() then 0 else 1)
  {
    if k == 0 {
      assert table[k := e][1..] == table[1..];
    } else {
      CountUpdate(table[1..], k - 1, e);
      assert table[k := e][1..] == table[1..][k - 1 := e];
    }
  }

  lemma {:induction false} CountFull(table: seq<Entry>)
    ensures CountUsed(table) <= |table|
    ensures CountUsed(table) == |table| <==> forall i :: 0 <= i < |table| ==> table[i].Used()
  {
    if table != [] {
      CountFull(table[1..]);
      assert forall i :: 1 <= i < |table| ==> table[i] == table[1..][i - 1];
    }
  }

  /** Additions with non-decreasing times keep the table safe. */
  lemma AddKeepsSafe(table: seq<Entry>, log: seq<Entry>, e: Entry, k: nat)
    requires Safe(table, log) && IsVictim(table, e.Key(), k) && e.Used()
    ensures Safe(table[k := e], log + [e])
  {
    assert (log + [e])[..|log|] == log;
    var table' := table[k := e];
    forall i | 0 <= i < |table| && i != k && table[i].Used()
      ensures table[i].Key() != e.Key()
    {
    }
  }

  // The times run backwards.
  ghost predicate Backwards(m: seq<Entry>) {
    (forall i :: 0 <= i < |m| ==> m[i].Used()) &&
    forall i, j :: 0 <= i < j < |m| ==> m[j].inserttime < m[i].inserttime
  }

  ghost predicate NotAfter(m: seq<Entry>, t: int) {
    forall i :: 0 <= i < |m| ==> m[i].inserttime <= t
  }

  lemma ReplacedBackwards(m: seq<Entry>, p: nat, e: Entry, t: int)
    requires Backwards(m) && NotAfter(m, t) && p <= |m| && e.Used() && t < e.inserttime
    ensures Backwards(Replaced(m, p, e)) && NotAfter(Replaced(m, p, e), e.inserttime)
  {
    var m' := Replaced(m, p, e);
    forall i, j | 0 <= i < j < |m'|
      ensures m'[j].inserttime < m'[i].inserttime
    {
      ReplacedAt(m, p, e, i);
      ReplacedAt(m, p, e, j);
    }
    forall i | 0 <= i < |m'|
      ensures m'[i].Used() && m'[i].inserttime <= e.inserttime
    {
      ReplacedAt(m, p, e, i);
    }
  }

  // With increasing times the recency list runs backwards in time.
  lemma {:induction false} RecentTimes(log: seq<Entry>)
    requires Increasing(log)
    ensures Backwards(Recent(log)) && NotAfter(Recent(log), if log == [] then 0 else log[|log| - 1].inserttime)
  {
    if log != [] {
      var front, e := log[..|log| - 1], log[|log| - 1];
      RecentTimes(front);
      var p := RecentLast(log);
      ReplacedBackwards(Recent(front), p, e, if front == [] then 0 else front[|front| - 1].inserttime);
    }
  }

  // The used slots of the table are the entries of t.
  ghost predicate Holds(table: seq<Entry>, t: seq<Entry>) {
    CountUsed(table) == |t| &&
    (forall i :: 0 <= i < |table| && table[i].Used() ==> table[i] in t) &&
    (forall r :: 0 <= r < |t| ==> t[r] in table)
  }

  lemma TopOfReplaced(m: seq<Entry>, p: nat, e: Entry)
    requires p <= |m|
    ensures var t := Top(m);
            var q := if p < |t| then p else if |t| < MAXENTRIES then |t| else MAXENTRIES - 1;
            Top(Replaced(m, p, e)) == Replaced(t, q, e)
  {
  }

  // Equal times do not matter to this addition: the host is listed, or there is room, or the least
  // recent host is older than all others.
  ghost predicate TieFree(t: seq<Entry>, key: string) {
    |t| < MAXENTRIES || (exists i :: 0 <= i < |t| && t[i].Key() == key) ||
    forall i :: 0 <= i < |t| - 1 ==> t[|t| - 1].inserttime < t[i].inserttime
  }

  // Equal times have not mattered to any addition.
  ghost predicate TiesApart(log: seq<Entry>) {
    log == [] ||
    (TiesApart(log[..|log| - 1]) && TieFree(Top(Recent(log[..|log| - 1])), log[|log| - 1].Key()))
  }

  ghost predicate AllUsed(t: seq<Entry>) {
    forall i :: 0 <= i < |t| ==> t[i].Used()
  }

  // Where the overwritten slot is found in t.
  lemma VictimPlace(table: seq<Entry>, t: seq<Entry>, key: string, k: nat) returns (q: nat)
    requires |table| == MAXENTRIES && Holds(table, t) && DistinctKeys(t) && AllUsed(t) && IsVictim(table, key, k)
    requires TieFree(t, key) && forall i :: 0 <= i < |table| && !table[i].Used() ==> table[i] == EMPTY
    ensures q <= |t| && (table[k].Used() <==> q < |t|) && (q < |t| ==> t[q] == table[k])
    ensures if exists i :: 0 <= i < |t| && t[i].Key() == key then q < |t| && t[q].Key() == key
            else q == if |t| < MAXENTRIES then |t| else MAXENTRIES - 1
  {
    CountFull(table);
    if i :| 0 <= i < |t| && t[i].Key() == key {
      assert t[i] in table;
    }
    if table[k].Used() {
      assert table[k] in t;
      q :| 0 <= q < |t| && t[q] == table[k];
      if forall i :: 0 <= i < |t| ==> t[i].Key() != key {
        assert |t| == MAXENTRIES;
        assert t[MAXENTRIES - 1] in table;
      }
    } else {
      q := |t|;
    }
  }

  lemma UsedInReplaced(table: seq<Entry>, t: seq<Entry>, e: Entry, k: nat, q: nat, i: nat)
    requires k < |table| && q <= |t| && (q < |t| ==> t[q] == table[k] && table[k].Used())
    requires i < |table| && i != k && table[i].Used() && table[i] in t
    requires table[k].Used() ==> table[i].Key() != table[k].Key()
    ensures table[i] in Replaced(t, q, e)
  {
    var r :| 0 <= r < |t| && t[r] == table[i];
    assert Replaced(t, q, e)[if r < q then r + 1 else r] == t[r];
  }

  lemma ReplacedInTable(table: seq<Entry>, t: seq<Entry>, e: Entry, k: nat, q: nat, r: nat)
    requires k < |table| && DistinctKeys(t) && (forall i :: 0 <= i < |t| ==> t[i] in table && t[i].Used())
    requires q <= |t| && (table[k].Used() ==> q < |t|) && (q < |t| ==> t[q] == table[k])
    requires r < |Replaced(t, q, e)|
    ensures Replaced(t, q, e)[r] in table[k := e]
  {
    if r == 0 {
      assert table[k := e][k] == e;
    } else {
      var x := if r <= q then r - 1 else r;
      assert Replaced(t, q, e)[r] == t[x] && t[x] in table;
      var i :| 0 <= i < |table| && table[i] == t[x];
      assert i != k;
      assert table[k := e][i] == t[x];
    }
  }

  lemma HoldsReplaced(table: seq<Entry>, t: seq<Entry>, e: Entry, k: nat, q: nat)
    requires k < |table| && Holds(table, t) && DistinctKeys(t) && AllUsed(t) && e.Used()
    requires forall i, j :: 0 <= i < j < |table| && table[i].Used() && table[j].Used() ==>
               table[i].Key() != table[j].Key()
    requires q <= |t| && (table[k].Used() <==> q < |t|) && (q < |t| ==> t[q] == table[k])
    ensures Holds(table[k := e], Replaced(t, q, e))
  {
    CountUpdate(table, k, e);
    assert Replaced(t, q, e)[0] == e;
    forall i: nat | i < |table| && i != k && table[i].Used()
      ensures table[i] in Replaced(t, q, e)
    {
      UsedInReplaced(table, t, e, k, q, i);
    }
    forall r | 0 <= r < |Replaced(t, q, e)|
      ensures Replaced(t, q, e)[r] in table[k := e]
    {
      ReplacedInTable(table, t, e, k, q, r);
    }
  }

  lemma {:induction false} RecentUsed(log: seq<Entry>)
    requires AllUsed(log)
    ensures AllUsed(Recent(log))
  {
    if log != [] {
      var front, e := log[..|log| - 1], log[|log| - 1];
      RecentUsed(front);
      var p := RecentLast(log);
      forall r | 0 <= r < |Recent(log)|
        ensures Recent(log)[r].Used()
      {
        ReplacedAt(Recent(front), p, e, r);
      }
    }
  }

  lemma TopDistinct(log: seq<Entry>)
    requires AllUsed(log)
    ensures DistinctKeys(Top(Recent(log))) && AllUsed(Top(Recent(log)))
  {
    RecentDistinct(log);
    RecentUsed(log);
  }

  /** An addition to which equal times do not matter keeps the table equal to the sixteen most recent
      hosts. */
  lemma AddKeepsTop(table: seq<Entry>, log: seq<Entry>, e: Entry, k: nat)
    requires |table| == MAXENTRIES && Safe(table, log) && Holds(table, Top(Recent(log)))
    requires AllUsed(log) && TieFree(Top(Recent(log)), e.Key()) && e.Used() && IsVictim(table, e.Key(), k)
    ensures Holds(table[k := e], Top(Recent(log + [e])))
  {
    var m := Recent(log);
    RecentDistinct(log);
    TopDistinct(log);
    var p := RecentStep(log, e);
    TopOfReplaced(m, p, e);
    var q := VictimPlace(table, Top(m), e.Key(), k);
    PlacesAgree(m, p, q, e.Key());
    HoldsReplaced(table, Top(m), e, k, q);
  }

  // A new host at the front pushes the sixteenth out.
  lemma TopOfNew(log: seq<Entry>, e: Entry)
    requires |Recent(log)| >= MAXENTRIES
    requires forall i :: 0 <= i < |Top(Recent(log))| ==> Top(Recent(log))[i].Key() != e.Key()
    ensures Top(Recent(log + [e])) == Replaced(Top(Recent(log)), MAXENTRIES - 1, e)
  {
    var m := Recent(log);
    RecentDistinct(log);
    var p := RecentStep(log, e);
    TopOfReplaced(m, p, e);
    assert forall i :: 0 <= i < |Top(m)| ==> Top(m)[i] == m[i];
  }

  /** When a new host comes to a full table, the table goes on holding the sixteen most recent hosts
      exactly when the slot chosen is that of the least recent one. */
  lemma {:induction false} SlotDecides(table: seq<Entry>, log: seq<Entry>, e: Entry, k: nat)
    requires |table| == MAXENTRIES && Safe(table, log) && Holds(table, Top(Recent(log)))
    requires AllUsed(log) && e.Used() && k < |table| && |Recent(log)| >= MAXENTRIES
    requires forall i :: 0 <= i < MAXENTRIES ==> Top(Recent(log))[i].Key() != e.Key()
    ensures Holds(table[k := e], Top(Recent(log + [e]))) <==> table[k] == Top(Recent(log))[MAXENTRIES - 1]
  {
    var t := Top(Recent(log));
    TopDistinct(log);
    TopOfNew(log, e);
    CountFull(table);
    assert table[k] in t;
    var q :| 0 <= q < |t| && t[q] == table[k];
    if q == MAXENTRIES - 1 {
      HoldsReplaced(table, t, e, k, q);
    } else {
      assert Replaced(t, MAXENTRIES - 1, e)[q + 1] == t[q];
      NotInTable(table, e, k, t[q]);
    }
  }

  lemma NotInTable(table: seq<Entry>, e: Entry, k: nat, gone: Entry)
    requires k < |table| && table[k] == gone && gone.Used() && e.Key() != gone.Key()
    requires forall i, j :: 0 <= i < j < |table| && table[i].Used() && table[j].Used() ==>
               table[i].Key() != table[j].Key()
    ensures gone !in table[k := e]
  {
  }

  // Increasing times keep ties apart.
  lemma {:induction false} IncreasingIsApart(log: seq<Entry>)
    requires Increasing(log)
    ensures TiesApart(log)
  {
    if log != [] {
      var front := log[..|log| - 1];
      IncreasingIsApart(front);
      RecentTimes(front);
    }
  }

  /** Additions within one second can lose a host that is still wanted: with all slots filled at one
      time, two more hosts added at that time both go to slot 0, and the first of them is gone,
      although it is the second most recent. */
  lemma {:induction false} TieLosesNewest(table: seq<Entry>, log: seq<Entry>, a: Entry, b: Entry, k: nat, j: nat,
                                          host: string, now: int)
    requires |table| == MAXENTRIES && a.Used() && a.inserttime == b.inserttime && a.Key() != b.Key()
    requires forall i :: 0 <= i < |table| ==> table[i].inserttime == a.inserttime
    requires forall i :: 0 <= i < |table| ==> table[i].Key() != a.Key() && table[i].Key() != b.Key()
    requires IsVictim(table, a.Key(), k) && IsVictim(table[k := a], b.Key(), j)
    requires Fold(host) == a.Key() && now - a.inserttime <= CACHETIME
    ensures k == j == 0
    ensures forall x :: x in table[k := a][j := b] ==> x.Key() != a.Key()
    ensures Expected((log + [a]) + [b], host, now) == Some(a.addr)
  {
    var table', log1 := table[k := a], log + [a];
    var log2 := log1 + [b];
    assert table[0].inserttime == table[k].inserttime && table'[0].inserttime == table'[j].inserttime;
    assert log2[..|log2| - 1] == log1 && log2[|log2| - 1] == b && log1[|log1| - 1] == a;
    assert Latest(log2, a.Key()) == Latest(log1, a.Key()) == Some(a);
    assert Newer(log2, a.Key()) == {} + {b.Key()};
  }

  lemma PlacesAgree(m: seq<Entry>, p: nat, q: nat, key: string)
    requires DistinctKeys(m) && IsPlace(m, key, p)
    requires var t := Top(m);
             if exists i :: 0 <= i < |t| && t[i].Key() == key then q < |t| && t[q].Key() == key
             else q == if |t| < MAXENTRIES then |t| else MAXENTRIES - 1
    ensures q == if p < |Top(m)| then p else if |Top(m)| < MAXENTRIES then |Top(m)| else MAXENTRIES - 1
  {
    assert forall i :: 0 <= i < |Top(m)| ==> Top(m)[i] == m[i];
    if p < |Top(m)| {
      assert Top(m)[p].Key() == key;
    }
  }

  /* ---------- the operations ---------- */

  class Cache {
    const table: array<Entry>
    ghost var log: seq<Entry>

    ghost predicate Valid()
      reads this, table
    {
      table.Length == MAXENTRIES && NonDecreasing(log) && Safe(table[..], log) &&
      (TiesApart(log) ==> Holds(table[..], Top(Recent(log))))
    }

    constructor ()
      ensures Valid() && log == [] && fresh(table)
      ensures forall i :: 0 <= i < table.Length ==> table[i] == EMPTY
    {
      table := new Entry[MAXENTRIES](_ => EMPTY);
      log := [];
      new;
      CountFull(table[..]);
      NoneUsed(table[..]);
    }

    /** dnscache_ask. The answer is exact when equal times have not mattered to any addition, as they
        do not at increasing times; at non-decreasing ones a hit is still the latest addition of that
        host and at most 120 seconds old. */
    method Ask(host: string, now: int) returns (ipaddr: Option<string>)
      requires Valid()
      ensures TiesApart(log) && now > CACHETIME ==> ipaddr == Expected(log, host, now)
      ensures Increasing(log) && now > CACHETIME ==> ipaddr == Expected(log, host, now)
      ensures ipaddr.Some? && (now > CACHETIME || host != "") ==>
                Latest(log, Fold(host)).Some? && Latest(log, Fold(host)).value.addr == ipaddr.value &&
                now - Latest(log, Fold(host)).value.inserttime <= CACHETIME
    {
      if Increasing(log) { IncreasingIsApart(log); }
      var oldlimit := now - CACHETIME;
      var x := 0;
      while x < MAXENTRIES
        invariant 0 <= x <= MAXENTRIES
        invariant forall i :: 0 <= i < x ==> table[i].inserttime < oldlimit || !SameNoCase(host, table[i].host)
      {
        if table[x].inserttime >= oldlimit {
          if SameNoCase(host, table[x].host) {
            if now > CACHETIME || host != "" {
              HitIsLatest(table[..], log, host, now, x);
            }
            return Some(table[x].addr);
          }
        }
        x := x + 1;
      }
      MissIsExpected(table[..], log, host, now);
      return None;
    }

    /** dnscache_add. */
    method Add(host: string, ipaddr: string, now: int)
      requires Valid() && |ipaddr| < 64
      requires now > 0 && (log != [] ==> log[|log| - 1].inserttime <= now)
      modifies this, table
      ensures Valid()
      ensures |host| > MAXHOSTLEN ==> log == old(log) && table[..] == old(table[..])
      ensures |host| <= MAXHOSTLEN ==>
                log == old(log) + [Entry(host, ipaddr, now)] &&
                exists k: nat :: IsVictim(old(table[..]), Fold(host), k) &&
                  table[..] == old(table[..])[k := Entry(host, ipaddr, now)]
    {
      if |host| > MAXHOSTLEN { return; }
      var oldest := FindSlot(host);
      ghost var was, e := table[..], Entry(host, ipaddr, now);
      AddKeepsTable(was, log, e, oldest);
      table[oldest] := Entry(host, ipaddr, now);
      assert table[..] == was[oldest := e];
      log := log + [e];
    }

    /** The search loop of dnscache_add. */
    method FindSlot(host: string) returns (oldest: nat)
      requires table.Length == MAXENTRIES
      ensures IsVictim(table[..], Fold(host), oldest)
    {
      oldest := 0;
      var x := 0;
      while x < MAXENTRIES
        invariant 0 <= x <= MAXENTRIES && oldest < MAXENTRIES && (oldest < x || x == 0 == oldest)
        invariant forall i :: 0 <= i < x ==> !(table[i].Used() && table[i].Key() == Fold(host))
        invariant forall i :: 0 <= i < x ==> table[oldest].inserttime <= table[i].inserttime
        invariant forall i :: 0 <= i < oldest ==> table[oldest].inserttime < table[i].inserttime
      {
        if table[x].inserttime < table[oldest].inserttime { oldest := x; }
        if table[x].inserttime > 0 {
          if SameNoCase(table[x].host, host) {
            assert table[..][x] == table[x];
            return x;
          }
        }
        x := x + 1;
      }
    }
  }

  // What an addition keeps of the table.
  lemma {:induction false} AddKeepsTable(table: seq<Entry>, log: seq<Entry>, e: Entry, k: nat)
    requires |table| == MAXENTRIES && Safe(table, log) && IsVictim(table, e.Key(), k)
    requires TiesApart(log) ==> Holds(table, Top(Recent(log)))
    requires NonDecreasing(log) && e.Used() && (log != [] ==> log[|log| - 1].inserttime <= e.inserttime)
    ensures NonDecreasing(log + [e]) && Safe(table[k := e], log + [e])
    ensures TiesApart(log + [e]) ==> Holds(table[k := e], Top(Recent(log + [e])))
  {
    AddKeepsSafe(table, log, e, k);
    assert (log + [e])[..|log|] == log;
    if TiesApart(log + [e]) {
      AddKeepsTop(table, log, e, k);
    }
  }

  lemma {:induction false} NoneUsed(table: seq<Entry>)
    requires forall i :: 0 <= i < |table| ==> !table[i].Used()
    ensures CountUsed(table) == 0
  {
    if table != [] {
      NoneUsed(table[1..]);
    }
  }

  lemma HitIsLatest(table: seq<Entry>, log: seq<Entry>, host: string, now: int, x: nat)
    requires |table| == MAXENTRIES && Safe(table, log) && NonDecreasing(log)
    requires TiesApart(log) ==> Holds(table, Top(Recent(log)))
    requires x < |table| && table[x].Key() == Fold(host) && table[x].inserttime >= now - CACHETIME
    requires now > CACHETIME || host != ""
    ensures Latest(log, Fold(host)) == Some(table[x])
    ensures TiesApart(log) ==> Expected(log, host, now) == Some(table[x].addr)
  {
    assert table[x] == EMPTY ==> |Fold(host)| == 0;
    if TiesApart(log) {
      TopIsFewNewer(log, Fold(host));
    }
  }

  lemma MissIsExpected(table: seq<Entry>, log: seq<Entry>, host: string, now: int)
    requires |table| == MAXENTRIES && Safe(table, log) && NonDecreasing(log)
    requires TiesApart(log) ==> Holds(table, Top(Recent(log)))
    requires forall i :: 0 <= i < |table| ==> table[i].inserttime < now - CACHETIME || !SameNoCase(host, table[i].host)
    ensures TiesApart(log) ==> Expected(log, host, now) == None
  {
    if TiesApart(log) && Latest(log, Fold(host)).Some? {
      TopIsFewNewer(log, Fold(host));
      var e := Latest(log, Fold(host)).value;
      if e in Top(Recent(log)) {
        assert e in table;
      }
    }
  }

  // Addition k is the latest one of a host.
  ghost predicate LatestAt(log: seq<Entry>, host: string, k: int) {
    0 <= k < |log| && LooksLike(log[k].host, host) && forall j :: k < j < |log| ==> !LooksLike(log[j].host, host)
  }

  /** What is expected, on the log of additions: the address of the host's latest addition, unless it is
      more than two minutes old or 16 other hosts have been added since. */
  lemma {:induction false} ExpectedIs(log: seq<Entry>, host: string, now: int, k: int)
    requires LatestAt(log, host, k)
    ensures Expected(log, host, now) ==
            if |set j | k < j < |log| :: Fold(log[j].host)| < 16 && now - log[k].inserttime <= 120
            then Some(log[k].addr) else None
  {
    LatestIs(log, host, k);
  }

  lemma {:induction false} LatestIs(log: seq<Entry>, host: string, k: int)
    requires LatestAt(log, host, k)
    ensures Latest(log, Fold(host)) == Some(log[k])
    ensures Newer(log, Fold(host)) == set j | k < j < |log| :: Fold(log[j].host)
  {
    var n := |log| - 1;
    SameNoCaseIs(log[n].host, host);
    if k < n {
      LatestIs(log[..n], host, k);
      assert (set j | k < j < |log| :: Fold(log[j].host)) ==
             (set j | k < j < n :: Fold(log[..n][j].host)) + {Fold(log[n].host)};
    }
  }

  /** A host that was never added is not found. */
  lemma {:induction false} NeverAdded(log: seq<Entry>, host: string, now: int)
    requires forall k :: 0 <= k < |log| ==> !LooksLike(log[k].host, host)
    ensures Latest(log, Fold(host)) == None && Expected(log, host, now) == None
  {
    if log != [] {
      SameNoCaseIs(log[|log| - 1].host, host);
      NeverAdded(log[..|log| - 1], host, now);
    }
  }

  /** A host that has just been added is found in any case, for two minutes. */
  lemma FoundInAnyCase(log: seq<Entry>, e: Entry, host: string, now: int)
    requires |host| == |e.host| && forall k :: 0 <= k < |host| ==> Alike(host[k], e.host[k])
    ensures Expected(log + [e], host, now) == if now - e.inserttime <= 120 then Some(e.addr) else None
  {
    SameNoCaseIs(host, e.host);
  }

  /** The case of the name asked for does not matter. */
  lemma {:induction false} CaseDoesNotMatter(log: seq<Entry>, a: string, b: string, now: int)
    requires |a| == |b| && forall k :: 0 <= k < |a| ==> Alike(a[k], b[k])
    ensures Expected(log, a, now) == Expected(log, b, now)
  {
    SameNoCaseIs(a, b);
  }
}
