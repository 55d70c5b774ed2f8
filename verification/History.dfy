/** history.c: the stack of visited pages, a linked list of nodes with cached contents. */
module History {
  import opened CStrings

  const MAXALLOWEDCACHE := 1024 * 1024 * 2
  const PAGEBUFSZ := 1024 * 1024

  const QUERYMSG :=
    "3Query not in cache\ni\niThis location is not available in the local cache. Gopherus is not reissuing " +
    "custom queries automatically. If you wish to force a reload, press F5.\n"

  datatype Location = Location(protocol: int, host: string, port: int, itemtype: char, selector: string) {
    // Pages below a '#' host are embedded in the program.
    predicate Embedded() { host != "" && host[0] == '#' }
    predicate Query() { itemtype == '7' }
  }

  // The comparison history_push makes.
  predicate SameLocation(a: Location, b: Location) {
    a.protocol == b.protocol && SameNoCase(a.host, b.host) && a.port == b.port &&
    a.itemtype == b.itemtype && a.selector == b.selector
  }

  // The value of a history node; cache is None for a null pointer.
  datatype Page = Page(loc: Location, cache: Option<string>, cachesize: int, display: (int, int)) {
    predicate Ok() {
      cachesize == match cache case None => 0 case Some(data) => |data|
    }

    function Drop(): Page { this.(cache := None, cachesize := 0) }
  }

  /** Locations are the same when protocol, port, item type and selector are equal and the hosts differ
      at most in the case of ASCII letters. */
  lemma SameLocationIs(a: Location, b: Location)
    ensures SameLocation(a, b) <==>
            a == b.(host := a.host) && |a.host| == |b.host| &&
            forall k :: 0 <= k < |a.host| ==> Alike(a.host[k], b.host[k])
  {
    SameNoCaseIs(a.host, b.host);
  }

  function NewPage(loc: Location): Page {
    Page(loc, None, 0, (-1, -1))
  }

  // What going back to a page does: a query that is no longer cached gets a message instead.
  function Revisit(page: Page): (r: Page)
    ensures page.Ok() ==> r.Ok()
    ensures r.loc == page.loc && r.display == page.display && (page.cache.Some? ==> r == page)
    ensures r.loc.Query() ==> r.cache.Some?
  {
    if page.loc.Query() && page.cache.None? then page.(cache := Some(QUERYMSG), cachesize := |QUERYMSG|) else page
  }

  function Popped(pages: seq<Page>): seq<Page> {
    if |pages| <= 1 then [] else [Revisit(pages[1])] + pages[2..]
  }

  // The location is that of the previous page: pushing it is going back.
  predicate GoesBack(pages: seq<Page>, loc: Location) {
    |pages| >= 2 && SameLocation(loc, pages[1].loc)
  }

  function Pushed(pages: seq<Page>, loc: Location): seq<Page> {
    if GoesBack(pages, loc) then Popped(pages) else [NewPage(loc)] + pages
  }

  /** Going back takes the top page away. What comes up is as it was, unless it is a query without a
      cache. */
  lemma PopLaws(pages: seq<Page>)
    requires |pages| >= 2
    ensures var r := Popped(pages);
            |r| == |pages| - 1 && r[0].loc == pages[1].loc && r[0].display == pages[1].display &&
            (pages[1].cache.Some? || pages[1].loc.itemtype != '7' ==> r[0] == pages[1]) &&
            forall k :: 1 <= k < |r| ==> r[k] == pages[k + 1]
  {
  }

  /** A new location comes on top, without a cache and not displayed yet, of what was there. */
  lemma PushLaws(pages: seq<Page>, loc: Location)
    requires |pages| < 2 || !SameLocation(loc, pages[1].loc)
    ensures var r := Pushed(pages, loc);
            |r| == |pages| + 1 && r[0] == Page(loc, None, 0, (-1, -1)) &&
            forall k :: 1 <= k < |r| ==> r[k] == pages[k - 1]
  {
  }

  function Total(pages: seq<Page>): int {
    if pages == [] then 0 else Total(pages[..|pages| - 1]) + pages[|pages| - 1].cachesize
  }

  lemma TotalNext(pages: seq<Page>, i: nat)
    requires i < |pages|
    ensures Total(pages[..i + 1]) == Total(pages[..i]) + pages[i].cachesize
  {
    assert pages[..i + 1][..i] == pages[..i];
  }

  // The cleaner keeps the cache of page i.
  predicate Keeps(pages: seq<Page>, i: nat)
    requires i < |pages|
  {
    !pages[i].loc.Embedded() && Total(pages[..i + 1]) <= MAXALLOWEDCACHE
  }

  function CleanedPage(pages: seq<Page>, i: nat): Page
    requires i < |pages|
  {
    if Keeps(pages, i) then pages[i] else pages[i].Drop()
  }

  function Cleaned(pages: seq<Page>): seq<Page> {
    seq(|pages|, i requires 0 <= i < |pages| => CleanedPage(pages, i))
  }

  /** The cleaner keeps a page as it is when the host does not begin with '#' and the sizes down to it
      are within two megabytes, and drops its cache otherwise; all else stays. */
  lemma CleanedIs(pages: seq<Page>, i: nat)
    requires i < |pages|
    ensures |Cleaned(pages)| == |pages|
    ensures Cleaned(pages)[i] ==
            if (pages[i].loc.host == "" || pages[i].loc.host[0] != '#') && Total(pages[..i + 1]) <= 2097152
            then pages[i] else Page(pages[i].loc, None, 0, pages[i].display)
  {
  }

  // The first i pages have been cleaned.
  ghost predicate CleanedTo(was: seq<Page>, pages: seq<Page>, i: nat) {
    i <= |was| == |pages| && (forall k :: 0 <= k < i ==> pages[k] == CleanedPage(was, k)) &&
    forall k :: i <= k < |was| ==> pages[k] == was[k]
  }

  lemma CleanNext(was: seq<Page>, pages: seq<Page>, i: nat)
    requires CleanedTo(was, pages, i) && i < |was|
    ensures var total := Total(was[..i]) + was[i].cachesize;
            total == Total(was[..i + 1]) && pages[i] == was[i] &&
            var dropped := total > MAXALLOWEDCACHE || was[i].loc.Embedded();
            CleanedTo(was, if dropped then pages[i := pages[i].Drop()] else pages, i + 1)
  {
    TotalNext(was, i);
  }

  /* ---------- no location comes back two pages later ---------- */

  // No page has the location of the page two below it.
  ghost predicate NoAba(pages: seq<Page>) {
    forall i :: 0 <= i < |pages| - 2 ==> !SameLocation(pages[i].loc, pages[i + 2].loc)
  }

  lemma SameLocsKeepAba(was: seq<Page>, now: seq<Page>)
    requires NoAba(was) && |was| == |now| && forall k :: 0 <= k < |was| ==> now[k].loc == was[k].loc
    ensures NoAba(now)
  {
  }

  lemma PoppedNoAba(pages: seq<Page>)
    requires NoAba(pages)
    ensures NoAba(Popped(pages))
  {
    var t := Popped(pages);
    forall i | 0 <= i < |t| - 2
      ensures !SameLocation(t[i].loc, t[i + 2].loc)
    {
      assert t[i].loc == pages[i + 1].loc && t[i + 2] == pages[i + 3];
    }
  }

  lemma PushedNoAba(pages: seq<Page>, loc: Location)
    requires NoAba(pages)
    ensures NoAba(Pushed(pages, loc))
  {
    if GoesBack(pages, loc) {
      PoppedNoAba(pages);
    } else {
      var t := Pushed(pages, loc);
      forall i | 0 <= i < |t| - 2
        ensures !SameLocation(t[i].loc, t[i + 2].loc)
      {
        assert t[i + 2] == pages[i + 1] && (i > 0 ==> t[i] == pages[i - 1]);
      }
    }
  }

  // Everything the program does to its history; the last three concern the top page.
  datatype Op = Push(loc: Location) | Pop | CleanUp | Store(data: string) | Remember(display: (int, int)) | Refresh

  function Applied(pages: seq<Page>, op: Op): seq<Page> {
    match op
    case Push(loc) => Pushed(pages, loc)
    case Pop => Popped(pages)
    case CleanUp => Cleaned(pages)
    case Store(data) => if pages == [] then [] else pages[0 := pages[0].(cache := Some(data), cachesize := |data|)]
    case Remember(display) => if pages == [] then [] else pages[0 := pages[0].(display := display)]
    case Refresh => if pages == [] then [] else pages[0 := NewPage(pages[0].loc)]
  }

  function AppliedAll(ops: seq<Op>): seq<Page> {
    if ops == [] then [] else Applied(AppliedAll(ops[..|ops| - 1]), ops[|ops| - 1])
  }

  /** In every sequence of operations on the history, in any order, no page has the location of the
      page two below it. */
  lemma {:induction false} NeverAba(ops: seq<Op>)
    ensures NoAba(AppliedAll(ops))
  {
    if ops != [] {
      var pages, op := AppliedAll(ops[..|ops| - 1]), ops[|ops| - 1];
      NeverAba(ops[..|ops| - 1]);
      if op.Push? {
        PushedNoAba(pages, op.loc);
      } else if op.Pop? {
        PoppedNoAba(pages);
      } else {
        SameLocsKeepAba(pages, Applied(pages, op));
      }
    }
  }

  /* ---------- the linked list ---------- */

  class Node {
    const loc: Location
    var cache: Option<string>
    var cachesize: int
    var display: (int, int)
    var next: Node?

    constructor (loc: Location, next: Node?)
      ensures this.loc == loc && this.next == next && Value() == NewPage(loc)
    {
      this.loc, this.next := loc, next;
      cache, cachesize, display := None, 0, (-1, -1);
    }

    ghost function Value(): Page
      reads this
    {
      Page(loc, cache, cachesize, display)
    }
  }

  function NodeAt(spine: seq<Node>, i: nat): Node? {
    if i < |spine| then spine[i] else null
  }

  // The nodes reached from top are those of the spine, each once.
  ghost predicate Linked(top: Node?, spine: seq<Node>)
    reads spine
  {
    top == NodeAt(spine, 0) &&
    (forall i, j :: 0 <= i < j < |spine| ==> spine[i] != spine[j]) &&
    (forall i :: 0 <= i < |spine| ==> spine[i].next == NodeAt(spine, i + 1))
  }

  // The nodes of the spine hold the given pages.
  ghost predicate Holds(spine: seq<Node>, pages: seq<Page>)
    reads spine
  {
    |spine| == |pages| && forall i :: 0 <= i < |spine| ==> spine[i].Value() == pages[i] && pages[i].Ok()
  }

  lemma LinkedTail(spine: seq<Node>, pages: seq<Page>)
    requires spine != [] && Linked(spine[0], spine) && Holds(spine, pages)
    ensures Linked(spine[0].next, spine[1..]) && Holds(spine[1..], pages[1..])
  {
    var tail := spine[1..];
    assert forall i :: 0 <= i < |tail| ==> tail[i] == spine[i + 1];
  }

  lemma LinkedCons(node: Node, spine: seq<Node>, pages: seq<Page>)
    requires node !in spine && Linked(node.next, spine) && Holds(spine, pages) && node.Value().Ok()
    ensures Linked(node, [node] + spine) && Holds([node] + spine, [node.Value()] + pages)
  {
    var all := [node] + spine;
    assert forall i :: 1 <= i < |all| ==> all[i] == spine[i - 1];
  }

  class Stack {
    var history: Node?
    ghost var spine: seq<Node>
    ghost var pages: seq<Page>

    ghost predicate Valid()
      reads this, spine
    {
      Linked(history, spine) && Holds(spine, pages)
    }

    constructor ()
      ensures Valid() && pages == [] && spine == []
    {
      history, spine, pages := null, [], [];
    }

    /** Taking the top node off the list. */
    method Unlink()
      requires Valid() && spine != []
      modifies this
      ensures Valid() && pages == old(pages)[1..] && spine == old(spine)[1..]
    {
      LinkedTail(spine, pages);
      history := history.next;
      spine, pages := spine[1..], pages[1..];
    }

    /** history_pop */
    method Pop()
      requires Valid()
      modifies this, spine
      ensures Valid() && pages == Popped(old(pages))
      ensures spine == if old(spine) == [] then [] else old(spine)[1..]
    {
      if history != null { Unlink(); }
      if history == null { return; }
      RestoreQuery();
    }

    /** The end of history_pop: a query that is no longer cached gets the message. */
    method RestoreQuery()
      requires Valid() && spine != []
      modifies this`pages, spine[0]
      ensures Valid() && spine == old(spine) && pages == old(pages)[0 := Revisit(old(pages)[0])]
    {
      assert history.Value() == pages[0];
      if history.loc.itemtype == '7' && history.cache == None {
        history.cachesize := |QUERYMSG|;
        history.cache := Some(QUERYMSG);
        pages := pages[0 := Revisit(pages[0])];
      } else {
        assert pages == pages[0 := Revisit(pages[0])];
      }
    }

    /** The test of the shortcut: the location is that of the previous position. */
    method IsPrevious(loc: Location) returns (back: bool)
      requires Valid()
      ensures back <==> GoesBack(pages, loc)
    {
      if history == null || history.next == null { return false; }
      assert |spine| > 1 && history.next == spine[1] && spine[1].Value() == pages[1];
      var previous := history.next.loc;
      back := false;
      if loc.protocol == previous.protocol {
        if SameNoCase(loc.host, previous.host) {
          if loc.port == previous.port {
            if loc.itemtype == previous.itemtype {
              if loc.selector == previous.selector { back := true; }
            }
          }
        }
      }
    }

    /** history_push */
    method Push(loc: Location)
      requires Valid()
      modifies this, spine
      ensures Valid() && pages == Pushed(old(pages), loc)
      ensures if GoesBack(old(pages), loc) then spine == old(spine)[1..]
              else |spine| == |old(spine)| + 1 && fresh(spine[0]) && spine[1..] == old(spine)
      ensures forall k :: 0 <= k < |spine| ==> spine[k] in old(spine) || fresh(spine[k])
    {
      var back := IsPrevious(loc);
      if back {
        Pop();
        return;
      }
      var node := new Node(loc, history);
      LinkedCons(node, spine, pages);
      history := node;
      spine, pages := [node] + spine, [NewPage(loc)] + pages;
    }

    /** history_cleanupcache */
    method CleanupCache()
      requires Valid()
      modifies this`pages, spine
      ensures Valid() && pages == Cleaned(old(pages)) && spine == old(spine)
    {
      ghost var was := pages;
      var totalcache := 0;
      var h := history;
      ghost var i := 0;
      while h != null
        invariant CleanedTo(was, pages, i) && totalcache == Total(was[..i])
        invariant Valid() && spine == old(spine) && h == NodeAt(spine, i)
        decreases |spine| - i
      {
        CleanNext(was, pages, i);
        assert h.Value() == pages[i] && h.next == NodeAt(spine, i + 1);
        totalcache := totalcache + h.cachesize;
        if totalcache > MAXALLOWEDCACHE || (h.loc.host != "" && h.loc.host[0] == '#') {
          Evict(h, i);
        }
        h := h.next;
        i := i + 1;
      }
      assert pages == Cleaned(was);
    }

    /** The cleaner dropping the cache of one node. */
    method Evict(node: Node, ghost i: nat)
      requires Valid() && i < |spine| && spine[i] == node
      modifies this`pages, node
      ensures Valid() && spine == old(spine) && pages == old(pages)[i := old(pages)[i].Drop()]
      ensures node.next == old(node.next)
    {
      if node.cache != None {
        node.cache := None;
        node.cachesize := 0;
      }
      pages := pages[i := pages[i].Drop()];
    }

    /** history_clear */
    method Clear()
      requires Valid()
      modifies this
      ensures Valid() && pages == [] && history == null
    {
      while history != null
        invariant Valid()
        decreases |spine|
      {
        Unlink();
      }
    }

    /** What the main loop looks at in the top node. */
    method Top() returns (itemtype: char, cached: bool)
      requires Valid() && pages != []
      ensures itemtype == pages[0].loc.itemtype && (cached <==> pages[0].cache.Some?)
    {
      assert history.Value() == pages[0];
      itemtype, cached := history.loc.itemtype, history.cache != None;
    }

    /** The main loop storing a loaded page in the top node. */
    method Store(data: string)
      requires Valid() && spine != []
      modifies this`pages, spine[0]
      ensures Valid() && spine == old(spine)
      ensures pages == old(pages)[0 := old(pages)[0].(cache := Some(data), cachesize := |data|)]
    {
      history.cache := Some(data);
      history.cachesize := |data|;
      pages := pages[0 := pages[0].(cache := Some(data), cachesize := |data|)];
    }

    /** The display code remembering the scroll position in the top node. */
    method Remember(display: (int, int))
      requires Valid() && spine != []
      modifies this`pages, spine[0]
      ensures Valid() && spine == old(spine)
      ensures pages == old(pages)[0 := old(pages)[0].(display := display)]
    {
      history.display := display;
      pages := pages[0 := pages[0].(display := display)];
    }

    /** The main loop on a refresh order. */
    method Refresh()
      requires Valid() && spine != []
      modifies this`pages, spine[0]
      ensures Valid() && spine == old(spine)
      ensures pages == old(pages)[0 := NewPage(old(pages)[0].loc)]
    {
      history.cache := None;
      history.cachesize := 0;
      history.display := (-1, -1);
      pages := pages[0 := NewPage(pages[0].loc)];
    }
  }
}
