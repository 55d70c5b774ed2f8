/** The main loop of gopherus.c (1879-1957) as steps over an abstract loader and abstract
    display code. */
module Browser {
  import opened CStrings
  import opened History

  const WELCOME := Location(1, "#welcome", 70, '1', "")

  // The item types the program displays itself; anything else is offered for download.
  predicate Displayable(itemtype: char) {
    itemtype == '0' || itemtype == '1' || itemtype == '7' || itemtype == 'h'
  }

  // What the display code returns with: a new location was pushed, or an order was given.
  datatype Action = Visit(loc: Location) | Back | Refresh | Quit

  // The loop is about to look at the top page, or the top page is on screen.
  datatype Phase = LoopTop | OnScreen | Stopped

  datatype Event =
    | NewNode(loc: Location) // a push that was not a way back
    | WentBack // a pop, or a push of the previous location
    | Fetch(loc: Location) // the loader is called for the page to be displayed
    | Reload(loc: Location) // an explicit refresh
    | Other

  datatype State = State(pages: seq<Page>, phase: Phase, log: seq<Event>)

  // load is what the loader returns when asked (None for a failure), display the scroll
  // position the display code leaves behind, action how it returns.
  datatype Input = Input(load: Option<string>, display: (int, int), action: Action)

  predicate LoaderOk(i: Input) {
    i.load.Some? ==> |i.load.value| <= PAGEBUFSZ
  }

  function PushTo(s: State, loc: Location): State {
    State(Pushed(s.pages, loc), LoopTop, s.log + [if GoesBack(s.pages, loc) then WentBack else NewNode(loc)])
  }

  function PopFrom(s: State): State {
    State(Popped(s.pages), LoopTop, s.log + [WentBack])
  }

  // A page cached on top once the cleaner has run.
  function Stored(pages: seq<Page>, data: string): seq<Page>
    requires pages != []
  {
    var kept := Cleaned(pages);
    kept[0 := kept[0].(cache := Some(data), cachesize := |data|)]
  }

  // The page to be displayed has just been fetched.
  function Loaded(s: State, load: Option<string>): State
    requires s.pages != []
  {
    var t := s.(log := s.log + [Fetch(s.pages[0].loc)]);
    match load
    case None => PopFrom(t)
    case Some(data) =>
      State(Stored(s.pages, data), OnScreen, t.log + [Other])
  }

  // The display code returns with an order.
  function Ordered(s: State, action: Action): State
    requires s.pages != []
  {
    match action
    case Visit(loc) => PushTo(s, loc)
    case Back => PopFrom(s)
    case Refresh => State(s.pages[0 := NewPage(s.pages[0].loc)], LoopTop, s.log + [Reload(s.pages[0].loc)])
    case Quit => s.(phase := Stopped)
  }

  // One step of the loop. Going round with an empty history pushes the welcome page.
  function Step(s: State, i: Input): State {
    match s.phase
    case Stopped => s
    case LoopTop =>
      if s.pages == [] then PushTo(s, WELCOME)
      else if !Displayable(s.pages[0].loc.itemtype) then PopFrom(s)
      else if s.pages[0].cache.None? then Loaded(s, i.load)
      else s.(phase := OnScreen, log := s.log + [Other])
    case OnScreen =>
      if s.pages == [] then s else
      var shown := s.(pages := s.pages[0 := s.pages[0].(display := i.display)]);
      Ordered(shown, i.action)
  }

  function Run(s: State, inputs: seq<Input>): State {
    if inputs == [] then s else Step(Run(s, inputs[..|inputs| - 1]), inputs[|inputs| - 1])
  }

  // The program starts with no history, or with the location given on the command line.
  function Start(url: Option<Location>): State {
    match url
    case None => State([], LoopTop, [])
    case Some(loc) => State([NewPage(loc)], LoopTop, [NewNode(loc)])
  }

  /* ---------- what every run keeps ---------- */

  ghost predicate Sized(pages: seq<Page>) {
    forall i :: 0 <= i < |pages| ==> pages[i].Ok() && pages[i].cachesize <= PAGEBUFSZ
  }

  // Below the top page the caches are within the limit; or the top page is a node just pushed,
  // without a cache, on top of such a stack whose top page is cached.
  ghost predicate Budget(pages: seq<Page>) {
    pages == [] || Total(pages[1..]) <= MAXALLOWEDCACHE ||
    (|pages| >= 2 && pages[0].cache.None? && pages[1].cache.Some? && Total(pages[2..]) <= MAXALLOWEDCACHE)
  }

  ghost predicate Settled(pages: seq<Page>) {
    pages != [] && pages[0].cache.Some? && Total(pages[1..]) <= MAXALLOWEDCACHE
  }

  // A query without a cache can only be on top when it was just pushed or refreshed.
  ghost predicate FreshQuery(s: State) {
    s.phase == LoopTop && s.pages != [] && s.pages[0].loc.Query() && s.pages[0].cache.None? ==>
      s.log != [] && (s.log[|s.log| - 1] == NewNode(s.pages[0].loc) || s.log[|s.log| - 1] == Reload(s.pages[0].loc))
  }

  // Every fetch of a query follows its push as a new node or its refresh.
  ghost predicate QueriesFresh(log: seq<Event>) {
    forall k :: 0 <= k < |log| && log[k].Fetch? && log[k].loc.Query() ==>
      k > 0 && (log[k - 1] == NewNode(log[k].loc) || log[k - 1] == Reload(log[k].loc))
  }

  ghost predicate Inv(s: State) {
    Sized(s.pages) && Budget(s.pages) && NoAba(s.pages) &&
    (s.phase == OnScreen ==> Settled(s.pages)) &&
    FreshQuery(s) && QueriesFresh(s.log)
  }

  lemma {:induction false} TotalFront(pages: seq<Page>)
    requires pages != []
    ensures Total(pages) == pages[0].cachesize + Total(pages[1..])
  {
    var n := |pages| - 1;
    if n > 0 {
      TotalFront(pages[..n]);
      assert pages[..n][1..] == pages[1..][..n - 1];
    }
  }

  lemma {:induction false} TotalNonNegative(pages: seq<Page>)
    requires Sized(pages)
    ensures 0 <= Total(pages)
  {
    if pages != [] {
      TotalNonNegative(pages[..|pages| - 1]);
    }
  }

  /** The cleaner's bound: what it keeps is within the limit, and never more than there was. */
  lemma {:induction false} CleanedTotal(pages: seq<Page>, n: nat)
    requires Sized(pages) && n <= |pages|
    ensures Total(Cleaned(pages)[..n]) <= Total(pages[..n]) && Total(Cleaned(pages)[..n]) <= MAXALLOWEDCACHE
  {
    if n > 0 {
      CleanedTotal(pages, n - 1);
      TotalNext(pages, n - 1);
      TotalNext(Cleaned(pages), n - 1);
    }
  }

  lemma PopBudget(pages: seq<Page>)
    requires Sized(pages) && Budget(pages)
    ensures Sized(Popped(pages)) && Budget(Popped(pages))
    ensures Popped(pages) != [] ==> Total(Popped(pages)[1..]) <= MAXALLOWEDCACHE
  {
    if |pages| >= 2 {
      assert Popped(pages)[1..] == pages[2..];
      assert pages[1..][1..] == pages[2..];
      TotalFront(pages[1..]);
    }
  }

  lemma PopKeeps(s: State)
    requires Inv(s)
    ensures Inv(PopFrom(s))
  {
    PopBudget(s.pages);
    PoppedNoAba(s.pages);
    LogKeeps(s.log, WentBack);
  }

  lemma LogKeeps(log: seq<Event>, e: Event)
    requires QueriesFresh(log)
    requires e.Fetch? && e.loc.Query() ==>
               log != [] && (log[|log| - 1] == NewNode(e.loc) || log[|log| - 1] == Reload(e.loc))
    ensures QueriesFresh(log + [e])
  {
  }

  // Pushing from a displayed page, or on an empty history.
  lemma PushKeeps(s: State, loc: Location)
    requires Inv(s) && (Settled(s.pages) || s.pages == [])
    ensures Inv(PushTo(s, loc))
  {
    if GoesBack(s.pages, loc) {
      PopKeeps(s);
    } else {
      var t := Pushed(s.pages, loc);
      assert t[1..] == s.pages;
      if s.pages != [] {
        assert t[2..] == s.pages[1..];
      }
      PushedNoAba(s.pages, loc);
      LogKeeps(s.log, NewNode(loc));
    }
  }

  lemma LoadKeeps(s: State, load: Option<string>)
    requires Inv(s) && s.phase == LoopTop && s.pages != [] && s.pages[0].cache.None?
    requires load.Some? ==> |load.value| <= PAGEBUFSZ
    ensures Inv(Loaded(s, load))
  {
    var loc := s.pages[0].loc;
    LogKeeps(s.log, Fetch(loc));
    var t := s.(log := s.log + [Fetch(loc)]);
    match load {
      case None =>
        PopKeeps(t.(phase := Stopped));
      case Some(data) =>
        StoreKeeps(s.pages, data);
        SameLocsKeepAba(s.pages, Stored(s.pages, data));
        LogKeeps(t.log, Other);
    }
  }

  lemma StoreKeeps(pages: seq<Page>, data: string)
    requires Sized(pages) && pages != [] && pages[0].cache.None? && |data| <= PAGEBUFSZ
    ensures Sized(Stored(pages, data)) && Settled(Stored(pages, data))
  {
    var kept := Cleaned(pages);
    CleanedTotal(pages, |pages|);
    assert kept[..|kept|] == kept;
    TotalFront(kept);
    assert Stored(pages, data)[1..] == kept[1..];
  }

  lemma StepKeeps(s: State, i: Input)
    requires Inv(s) && LoaderOk(i)
    ensures Inv(Step(s, i))
  {
    match s.phase
    case Stopped =>
    case LoopTop =>
      if s.pages == [] {
        PushKeeps(s, WELCOME);
      } else if !Displayable(s.pages[0].loc.itemtype) {
        PopKeeps(s);
      } else if s.pages[0].cache.None? {
        LoadKeeps(s, i.load);
      } else {
        LogKeeps(s.log, Other);
      }
    case OnScreen =>
      ScreenKeeps(s, i);
  }

  lemma ScreenKeeps(s: State, i: Input)
    requires Inv(s) && s.phase == OnScreen
    ensures Inv(Step(s, i))
  {
    var pages := s.pages[0 := s.pages[0].(display := i.display)];
    assert pages[1..] == s.pages[1..];
    SameLocsKeepAba(s.pages, pages);
    var shown := s.(pages := pages);
    match i.action
    case Visit(loc) => PushKeeps(shown, loc);
    case Back => PopKeeps(shown);
    case Refresh =>
      var fresh' := pages[0 := NewPage(s.pages[0].loc)];
      assert fresh'[1..] == s.pages[1..];
      SameLocsKeepAba(s.pages, fresh');
      LogKeeps(s.log, Reload(s.pages[0].loc));
    case Quit =>
  }

  /** What every run keeps, from either start, under any inputs with a well-behaved loader. */
  lemma {:induction false} RunKeeps(url: Option<Location>, inputs: seq<Input>)
    requires forall k :: 0 <= k < |inputs| ==> LoaderOk(inputs[k])
    ensures Inv(Run(Start(url), inputs))
  {
    if inputs != [] {
      var n := |inputs| - 1;
      RunKeeps(url, inputs[..n]);
      StepKeeps(Run(Start(url), inputs[..n]), inputs[n]);
    }
  }

  /** Cache budget: in every reachable state the cached bytes are at most the history limit plus
      one page. */
  lemma {:induction false} CacheBudget(url: Option<Location>, inputs: seq<Input>)
    requires forall k :: 0 <= k < |inputs| ==> LoaderOk(inputs[k])
    ensures 0 <= Total(Run(Start(url), inputs).pages) <= MAXALLOWEDCACHE + PAGEBUFSZ
  {
    var pages := Run(Start(url), inputs).pages;
    RunKeeps(url, inputs);
    TotalNonNegative(pages);
    if pages != [] {
      TotalFront(pages);
      if |pages| >= 2 {
        TotalFront(pages[1..]);
        assert pages[1..][1..] == pages[2..];
      }
    }
  }

  /** Queries are never re-issued by going back: in every run each fetch of a query comes right
      after that location was pushed as a new node or explicitly refreshed. */
  lemma {:induction false} QueriesNeverReissued(url: Option<Location>, inputs: seq<Input>, k: nat)
    requires forall j :: 0 <= j < |inputs| ==> LoaderOk(inputs[j])
    requires var log := Run(Start(url), inputs).log; k < |log| && log[k].Fetch? && log[k].loc.itemtype == '7'
    ensures var log := Run(Start(url), inputs).log;
            k > 0 && (log[k - 1] == NewNode(log[k].loc) || log[k - 1] == Reload(log[k].loc))
  {
    RunKeeps(url, inputs);
  }

  lemma StepKeepsNoAba(s: State, i: Input)
    requires NoAba(s.pages)
    ensures NoAba(Step(s, i).pages)
  {
    PoppedNoAba(s.pages);
    PushedNoAba(s.pages, WELCOME);
    if s.phase == LoopTop && s.pages != [] && i.load.Some? {
      SameLocsKeepAba(s.pages, Stored(s.pages, i.load.value));
    }
    if s.phase == OnScreen && s.pages != [] {
      OrderKeepsNoAba(s, i);
    }
  }

  lemma OrderKeepsNoAba(s: State, i: Input)
    requires NoAba(s.pages) && s.phase == OnScreen && s.pages != []
    ensures NoAba(Step(s, i).pages)
  {
    var shown := s.pages[0 := s.pages[0].(display := i.display)];
    SameLocsKeepAba(s.pages, shown);
    PoppedNoAba(shown);
    if i.action.Visit? { PushedNoAba(shown, i.action.loc); }
    SameLocsKeepAba(shown, shown[0 := NewPage(shown[0].loc)]);
  }

  /** The history never holds an A-B-A pattern, whatever is loaded. */
  lemma {:induction false} HistoryHasNoAba(url: Option<Location>, inputs: seq<Input>)
    ensures NoAba(Run(Start(url), inputs).pages)
  {
    if inputs != [] {
      var n := |inputs| - 1;
      HistoryHasNoAba(url, inputs[..n]);
      StepKeepsNoAba(Run(Start(url), inputs[..n]), inputs[n]);
    }
  }

  /** Pushing the previous location returns to its page, with cache and scroll memory, exactly when
      the page is no query or still cached; the page of another query says that it is gone. */
  lemma BackFindsPage(pages: seq<Page>, loc: Location)
    requires GoesBack(pages, loc)
    ensures Pushed(pages, loc) == pages[1..] <==> !pages[1].loc.Query() || pages[1].cache.Some?
    ensures Pushed(pages, loc)[1..] == pages[2..]
    ensures pages[1].loc.Query() && pages[1].cache.None? ==>
              Pushed(pages, loc)[0].cache == Some(QUERYMSG) && Pushed(pages, loc)[0].display == pages[1].display
  {
    assert pages[1..] == [pages[1]] + pages[2..];
    assert pages[1..][0] == pages[1];
    assert Pushed(pages, loc)[0] == Revisit(pages[1]);
  }

  /* ---------- how tight the budget is ---------- */

  lemma StoredTotal(pages: seq<Page>, data: string)
    requires pages != [] && pages[0].cache.None? && pages[0].Ok()
    ensures Total(Stored(pages, data)) == Total(Cleaned(pages)) + |data|
  {
    var kept, stored := Cleaned(pages), Stored(pages, data);
    TotalFront(kept);
    TotalFront(stored);
    assert stored[1..] == kept[1..];
  }

  /** A load leaves the cached bytes within the limit of the cleaner exactly when the new page fits
      beside what the cleaner has kept. */
  lemma {:induction false} LoadWithinLimit(s: State, data: string)
    requires Inv(s) && s.phase == LoopTop && s.pages != [] && s.pages[0].cache.None?
    ensures Total(Loaded(s, Some(data)).pages) <= MAXALLOWEDCACHE <==>
            Total(Cleaned(s.pages)) <= MAXALLOWEDCACHE - |data|
  {
    StoredTotal(s.pages, data);
  }

  // Pages the cleaner would leave alone.
  ghost predicate Kept(pages: seq<Page>) {
    Sized(pages) && Total(pages) <= MAXALLOWEDCACHE && forall i :: 0 <= i < |pages| ==> !pages[i].loc.Embedded()
  }

  lemma {:induction false} TotalOfPrefix(pages: seq<Page>, n: nat)
    requires Sized(pages) && n <= |pages|
    ensures Total(pages[..n]) <= Total(pages)
    decreases |pages| - n
  {
    if n == |pages| {
      assert pages[..n] == pages;
    } else {
      TotalNext(pages, n);
      TotalOfPrefix(pages, n + 1);
    }
  }

  lemma KeptIsCleaned(pages: seq<Page>)
    requires Kept(pages)
    ensures Cleaned(pages) == pages
  {
    forall i | 0 <= i < |pages|
      ensures CleanedPage(pages, i) == pages[i]
    {
      TotalOfPrefix(pages, i + 1);
    }
  }

  // The first visit of a page: it is loaded, and nothing else is dropped.
  lemma FirstLoad(s: State, i: Input)
    requires s.phase == LoopTop && s.pages != [] && Displayable(s.pages[0].loc.itemtype) && s.pages[0].cache.None?
    requires Kept(s.pages) && i.load.Some? && |i.load.value| <= PAGEBUFSZ
    ensures var t := Step(s, i);
            t.phase == OnScreen && Total(t.pages) == Total(s.pages) + |i.load.value| && |t.pages| == |s.pages| &&
            Sized(t.pages) && forall k :: 0 <= k < |s.pages| ==> t.pages[k].loc == s.pages[k].loc
  {
    KeptIsCleaned(s.pages);
    StoredTotal(s.pages, i.load.value);
  }

  lemma ShownTotal(pages: seq<Page>, display: (int, int))
    requires pages != []
    ensures Total(pages[0 := pages[0].(display := display)]) == Total(pages)
  {
    var shown := pages[0 := pages[0].(display := display)];
    TotalFront(pages);
    TotalFront(shown);
    assert shown[1..] == pages[1..];
  }

  lemma NewTotal(pages: seq<Page>, loc: Location)
    ensures Total([NewPage(loc)] + pages) == Total(pages)
  {
    TotalFront([NewPage(loc)] + pages);
    assert ([NewPage(loc)] + pages)[1..] == pages;
  }

  // Going on to a new page.
  lemma NextVisit(s: State, i: Input)
    requires s.phase == OnScreen && s.pages != [] && i.action.Visit? && Sized(s.pages)
    requires |s.pages| < 2 || !SameLocation(i.action.loc, s.pages[1].loc)
    ensures var t := Step(s, i);
            t.phase == LoopTop && |t.pages| == |s.pages| + 1 && t.pages[0] == NewPage(i.action.loc) &&
            Total(t.pages) == Total(s.pages) && Sized(t.pages) &&
            forall k :: 0 <= k < |s.pages| ==> t.pages[k + 1].loc == s.pages[k].loc
  {
    ShownTotal(s.pages, i.display);
    NewTotal(s.pages[0 := s.pages[0].(display := i.display)], i.action.loc);
  }

  // From one page on screen to the next.
  lemma VisitAndLoad(s: State, i: Input)
    requires s.phase == OnScreen && s.pages != [] && Kept(s.pages) && i.action.Visit?
    requires Displayable(i.action.loc.itemtype) && !i.action.loc.Embedded()
    requires |s.pages| < 2 || !SameLocation(i.action.loc, s.pages[1].loc)
    requires i.load.Some? && |i.load.value| <= PAGEBUFSZ
    ensures var t := Step(Step(s, i), i);
            t.phase == OnScreen && |t.pages| == |s.pages| + 1 && Sized(t.pages) &&
            Total(t.pages) == Total(s.pages) + |i.load.value| && t.pages[1].loc == s.pages[0].loc &&
            forall k :: 0 <= k < |t.pages| ==> !t.pages[k].loc.Embedded()
  {
    var t := Step(s, i);
    NextVisit(s, i);
    forall k | 0 <= k < |t.pages|
      ensures !t.pages[k].loc.Embedded()
    {
      assert k > 0 ==> t.pages[k].loc == s.pages[k - 1].loc;
    }
    FirstLoad(t, i);
  }

  function Ordinary(host: string): Location {
    Location(1, host, 70, '0', "")
  }

  function FullPage(): (data: string)
    ensures |data| == PAGEBUFSZ
  {
    seq(PAGEBUFSZ, _ => 'x')
  }

  // A full page arrives, or the user goes on to the given host.
  function Going(host: string): Input {
    Input(Some(FullPage()), (0, 0), Visit(Ordinary(host)))
  }

  lemma RunNext(s: State, inputs: seq<Input>, i: Input)
    ensures Run(s, inputs + [i]) == Step(Run(s, inputs), i)
  {
    assert (inputs + [i])[..|inputs|] == inputs;
  }

  /** The budget is tight: three full pages, one after the other, fill it to the last byte. */
  lemma {:induction false} BudgetIsTight()
    ensures var run := Run(Start(Some(Ordinary("a"))), [Going("b"), Going("b"), Going("b"), Going("c"), Going("c")]);
            Total(run.pages) == MAXALLOWEDCACHE + PAGEBUFSZ
  {
    var s0, b, c := Start(Some(Ordinary("a"))), Going("b"), Going("c");
    NewTotal([], Ordinary("a"));
    FirstLoad(s0, b);
    var s1 := Step(s0, b);
    VisitAndLoad(s1, b);
    assert Fold("c")[0] == 'c' && Fold("a")[0] == 'a';
    VisitAndLoad(Step(Step(s1, b), b), c);
    FiveSteps(s0, b, b, b, c, c);
  }

  lemma FiveSteps(s: State, a: Input, b: Input, c: Input, d: Input, e: Input)
    ensures Run(s, [a, b, c, d, e]) == Step(Step(Step(Step(Step(s, a), b), c), d), e)
  {
    RunNext(s, [], a);
    RunNext(s, [a], b);
    RunNext(s, [a, b], c);
    RunNext(s, [a, b, c], d);
    RunNext(s, [a, b, c, d], e);
    assert [] + [a] == [a] && [a] + [b] == [a, b] && [a, b] + [c] == [a, b, c];
    assert [a, b, c] + [d] == [a, b, c, d] && [a, b, c, d] + [e] == [a, b, c, d, e];
  }

  /* ---------- what each step does ---------- */

  /** The top of the loop: with no history the welcome page is pushed; an item that cannot be displayed is
      left for the page below; a page in the cache is shown as it is. */
  lemma TopOfLoop(s: State, i: Input)
    requires s.phase == LoopTop
    ensures s.pages == [] ==>
              Step(s, i).pages == [Page(Location(1, "#welcome", 70, '1', ""), None, 0, (-1, -1))]
    ensures s.pages != [] && s.pages[0].loc.itemtype !in {'0', '1', '7', 'h'} ==>
              Step(s, i).phase == LoopTop && Step(s, i).pages == Popped(s.pages) && Step(s, i).log == s.log + [WentBack]
    ensures s.pages != [] && s.pages[0].loc.itemtype in {'0', '1', '7', 'h'} && s.pages[0].cache.Some? ==>
              Step(s, i).phase == OnScreen && Step(s, i).pages == s.pages
  {
  }

  /** A page to be displayed that is not in the cache is fetched. The bytes that arrive are its cache; the
      other pages are those the cleaner leaves. When nothing arrives the loop goes back. */
  lemma LoadStep(s: State, i: Input)
    requires s.phase == LoopTop && s.pages != [] && s.pages[0].cache.None?
    requires s.pages[0].loc.itemtype in {'0', '1', '7', 'h'}
    ensures var t := Step(s, i);
            |t.log| == |s.log| + 2 && t.log[..|s.log|] == s.log && t.log[|s.log|] == Fetch(s.pages[0].loc) &&
            match i.load
            case None => t.phase == LoopTop && t.pages == Popped(s.pages)
            case Some(data) =>
              t.phase == OnScreen && |t.pages| == |s.pages| && t.pages[1..] == Cleaned(s.pages)[1..] &&
              t.pages[0].loc == s.pages[0].loc && t.pages[0].cache == Some(data) && t.pages[0].cachesize == |data|
  {
    var t := Step(s, i);
    if i.load.Some? {
      assert t.pages[1..] == Cleaned(s.pages)[1..];
    }
    assert t.log[..|s.log|] == s.log;
  }

  /** Going back from a page on screen leaves the pages below it: the next one as history_pop brings it
      up, the others as they were. */
  lemma BackStep(s: State, i: Input)
    requires s.phase == OnScreen && |s.pages| >= 2 && i.action == Back
    ensures var t := Step(s, i);
            t.phase == LoopTop && t.log == s.log + [WentBack] && |t.pages| == |s.pages| - 1 &&
            t.pages[0] == Revisit(s.pages[1]) &&
            (forall k :: 0 <= k < |t.pages| ==> t.pages[k].loc == s.pages[k + 1].loc) &&
            forall k :: 1 <= k < |t.pages| ==> t.pages[k] == s.pages[k + 1]
  {
  }

  /** A refresh forgets cache and scroll memory of the page on screen, and only those. */
  lemma RefreshStep(s: State, i: Input)
    requires s.phase == OnScreen && s.pages != [] && i.action.Refresh?
    ensures var t := Step(s, i);
            t.phase == LoopTop && t.log == s.log + [Reload(s.pages[0].loc)] && |t.pages| == |s.pages| &&
            t.pages[0] == Page(s.pages[0].loc, None, 0, (-1, -1)) && t.pages[1..] == s.pages[1..]
  {
    assert Step(s, i).pages[1..] == s.pages[1..];
  }

  /** Visiting the location of the page below goes back to it; any other one gets a new page on top, and
      the page on screen keeps its scroll memory. */
  lemma VisitStep(s: State, i: Input)
    requires s.phase == OnScreen && s.pages != [] && i.action.Visit?
    ensures var t, loc := Step(s, i), i.action.loc;
            t.phase == LoopTop &&
            if |s.pages| >= 2 && SameLocation(loc, s.pages[1].loc) then
              t.log == s.log + [WentBack] && t.pages == [Revisit(s.pages[1])] + s.pages[2..]
            else
              t.log == s.log + [NewNode(loc)] && |t.pages| == |s.pages| + 1 && t.pages[0] == NewPage(loc) &&
              t.pages[1] == s.pages[0].(display := i.display) && t.pages[2..] == s.pages[1..]
  {
    var shown := s.pages[0 := s.pages[0].(display := i.display)];
    if |s.pages| >= 2 {
      assert shown[2..] == s.pages[2..];
    }
    if !(|s.pages| >= 2 && SameLocation(i.action.loc, s.pages[1].loc)) {
      assert ([NewPage(i.action.loc)] + shown)[2..] == s.pages[1..];
    }
  }

  /** Quitting stops the loop. */
  lemma QuitStep(s: State, i: Input, j: Input)
    requires s.phase == OnScreen && s.pages != [] && i.action.Quit?
    ensures Step(s, i).phase == Stopped && Step(s, i).log == s.log && Step(Step(s, i), j) == Step(s, i)
  {
  }

  // What is added to the log between two states.
  ghost predicate Logged(was: seq<Event>, now: seq<Event>, e: Event) {
    exists k :: |was| <= k < |now| && now[k] == e
  }

  /** Refreshes are logged when the user orders one, and new nodes when the user goes to a location, or
      when the history is empty; the log only grows. */
  lemma StepLogs(s: State, i: Input, e: Event)
    ensures |s.log| <= |Step(s, i).log| && Step(s, i).log[..|s.log|] == s.log
    ensures Logged(s.log, Step(s, i).log, e) && e.Reload? ==>
              s.phase == OnScreen && i.action.Refresh? && s.pages != [] && e.loc == s.pages[0].loc
    ensures Logged(s.log, Step(s, i).log, e) && e.NewNode? ==>
              (s.phase == OnScreen && i.action == Visit(e.loc)) ||
              (s.phase == LoopTop && s.pages == [] && e.loc == WELCOME)
  {
    var t := Step(s, i);
    assert exists x: seq<Event> :: t.log == s.log + x by {
      LogGrows(s, i);
    }
    assert t.log[..|s.log|] == s.log;
  }

  lemma LogGrows(s: State, i: Input)
    ensures exists x: seq<Event> :: Step(s, i).log == s.log + x
  {
    var t := Step(s, i);
    if t.log == s.log {
      assert t.log == s.log + [];
    } else if s.phase == LoopTop && s.pages != [] && Displayable(s.pages[0].loc.itemtype) && s.pages[0].cache.None? {
      var f := Fetch(s.pages[0].loc);
      var g := if i.load.None? then WentBack else Other;
      assert t.log == s.log + [f] + [g] == s.log + [f, g];
    } else {
      assert t.log == s.log + [t.log[|s.log|]];
    }
  }

  /** Without an ordered refresh no page is ever reloaded. */
  lemma {:induction false} NoRefreshNoReload(url: Option<Location>, inputs: seq<Input>)
    requires forall k :: 0 <= k < |inputs| ==> !inputs[k].action.Refresh?
    ensures forall k :: 0 <= k < |Run(Start(url), inputs).log| ==> !Run(Start(url), inputs).log[k].Reload?
  {
    if inputs != [] {
      var n := |inputs| - 1;
      var s, i := Run(Start(url), inputs[..n]), inputs[n];
      NoRefreshNoReload(url, inputs[..n]);
      var t := Step(s, i);
      forall k | 0 <= k < |t.log|
        ensures !t.log[k].Reload?
      {
        StepLogs(s, i, t.log[k]);
        if k < |s.log| {
          assert t.log[k] == t.log[..|s.log|][k] == s.log[k];
        } else {
          assert Logged(s.log, t.log, t.log[k]);
        }
      }
    }
  }

  // The user orders no refresh and goes to no query.
  ghost predicate AsksNothing(i: Input) {
    !i.action.Refresh? && (i.action.Visit? ==> i.action.loc.itemtype != '7')
  }

  ghost predicate NoQueryLogged(log: seq<Event>) {
    forall k :: 0 <= k < |log| ==> !log[k].Reload? && (log[k].NewNode? ==> log[k].loc.itemtype != '7')
  }

  lemma {:induction false} NothingAsked(url: Option<Location>, inputs: seq<Input>)
    requires url.Some? ==> url.value.itemtype != '7'
    requires forall k :: 0 <= k < |inputs| ==> AsksNothing(inputs[k])
    ensures NoQueryLogged(Run(Start(url), inputs).log)
  {
    if inputs != [] {
      var n := |inputs| - 1;
      var s, i := Run(Start(url), inputs[..n]), inputs[n];
      NothingAsked(url, inputs[..n]);
      var t := Step(s, i);
      forall k | 0 <= k < |t.log|
        ensures !t.log[k].Reload? && (t.log[k].NewNode? ==> t.log[k].loc.itemtype != '7')
      {
        StepLogs(s, i, t.log[k]);
        if k < |s.log| {
          assert t.log[k] == t.log[..|s.log|][k] == s.log[k];
        } else {
          assert Logged(s.log, t.log, t.log[k]);
        }
      }
    }
  }

  /** A query is only ever fetched on demand: in a run in which the user goes to no query and refreshes
      nothing, however often going back, none is fetched. */
  lemma {:induction false} QueriesOnDemand(url: Option<Location>, inputs: seq<Input>, k: nat)
    requires forall j :: 0 <= j < |inputs| ==> LoaderOk(inputs[j]) && AsksNothing(inputs[j])
    requires url.Some? ==> url.value.itemtype != '7'
    requires k < |Run(Start(url), inputs).log| && Run(Start(url), inputs).log[k].Fetch?
    ensures Run(Start(url), inputs).log[k].loc.itemtype != '7'
  {
    NothingAsked(url, inputs);
    RunKeeps(url, inputs);
    OnlyAskedQueries(Run(Start(url), inputs).log, k);
  }

  lemma OnlyAskedQueries(log: seq<Event>, k: nat)
    requires QueriesFresh(log) && NoQueryLogged(log) && k < |log| && log[k].Fetch?
    ensures log[k].loc.itemtype != '7'
  {
    if k > 0 {
      var e := log[k - 1];
      assert !e.Reload? && (e.NewNode? ==> e.loc.itemtype != '7');
    }
  }

  /* ---------- the loop over the linked history ---------- */

  // One time round the loop, as steps: the push of the welcome page, the top of the loop, and the
  // page on screen.
  function Iteration(s: State, i: Input): State {
    var pushed := if s.phase == LoopTop && s.pages == [] then Step(s, i) else s;
    var ready := Step(pushed, i);
    if ready.phase == OnScreen && s.phase == LoopTop then Step(ready, i) else ready
  }

  // The same input for n steps.
  function Steps(s: State, i: Input, n: nat): State
    decreases n
  {
    if n == 0 then s else Steps(Step(s, i), i, n - 1)
  }

  /** One iteration is one to three steps of the loop and leaves no page on screen. A page that is cached,
      or arrives, is shown in it; with no history that page is the welcome page. */
  lemma IterationIsSteps(s: State, i: Input) returns (n: nat)
    requires s.phase == LoopTop
    ensures 1 <= n <= 3 && Iteration(s, i) == Steps(s, i, n) && Iteration(s, i).phase != OnScreen
    ensures s.pages == [] ==> n == if i.load.Some? then 3 else 2
    ensures s.pages != [] ==>
              n == if Displayable(s.pages[0].loc.itemtype) && (s.pages[0].cache.Some? || i.load.Some?) then 2 else 1
  {
    n := (if s.pages == [] then 1 else 0) + (if Shows(s, i) then 2 else 1);
    var t := Step(s, i);
    assert Steps(s, i, 1) == Steps(t, i, 0) == t;
    assert Steps(s, i, 2) == Steps(t, i, 1) == Step(t, i);
    assert Steps(s, i, 3) == Steps(t, i, 2) == Steps(Step(t, i), i, 1) == Step(Step(t, i), i);
  }

  // The page on top, or the welcome page, gets on screen.
  predicate Shows(s: State, i: Input) {
    if s.pages == [] then i.load.Some?
    else Displayable(s.pages[0].loc.itemtype) && (s.pages[0].cache.Some? || i.load.Some?)
  }

  lemma IterationKeeps(s: State, i: Input)
    requires Inv(s) && LoaderOk(i)
    ensures Inv(Iteration(s, i))
  {
    var pushed := if s.phase == LoopTop && s.pages == [] then Step(s, i) else s;
    StepKeeps(s, i);
    StepKeeps(pushed, i);
    StepKeeps(Step(pushed, i), i);
  }

  class Session {
    const stack: Stack
    ghost var phase: Phase
    ghost var log: seq<Event> // written where the code pushes, pops, loads and refreshes

    // The state of the loop: what the linked history holds, and what the code has done.
    ghost function Now(): State
      reads this, stack
    {
      State(stack.pages, phase, log)
    }

    ghost predicate Valid()
      reads this, stack, stack.spine
    {
      stack.Valid() && Inv(Now())
    }

    constructor (url: Option<Location>)
      ensures Valid() && Now() == Start(url) && fresh(stack) && fresh(stack.spine)
    {
      stack := new Stack();
      phase, log := LoopTop, [];
      new;
      if url.Some? {
        PushLocation(url.value);
      }
      RunKeeps(url, []);
    }

    /** One iteration of the main loop; running tells whether the loop goes on. */
    method Iterate(input: Input) returns (running: bool)
      requires Valid() && phase == LoopTop && LoaderOk(input)
      modifies this, stack, stack.spine
      ensures Valid() && Now() == Iteration(old(Now()), input)
      ensures running <==> phase == LoopTop
      ensures QueriesFresh(log) && NoAba(stack.pages)
    {
      IterationKeeps(Now(), input);
      if stack.history == null {
        PushLocation(WELCOME);
      }
      running := true;
      var onScreen := Load(input);
      if onScreen {
        running := Display(input);
      }
    }

    /** history_push, as the loop and the display code call it. */
    method PushLocation(loc: Location)
      requires stack.Valid()
      modifies this, stack, stack.spine
      ensures stack.Valid() && Now() == PushTo(old(Now()), loc)
      ensures forall k :: 0 <= k < |stack.spine| ==> stack.spine[k] in old(stack.spine) || fresh(stack.spine[k])
    {
      phase, log := LoopTop, log + [if GoesBack(stack.pages, loc) then WentBack else NewNode(loc)];
      stack.Push(loc);
    }

    /** history_pop, as the loop calls it. */
    method PopLocation()
      requires stack.Valid()
      modifies this, stack, stack.spine
      ensures stack.Valid() && Now() == PopFrom(old(Now()))
      ensures forall k :: 0 <= k < |stack.spine| ==> stack.spine[k] in old(stack.spine)
    {
      phase, log := LoopTop, log + [WentBack];
      stack.Pop();
    }

    /** The upper half of the iteration: a page that is not in the cache is loaded, an item that
        cannot be displayed is offered for download and left. */
    method Load(input: Input) returns (onScreen: bool)
      requires stack.Valid() && phase == LoopTop && stack.pages != []
      modifies this, stack, stack.spine
      ensures stack.Valid() && Now() == Step(old(Now()), input)
      ensures onScreen <==> phase == OnScreen
      ensures onScreen ==> stack.pages != []
      ensures forall k :: 0 <= k < |stack.spine| ==> stack.spine[k] in old(stack.spine)
    {
      var itemtype, cached := stack.Top();
      if !Displayable(itemtype) {
        PopLocation();
        return false;
      }
      if cached {
        phase, log := OnScreen, log + [Other];
        return true;
      }
      onScreen := Fetched(input.load);
    }

    /** A page being loaded: dropped again on failure, cached after the cleaner has run otherwise. */
    method Fetched(load: Option<string>) returns (ok: bool)
      requires stack.Valid() && stack.pages != []
      modifies this, stack, stack.spine
      ensures stack.Valid() && Now() == Loaded(old(Now()), load) && (ok <==> load.Some?)
      ensures forall k :: 0 <= k < |stack.spine| ==> stack.spine[k] in old(stack.spine)
    {
      log := log + [Fetch(stack.pages[0].loc)];
      ok := load.Some?;
      if ok {
        StorePage(load.value);
      } else {
        PopLocation();
      }
    }

    /** The page that arrived, in the cache of the top node. */
    method StorePage(data: string)
      requires stack.Valid() && stack.pages != []
      modifies this, stack, stack.spine
      ensures stack.Valid() && stack.spine == old(stack.spine)
      ensures Now() == State(Stored(old(stack.pages), data), OnScreen, old(log) + [Other])
    {
      phase, log := OnScreen, log + [Other];
      stack.CleanupCache();
      stack.Store(data);
    }

    /** The lower half: the page is shown, and the display code's order carried out. */
    method Display(input: Input) returns (running: bool)
      requires stack.Valid() && phase == OnScreen && stack.pages != []
      modifies this, stack, stack.spine
      ensures stack.Valid() && Now() == Step(old(Now()), input)
      ensures running <==> phase == LoopTop
    {
      stack.Remember(input.display);
      running := Obey(input.action);
    }

    /** What the main loop and the display code do to the history for an order. */
    method Obey(action: Action) returns (running: bool)
      requires stack.Valid() && stack.pages != [] && phase == OnScreen
      modifies this, stack, stack.spine
      ensures stack.Valid() && Now() == Ordered(old(Now()), action)
      ensures running <==> action != Quit
    {
      running := action != Quit;
      match action
      case Visit(loc) => PushLocation(loc);
      case Back => PopLocation();
      case Refresh => RefreshPage();
      case Quit => phase := Stopped;
    }

    /** A refresh order. */
    method RefreshPage()
      requires stack.Valid() && stack.pages != []
      modifies this, stack, stack.spine
      ensures stack.Valid() && Now() == Ordered(old(Now()), Action.Refresh)
    {
      phase, log := LoopTop, log + [Reload(stack.pages[0].loc)];
      stack.Refresh();
    }
  }
}
