/**
 Every interleaving of lookups, refreshes, landings and cancellations over one key fetcher:
 single flight, the rate limit, and how long a withdrawn key can still be answered.
 */
module KeyFetcherRuns {
  import opened Wrappers
  import opened Keys
  import opened KeySets
  import opened KeyFetcherModel
  import CacheControl

  /** How a flight ended; `publishedAt` is when the upstream published the document. */
  datatype Landing = Landing(outcome: Outcome, at: int, publishedAt: int)

  /** A network attempt, unfinished while `landing` is None. */
  datatype Flight = Flight(startedAt: int, byLookup: bool, landing: Option<Landing>)

  /** A caller blocked on its flight; a Refresh has no kid. */
  datatype Waiter = Waiter(kid: Option<string>, begunAt: int, flight: nat)

  /** An answer given; `flight` is None when Lookup answered without waiting. */
  datatype Return =
    | LookupReturn(kid: string, begunAt: int, flight: Option<nat>, answer: Answer)
    | RefreshReturn(begunAt: int, refreshed: nat, error: Option<FetchError>)

  datatype World = World(f: Fetcher, clock: int, flights: seq<Flight>, waiting: map<nat, Waiter>, given: seq<Return>)

  datatype Action =
    | BeginLookup(caller: nat, kid: string, now: int)
    | BeginRefresh(caller: nat, now: int)
    | Land(landed: nat, outcome: Outcome, now: int, publishedAt: int)
    | End(caller: nat, now: int)
    | Cancel(caller: nat, now: int)

  predicate Enabled(w: World, a: Action) {
    && w.clock <= a.now
    && match a
       case BeginLookup(caller, _, _) => caller !in w.waiting
       case BeginRefresh(caller, _) => caller !in w.waiting
       case Land(id, _, _, _) => id < |w.flights| && w.flights[id].landing.None?
       case End(caller, _) =>
         caller in w.waiting && w.waiting[caller].flight < |w.flights| && w.flights[w.waiting[caller].flight].landing.Some?
       case Cancel(caller, _) => caller in w.waiting
  }

  /** Join or start a flight and wait for it. */
  function Join(w: World, caller: nat, kid: Option<string>, now: int): World {
    var id := if w.f.inflight.Some? then w.f.inflight.value else |w.flights|;
    World(
      Started(w.f, now, |w.flights|), now,
      if w.f.inflight.Some? then w.flights else w.flights + [Flight(now, kid.Some?, None)],
      w.waiting[caller := Waiter(kid, now, id)], w.given)
  }

  /** Any flight that has not landed may; its goroutine knows no other. */
  function Landed(c: Config, w: World, id: nat, outcome: Outcome, now: int, publishedAt: int): World
    requires id < |w.flights|
  {
    w.(f := Completed(c, w.f, outcome, now), clock := now,
       flights := w.flights[id := w.flights[id].(landing := Some(Landing(outcome, now, publishedAt)))])
  }

  function Returned(c: Config, w: World, waiter: Waiter, now: int): Return
    requires waiter.flight < |w.flights| && w.flights[waiter.flight].landing.Some?
  {
    var outcome := w.flights[waiter.flight].landing.value.outcome;
    match waiter.kid
    case Some(kid) => LookupReturn(kid, waiter.begunAt, Some(waiter.flight), AnsweredAfter(c, w.f, outcome, kid, now))
    case None => RefreshReturn(waiter.begunAt, waiter.flight, if outcome.Failed? then Some(AttemptFailed) else None)
  }

  /** One step; an action that is not enabled changes nothing. */
  function Do(c: Config, w: World, a: Action): World {
    if !Enabled(w, a) then w
    else
      match a
      case BeginLookup(caller, kid, now) =>
        var answer := AnsweredAtOnce(c, w.f, kid, now);
        if answer.Some? then w.(clock := now, given := w.given + [LookupReturn(kid, now, None, answer.value)])
        else Join(w, caller, Some(kid), now)
      case BeginRefresh(caller, now) => Join(w, caller, None, now)
      case Land(id, outcome, now, publishedAt) => Landed(c, w, id, outcome, now, publishedAt)
      case End(caller, now) =>
        w.(clock := now, waiting := w.waiting - {caller}, given := w.given + [Returned(c, w, w.waiting[caller], now)])
      case Cancel(caller, now) => w.(clock := now, waiting := w.waiting - {caller})
  }

  function After(c: Config, from: int, actions: seq<Action>): World {
    if actions == [] then World(INITIAL, from, [], map[], [])
    else Do(c, After(c, from, actions[..|actions| - 1]), actions[|actions| - 1])
  }

  // ---- Flights and the rate limit --------------------------------------------------

  /** Only the newest flight can be unfinished, and then it is the one in progress. */
  ghost predicate OneInProgress(w: World) {
    && (w.f.inflight.Some? ==> w.flights != [] && w.f.inflight.value == |w.flights| - 1)
    && (forall i :: 0 <= i < |w.flights| ==> (w.flights[i].landing.None? <==> w.f.inflight == Some(i)))
    && w.f.lastAttempt == (if w.flights == [] then None else Some(w.flights[|w.flights| - 1].startedAt))
    && (forall i :: 0 <= i < |w.flights| ==> w.flights[i].startedAt <= w.clock)
  }

  /** Attempt `i` is not before the one before it, and minRefresh after it when a Lookup began it. */
  ghost predicate SpacedAt(c: Config, flights: seq<Flight>, i: int)
    requires 0 < i < |flights|
  {
    var gap := flights[i].startedAt - flights[i - 1].startedAt;
    gap >= 0 && (flights[i].byLookup ==> gap >= c.minRefresh)
  }

  ghost predicate Spaced(c: Config, flights: seq<Flight>) {
    forall i :: 0 < i < |flights| ==> SpacedAt(c, flights, i)
  }

  lemma JoinKeepsFlights(c: Config, w: World, caller: nat, kid: Option<string>, now: int)
    requires OneInProgress(w) && Spaced(c, w.flights) && w.clock <= now
    requires kid.Some? && w.f.inflight.None? ==> MayAttempt(c, w.f, now)
    ensures var w' := Join(w, caller, kid, now); OneInProgress(w') && Spaced(c, w'.flights)
  {
    var w' := Join(w, caller, kid, now);
    forall i | 0 < i < |w'.flights|
      ensures SpacedAt(c, w'.flights, i)
    {
      if i < |w.flights| {
        assert SpacedAt(c, w.flights, i);
      }
    }
  }

  lemma LandKeepsFlights(c: Config, w: World, id: nat, outcome: Outcome, now: int, publishedAt: int)
    requires OneInProgress(w) && Spaced(c, w.flights) && Enabled(w, Land(id, outcome, now, publishedAt))
    ensures var w' := Landed(c, w, id, outcome, now, publishedAt); OneInProgress(w') && Spaced(c, w'.flights)
  {
    var w' := Landed(c, w, id, outcome, now, publishedAt);
    forall i | 0 < i < |w'.flights|
      ensures SpacedAt(c, w'.flights, i)
    {
      assert SpacedAt(c, w.flights, i);
    }
  }

  lemma StepKeepsFlights(c: Config, w: World, a: Action)
    requires OneInProgress(w) && Spaced(c, w.flights)
    ensures OneInProgress(Do(c, w, a)) && Spaced(c, Do(c, w, a).flights)
  {
    if Enabled(w, a) {
      match a
      case BeginLookup(caller, kid, now) =>
        if AnsweredAtOnce(c, w.f, kid, now).None? {
          JoinKeepsFlights(c, w, caller, Some(kid), now);
        }
      case BeginRefresh(caller, now) => JoinKeepsFlights(c, w, caller, None, now);
      case Land(id, outcome, now, publishedAt) => LandKeepsFlights(c, w, id, outcome, now, publishedAt);
      case _ =>
    }
  }

  lemma {:induction false} FlightsKept(c: Config, from: int, actions: seq<Action>)
    ensures OneInProgress(After(c, from, actions)) && Spaced(c, After(c, from, actions).flights)
  {
    if actions != [] {
      FlightsKept(c, from, actions[..|actions| - 1]);
      StepKeepsFlights(c, After(c, from, actions[..|actions| - 1]), actions[|actions| - 1]);
    }
  }

  /** In every interleaving at most one flight is unfinished. */
  lemma SingleFlight(c: Config, from: int, actions: seq<Action>, i: nat, j: nat)
    requires i < |After(c, from, actions).flights| && j < |After(c, from, actions).flights|
    requires After(c, from, actions).flights[i].landing.None? && After(c, from, actions).flights[j].landing.None?
    ensures i == j
  {
    FlightsKept(c, from, actions);
  }

  /** An attempt begun by Lookup comes at least minRefresh after the attempt before it, however that began. */
  lemma LookupAttemptsAreSpaced(c: Config, from: int, actions: seq<Action>, i: nat)
    requires 0 < i < |After(c, from, actions).flights| && After(c, from, actions).flights[i].byLookup
    ensures var fs := After(c, from, actions).flights; fs[i].startedAt - fs[i - 1].startedAt >= c.minRefresh
  {
    FlightsKept(c, from, actions);
    assert SpacedAt(c, After(c, from, actions).flights, i);
  }

  lemma {:induction false} OnlyLookupsStart(c: Config, from: int, actions: seq<Action>)
    requires forall a :: a in actions ==> !a.BeginRefresh?
    ensures forall i :: 0 <= i < |After(c, from, actions).flights| ==> After(c, from, actions).flights[i].byLookup
  {
    if actions != [] {
      OnlyLookupsStart(c, from, actions[..|actions| - 1]);
      assert actions[|actions| - 1] in actions;
    }
  }

  lemma {:induction false} GapsAddUp(c: Config, flights: seq<Flight>, i: nat, j: nat)
    requires Spaced(c, flights) && i <= j < |flights|
    requires forall k :: 0 <= k < |flights| ==> flights[k].byLookup
    ensures flights[j].startedAt - flights[i].startedAt >= (j - i) * c.minRefresh
    decreases j
  {
    if i < j {
      GapsAddUp(c, flights, i, j - 1);
      assert SpacedAt(c, flights, j);
      assert (j - i) * c.minRefresh == (j - 1 - i) * c.minRefresh + c.minRefresh;
    }
  }

  lemma Monotone(a: nat, b: nat, m: nat)
    ensures a <= b ==> a * m <= b * m
  {
  }

  lemma QuotientBound(n: nat, m: int, span: nat)
    requires m > 0 && n * m <= span
    ensures n <= span / m
  {
    var q := span / m;
    assert span < (q + 1) * m;
    Monotone(q + 1, n, m);
  }

  lemma {:induction false} IndicesWithin(s: set<nat>, lo: nat, n: nat)
    requires forall i :: i in s ==> lo <= i < lo + n
    ensures |s| <= n
    decreases n
  {
    if n == 0 {
      assert s == {};
    } else {
      IndicesWithin(s - {lo + n - 1}, lo, n - 1);
    }
  }

  lemma {:induction false} LeastIndex(s: set<nat>) returns (lo: nat)
    requires s != {}
    ensures lo in s && forall i :: i in s ==> lo <= i
  {
    var x :| x in s;
    lo := x;
    if s != {x} {
      var m := LeastIndex(s - {x});
      lo := if m < x then m else x;
      assert forall i :: i in s ==> i == x || i in s - {x};
    }
  }

  /** Without Refresh, a window of length `span` holds at most 1 + span / minRefresh attempts. */
  lemma AttemptsInWindow(c: Config, from: int, actions: seq<Action>, start: int, span: nat)
    requires ValidConfig(c) && forall a :: a in actions ==> !a.BeginRefresh?
    ensures
      var fs := After(c, from, actions).flights;
      |set i | 0 <= i < |fs| && start <= fs[i].startedAt <= start + span| <= 1 + span / c.minRefresh
  {
    var fs := After(c, from, actions).flights;
    FlightsKept(c, from, actions);
    OnlyLookupsStart(c, from, actions);
    var inside: set<nat> := set i | 0 <= i < |fs| && start <= fs[i].startedAt <= start + span;
    if inside != {} {
      var lo := LeastIndex(inside);
      forall i | i in inside
        ensures lo <= i < lo + (1 + span / c.minRefresh)
      {
        GapsAddUp(c, fs, lo, i);
        QuotientBound(i - lo, c.minRefresh, span);
      }
      IndicesWithin(inside, lo, 1 + span / c.minRefresh);
    }
    assert inside == set i | 0 <= i < |fs| && start <= fs[i].startedAt <= start + span;
  }

  // ---- Whose outcome a caller sees -------------------------------------------------

  /** A landed flight stays as it landed. */
  lemma LandingsAreFinal(c: Config, w: World, a: Action, i: nat)
    requires OneInProgress(w) && i < |w.flights| && w.flights[i].landing.Some?
    ensures i < |Do(c, w, a).flights| && Do(c, w, a).flights[i] == w.flights[i]
  {
  }

  /** The flight was in progress while the caller began, or the caller started it. */
  ghost predicate JoinedDuring(fl: Flight, begunAt: int) {
    fl.startedAt <= begunAt && (fl.landing.Some? ==> begunAt <= fl.landing.value.at)
  }

  /** `key` is what the document of some landed flight holds for `kid`, one that may be retained. */
  ghost predicate Retained(w: World, kid: string, key: Key) {
    exists i :: 0 <= i < |w.flights| && RetainedFrom(w.flights[i], kid, key)
  }

  ghost predicate RetainedFrom(fl: Flight, kid: string, key: Key) {
    && fl.landing.Some? && fl.landing.value.outcome.Fetched? && !fl.landing.value.outcome.cache.noStore
    && Find(fl.landing.value.outcome.doc, kid) == Some(key)
  }

  /**
   A waited answer comes from a flight in progress when the caller began: its document, or, when
   it failed, its error or the key of a retained document.
   */
  ghost predicate SeesOwnFlight(w: World, r: Return) {
    match r
    case RefreshReturn(begunAt, id, error) =>
      && id < |w.flights| && w.flights[id].landing.Some? && JoinedDuring(w.flights[id], begunAt)
      && error == if w.flights[id].landing.value.outcome.Failed? then Some(AttemptFailed) else None
    case LookupReturn(_, _, None, _) => true
    case LookupReturn(kid, begunAt, Some(id), answer) =>
      && id < |w.flights| && w.flights[id].landing.Some? && JoinedDuring(w.flights[id], begunAt)
      && match w.flights[id].landing.value.outcome
         case Fetched(doc, _) => answer == LookupOrErr(Some(doc), kid, None)
         case Failed => answer == Error(AttemptFailed) || (answer.Found? && Retained(w, kid, answer.key))
  }

  ghost predicate WaitsWell(w: World, waiter: Waiter) {
    waiter.flight < |w.flights| && waiter.begunAt <= w.clock && JoinedDuring(w.flights[waiter.flight], waiter.begunAt)
  }

  /** The cache holds the document of a landed flight that was not no-store. */
  ghost predicate CacheIsRetained(w: World) {
    w.f.cached.Some? ==> exists i :: 0 <= i < |w.flights| && CachedFrom(w.flights[i], w.f.cached.value)
  }

  ghost predicate CachedFrom(fl: Flight, doc: Document) {
    && fl.landing.Some? && fl.landing.value.outcome.Fetched?
    && !fl.landing.value.outcome.cache.noStore && fl.landing.value.outcome.doc == doc
  }

  ghost predicate AllSeeOwn(w: World) {
    && OneInProgress(w) && CacheIsRetained(w)
    && (forall caller :: caller in w.waiting ==> WaitsWell(w, w.waiting[caller]))
    && (forall r :: r in w.given ==> SeesOwnFlight(w, r))
  }

  /** Landed flights stay, and no flight loses its start. */
  ghost predicate Extends(w: World, w': World) {
    && |w.flights| <= |w'.flights|
    && forall i :: 0 <= i < |w.flights| && w.flights[i].landing.Some? ==> w'.flights[i] == w.flights[i]
  }

  lemma StepExtends(c: Config, w: World, a: Action)
    requires OneInProgress(w)
    ensures Extends(w, Do(c, w, a))
  {
    forall i | 0 <= i < |w.flights| && w.flights[i].landing.Some?
      ensures Do(c, w, a).flights[i] == w.flights[i]
    {
      LandingsAreFinal(c, w, a, i);
    }
  }

  lemma SeenStays(w: World, w': World, r: Return)
    requires Extends(w, w') && SeesOwnFlight(w, r)
    ensures SeesOwnFlight(w', r)
  {
    if r.LookupReturn? && r.answer.Found? && Retained(w, r.kid, r.answer.key) {
      var i :| 0 <= i < |w.flights| && RetainedFrom(w.flights[i], r.kid, r.answer.key);
      assert RetainedFrom(w'.flights[i], r.kid, r.answer.key);
    }
  }

  lemma CacheStaysRetained(c: Config, w: World, a: Action)
    requires OneInProgress(w) && CacheIsRetained(w)
    ensures CacheIsRetained(Do(c, w, a))
  {
    var w' := Do(c, w, a);
    StepExtends(c, w, a);
    if w'.f.cached.Some? {
      if Enabled(w, a) && a.Land? && w'.f.cached != w.f.cached {
        assert CachedFrom(w'.flights[a.landed], w'.f.cached.value);
      } else {
        var i :| 0 <= i < |w.flights| && CachedFrom(w.flights[i], w.f.cached.value);
        assert CachedFrom(w'.flights[i], w'.f.cached.value);
      }
    }
  }

  lemma WaitersStayWell(c: Config, w: World, a: Action)
    requires OneInProgress(w) && forall caller :: caller in w.waiting ==> WaitsWell(w, w.waiting[caller])
    ensures var w' := Do(c, w, a); forall caller :: caller in w'.waiting ==> WaitsWell(w', w'.waiting[caller])
  {
    var w' := Do(c, w, a);
    forall caller | caller in w'.waiting
      ensures WaitsWell(w', w'.waiting[caller])
    {
      if caller in w.waiting && w'.waiting[caller] == w.waiting[caller] {
        assert WaitsWell(w, w.waiting[caller]);
      }
    }
  }

  lemma ReturnSeesOwn(c: Config, w: World, waiter: Waiter, now: int)
    requires CacheIsRetained(w) && WaitsWell(w, waiter) && w.flights[waiter.flight].landing.Some?
    ensures SeesOwnFlight(w, Returned(c, w, waiter, now))
  {
    var r := Returned(c, w, waiter, now);
    if r.LookupReturn? && w.flights[waiter.flight].landing.value.outcome.Failed? && r.answer.Found? {
      var i :| 0 <= i < |w.flights| && CachedFrom(w.flights[i], w.f.cached.value);
      assert RetainedFrom(w.flights[i], r.kid, r.answer.key);
    }
  }

  lemma StepSeesOwn(c: Config, w: World, a: Action)
    requires AllSeeOwn(w) && OneInProgress(Do(c, w, a))
    ensures AllSeeOwn(Do(c, w, a))
  {
    var w' := Do(c, w, a);
    StepExtends(c, w, a);
    CacheStaysRetained(c, w, a);
    WaitersStayWell(c, w, a);
    forall r | r in w'.given
      ensures SeesOwnFlight(w', r)
    {
      if r in w.given {
        SeenStays(w, w', r);
      } else if a.End? {
        ReturnSeesOwn(c, w, w.waiting[a.caller], a.now);
        SeenStays(w, w', r);
      }
    }
  }

  lemma {:induction false} OwnFlightsSeen(c: Config, from: int, actions: seq<Action>)
    ensures AllSeeOwn(After(c, from, actions))
  {
    FlightsKept(c, from, actions);
    if actions != [] {
      OwnFlightsSeen(c, from, actions[..|actions| - 1]);
      StepSeesOwn(c, After(c, from, actions[..|actions| - 1]), actions[|actions| - 1]);
    }
  }

  /** Whatever landed since, a caller that waited is answered from the flight it waited for. */
  lemma ReturnsSeeOwnFlight(c: Config, from: int, actions: seq<Action>, r: Return)
    requires r in After(c, from, actions).given
    ensures SeesOwnFlight(After(c, from, actions), r)
  {
    OwnFlightsSeen(c, from, actions);
  }

  /** `caller` neither returns nor is cancelled. */
  ghost predicate LeavesWaiting(caller: nat, a: Action) {
    !((a.End? || a.Cancel?) && a.caller == caller)
  }

  lemma {:induction false} WaiterIsKept(c: Config, from: int, before: seq<Action>, during: seq<Action>, caller: nat)
    requires caller in After(c, from, before).waiting && forall a :: a in during ==> LeavesWaiting(caller, a)
    ensures caller in After(c, from, before + during).waiting
    ensures After(c, from, before + during).waiting[caller] == After(c, from, before).waiting[caller]
    decreases |during|
  {
    if during == [] {
      assert before + during == before;
    } else {
      var init, a := during[..|during| - 1], during[|during| - 1];
      assert LeavesWaiting(caller, a);
      WaiterIsKept(c, from, before, init, caller);
      assert (before + during)[..|before + during| - 1] == before + init && (before + during)[|before + during| - 1] == a;
    }
  }

  /** The flight of a return is the one that was in progress right after the caller began. */
  lemma ReturnNamesTheFlightJoined(c: Config, from: int, before: seq<Action>, begin: Action, during: seq<Action>, end: Action)
    requires begin.BeginLookup? || begin.BeginRefresh?
    requires Enabled(After(c, from, before), begin)
    requires begin.BeginLookup? ==> AnsweredAtOnce(c, After(c, from, before).f, begin.kid, begin.now).None?
    requires forall a :: a in during ==> LeavesWaiting(begin.caller, a)
    requires end.End? && end.caller == begin.caller && Enabled(After(c, from, before + [begin] + during), end)
    ensures
      var joined := After(c, from, before + [begin]).f.inflight;
      var given := After(c, from, before + [begin] + during + [end]).given;
      && joined.Some? && given != []
      && match given[|given| - 1]
         case LookupReturn(kid, begunAt, flight, _) =>
           begin.BeginLookup? && kid == begin.kid && begunAt == begin.now && flight == joined
         case RefreshReturn(begunAt, refreshed, _) =>
           begin.BeginRefresh? && begunAt == begin.now && Some(refreshed) == joined
  {
    var start := before + [begin];
    assert start[..|start| - 1] == before && start[|start| - 1] == begin;
    FlightsKept(c, from, before);
    WaiterIsKept(c, from, start, during, begin.caller);
    var run := start + during + [end];
    assert run[..|run| - 1] == start + during && run[|run| - 1] == end;
  }

  // ---- How long a withdrawn key can be answered ------------------------------------

  /** The document was what the upstream published at some moment of the interval. */
  ghost predicate Published(upstream: int -> Document, doc: Document, lo: int, hi: int) {
    exists p :: lo <= p <= hi && upstream(p) == doc
  }

  ghost predicate Withdrawn(upstream: int -> Document, k: Key, since: int) {
    forall t :: since <= t ==> k !in upstream(t)
  }

  /** Flights land within `limit` with a document published between their start and their end. */
  ghost predicate Timely(limit: nat, upstream: int -> Document, w: World, a: Action) {
    a.Land? && Enabled(w, a) ==>
      var start := w.flights[a.landed].startedAt;
      && a.now <= start + limit
      && (a.outcome.Fetched? ==> start <= a.publishedAt <= a.now && a.outcome.doc == upstream(a.publishedAt))
  }

  ghost predicate TimelyRun(c: Config, limit: nat, upstream: int -> Document, from: int, actions: seq<Action>) {
    actions != [] ==>
      var before := actions[..|actions| - 1];
      TimelyRun(c, limit, upstream, from, before) && Timely(limit, upstream, After(c, from, before), actions[|actions| - 1])
  }

  function LongestFresh(c: Config): int {
    if c.minRefresh < c.maxCache then c.maxCache else c.minRefresh
  }

  ghost predicate CacheIsRecent(c: Config, limit: nat, upstream: int -> Document, w: World) {
    w.f.cached.Some? ==>
      && w.f.fetchedAt <= w.clock && w.f.freshFor <= LongestFresh(c)
      && Published(upstream, w.f.cached.value, w.f.fetchedAt - limit, w.f.fetchedAt)
  }

  ghost predicate FlightIsRecent(limit: nat, upstream: int -> Document, w: World, fl: Flight) {
    fl.landing.Some? ==>
      && fl.landing.value.at <= w.clock && fl.landing.value.at <= fl.startedAt + limit
      && (fl.landing.value.outcome.Fetched? ==>
            Published(upstream, fl.landing.value.outcome.doc, fl.startedAt, fl.landing.value.at))
  }

  /** A caller joined its flight before the flight landed. */
  ghost predicate WaitsForFuture(w: World, waiter: Waiter) {
    && waiter.flight < |w.flights| && waiter.begunAt <= w.clock
    && (w.flights[waiter.flight].landing.Some? ==> waiter.begunAt <= w.flights[waiter.flight].landing.value.at)
  }

  /** No key withdrawn long enough before the lookup began. */
  ghost predicate Safe(c: Config, limit: nat, upstream: int -> Document, r: Return) {
    r.LookupReturn? && r.answer.Found? ==>
      forall since :: Withdrawn(upstream, r.answer.key, since) ==>
        r.begunAt < since + limit + LongestFresh(c) + c.maxStale
  }

  ghost predicate AllRecent(c: Config, limit: nat, upstream: int -> Document, w: World) {
    && OneInProgress(w)
    && CacheIsRecent(c, limit, upstream, w)
    && (forall i :: 0 <= i < |w.flights| ==> FlightIsRecent(limit, upstream, w, w.flights[i]))
    && (forall caller :: caller in w.waiting ==> WaitsForFuture(w, w.waiting[caller]))
  }

  lemma FoundIsHeld(doc: Document, kid: string)
    ensures Find(doc, kid).Some? ==> Find(doc, kid).value in doc
  {
  }

  /** An answer from the cache, fresh or in its stale window, is safe for a lookup begun by then. */
  lemma CachedAnswerIsSafe(c: Config, limit: nat, upstream: int -> Document, w: World, kid: string, begunAt: int, now: int)
    requires CacheIsRecent(c, limit, upstream, w) && w.f.cached.Some? && w.clock <= now && begunAt <= now
    requires CacheAge(now, w.f.fetchedAt) < w.f.freshFor + c.maxStale
    requires Find(w.f.cached.value, kid).Some?
    ensures Safe(c, limit, upstream, LookupReturn(kid, begunAt, None, Found(Find(w.f.cached.value, kid).value)))
  {
    var doc := w.f.cached.value;
    FoundIsHeld(doc, kid);
    var p :| w.f.fetchedAt - limit <= p <= w.f.fetchedAt && upstream(p) == doc;
    forall since | Withdrawn(upstream, Find(doc, kid).value, since)
      ensures begunAt < since + limit + LongestFresh(c) + c.maxStale
    {
      assert p < since;
    }
  }

  lemma FallbackAnswerIsSafe(c: Config, limit: nat, upstream: int -> Document, w: World, kid: string,
                             begunAt: int, now: int, err: Option<FetchError>)
    requires ValidConfig(c) && CacheIsRecent(c, limit, upstream, w) && w.clock <= now && begunAt <= now
    ensures
      var (kept, e) := Fallback(c, w.f, now, err);
      Safe(c, limit, upstream, LookupReturn(kid, begunAt, None, LookupOrErr(kept, kid, e)))
  {
    var (kept, e) := Fallback(c, w.f, now, err);
    if kept.Some? && Find(kept.value, kid).Some? {
      CachedAnswerIsSafe(c, limit, upstream, w, kid, begunAt, now);
    }
  }

  lemma AnswerAtOnceIsSafe(c: Config, limit: nat, upstream: int -> Document, w: World, kid: string, now: int)
    requires ValidConfig(c) && CacheIsRecent(c, limit, upstream, w) && w.clock <= now
    requires AnsweredAtOnce(c, w.f, kid, now).Some?
    ensures Safe(c, limit, upstream, LookupReturn(kid, now, None, AnsweredAtOnce(c, w.f, kid, now).value))
  {
    if Hit(w.f, kid, now) {
      CachedAnswerIsSafe(c, limit, upstream, w, kid, now, now);
    } else {
      FallbackAnswerIsSafe(c, limit, upstream, w, kid, now, now, w.f.lastErr);
    }
  }

  lemma WaitedAnswerIsSafe(c: Config, limit: nat, upstream: int -> Document, w: World, waiter: Waiter, now: int)
    requires ValidConfig(c) && AllRecent(c, limit, upstream, w) && w.clock <= now
    requires WaitsForFuture(w, waiter) && w.flights[waiter.flight].landing.Some?
    ensures Safe(c, limit, upstream, Returned(c, w, waiter, now))
  {
    var fl := w.flights[waiter.flight];
    assert FlightIsRecent(limit, upstream, w, fl);
    if waiter.kid.Some? {
      var kid := waiter.kid.value;
      match fl.landing.value.outcome {
        case Failed =>
          FallbackAnswerIsSafe(c, limit, upstream, w, kid, waiter.begunAt, now, Some(AttemptFailed));
        case Fetched(doc, _) =>
          FoundIsHeld(doc, kid);
          var p :| fl.startedAt <= p <= fl.landing.value.at && upstream(p) == doc;
          if Find(doc, kid).Some? {
            forall since | Withdrawn(upstream, Find(doc, kid).value, since)
              ensures waiter.begunAt < since + limit + LongestFresh(c) + c.maxStale
            {
              assert p < since;
            }
          }
      }
    }
  }

  lemma JoinKeepsRecent(c: Config, limit: nat, upstream: int -> Document, w: World, caller: nat, kid: Option<string>, now: int)
    requires AllRecent(c, limit, upstream, w) && w.clock <= now
    requires OneInProgress(Join(w, caller, kid, now))
    ensures AllRecent(c, limit, upstream, Join(w, caller, kid, now))
  {
    var w' := Join(w, caller, kid, now);
    forall i | 0 <= i < |w'.flights|
      ensures FlightIsRecent(limit, upstream, w', w'.flights[i])
    {
      if i < |w.flights| {
        assert FlightIsRecent(limit, upstream, w, w.flights[i]) && w'.flights[i] == w.flights[i];
      }
    }
    forall x | x in w'.waiting
      ensures WaitsForFuture(w', w'.waiting[x])
    {
      if x != caller {
        assert WaitsForFuture(w, w.waiting[x]);
      }
    }
  }

  lemma LandKeepsRecent(c: Config, limit: nat, upstream: int -> Document, w: World,
                        id: nat, outcome: Outcome, now: int, publishedAt: int)
    requires ValidConfig(c) && AllRecent(c, limit, upstream, w) && Enabled(w, Land(id, outcome, now, publishedAt))
    requires Timely(limit, upstream, w, Land(id, outcome, now, publishedAt))
    requires OneInProgress(Landed(c, w, id, outcome, now, publishedAt))
    ensures AllRecent(c, limit, upstream, Landed(c, w, id, outcome, now, publishedAt))
  {
    var w' := Landed(c, w, id, outcome, now, publishedAt);
    if outcome.Fetched? {
      assert upstream(publishedAt) == outcome.doc;
      assert Published(upstream, outcome.doc, w.flights[id].startedAt, now);
      assert Published(upstream, outcome.doc, now - limit, now);
    }
    forall i | 0 <= i < |w'.flights|
      ensures FlightIsRecent(limit, upstream, w', w'.flights[i])
    {
      if i != id {
        assert FlightIsRecent(limit, upstream, w, w.flights[i]) && w'.flights[i] == w.flights[i];
      }
    }
    forall x | x in w'.waiting
      ensures WaitsForFuture(w', w'.waiting[x])
    {
      assert WaitsForFuture(w, w.waiting[x]);
    }
  }

  lemma StepKeepsRecent(c: Config, limit: nat, upstream: int -> Document, w: World, a: Action)
    requires ValidConfig(c) && AllRecent(c, limit, upstream, w) && Spaced(c, w.flights) && Timely(limit, upstream, w, a)
    ensures AllRecent(c, limit, upstream, Do(c, w, a))
  {
    StepKeepsFlights(c, w, a);
    if Enabled(w, a) {
      match a
      case BeginLookup(caller, kid, now) =>
        if AnsweredAtOnce(c, w.f, kid, now).None? {
          JoinKeepsRecent(c, limit, upstream, w, caller, Some(kid), now);
        } else {
          TickKeepsRecent(c, limit, upstream, w, Do(c, w, a));
        }
      case BeginRefresh(caller, now) => JoinKeepsRecent(c, limit, upstream, w, caller, None, now);
      case Land(id, outcome, now, publishedAt) => LandKeepsRecent(c, limit, upstream, w, id, outcome, now, publishedAt);
      case _ => TickKeepsRecent(c, limit, upstream, w, Do(c, w, a));
    }
  }

  lemma TickKeepsRecent(c: Config, limit: nat, upstream: int -> Document, w: World, w': World)
    requires AllRecent(c, limit, upstream, w) && OneInProgress(w')
    requires w'.f == w.f && w'.flights == w.flights && w.clock <= w'.clock
    requires forall x :: x in w'.waiting ==> x in w.waiting && w'.waiting[x] == w.waiting[x]
    ensures AllRecent(c, limit, upstream, w')
  {
    forall i | 0 <= i < |w'.flights|
      ensures FlightIsRecent(limit, upstream, w', w'.flights[i])
    {
      assert FlightIsRecent(limit, upstream, w, w.flights[i]);
    }
    forall x | x in w'.waiting
      ensures WaitsForFuture(w', w'.waiting[x])
    {
      assert WaitsForFuture(w, w.waiting[x]);
    }
  }

  lemma {:induction false} ReturnsAreSafe(c: Config, limit: nat, upstream: int -> Document, from: int, actions: seq<Action>)
    requires ValidConfig(c) && TimelyRun(c, limit, upstream, from, actions)
    ensures AllRecent(c, limit, upstream, After(c, from, actions))
    ensures forall r :: r in After(c, from, actions).given ==> Safe(c, limit, upstream, r)
  {
    if actions != [] {
      var before, a := actions[..|actions| - 1], actions[|actions| - 1];
      var w := After(c, from, before);
      ReturnsAreSafe(c, limit, upstream, from, before);
      FlightsKept(c, from, before);
      StepKeepsRecent(c, limit, upstream, w, a);
      if Enabled(w, a) {
        if a.BeginLookup? && AnsweredAtOnce(c, w.f, a.kid, a.now).Some? {
          AnswerAtOnceIsSafe(c, limit, upstream, w, a.kid, a.now);
        } else if a.End? {
          WaitedAnswerIsSafe(c, limit, upstream, w, w.waiting[a.caller], a.now);
        }
      }
    }
  }

  /**
   A key the upstream stops publishing at `since` is never the answer of a lookup begun at or
   after since + limit + max(minRefresh, maxCache) + maxStale.
   */
  lemma WithdrawnKeysExpire(c: Config, limit: nat, upstream: int -> Document, from: int, actions: seq<Action>,
                            r: Return, k: Key, since: int)
    requires ValidConfig(c) && TimelyRun(c, limit, upstream, from, actions)
    requires r in After(c, from, actions).given && r.LookupReturn?
    requires Withdrawn(upstream, k, since) && r.begunAt >= since + limit + LongestFresh(c) + c.maxStale
    ensures r.answer != Found(k)
  {
    ReturnsAreSafe(c, limit, upstream, from, actions);
    assert Safe(c, limit, upstream, r);
  }

  /** A Cache-Control under which a document stays fresh as long as any can. */
  function LongestCache(c: Config): CacheControl.Parsed {
    CacheControl.Parsed(c.maxCache, c.maxCache > c.minRefresh, false, false)
  }

  /** The run that reaches the bound: fetched at the last moment, landed late, kept as long as allowed. */
  function LatestRun(c: Config, limit: nat, k: Key, last: int): seq<Action> {
    [BeginLookup(0, k.kid, 0), Land(0, Fetched([k], LongestCache(c)), limit, 0),
     BeginLookup(1, k.kid, last), Land(1, Failed, last, last), End(1, last)]
  }

  /** Published up to time zero, withdrawn from then on. */
  function OnceOnly(k: Key): int -> Document {
    t => if t <= 0 then [k] else []
  }

  lemma RunStep(c: Config, from: int, actions: seq<Action>, a: Action)
    ensures After(c, from, actions + [a]) == Do(c, After(c, from, actions), a)
  {
    assert (actions + [a])[..|actions|] == actions;
  }

  lemma TimelyStep(c: Config, limit: nat, upstream: int -> Document, from: int, actions: seq<Action>, a: Action)
    requires TimelyRun(c, limit, upstream, from, actions) && Timely(limit, upstream, After(c, from, actions), a)
    ensures TimelyRun(c, limit, upstream, from, actions + [a])
  {
    assert (actions + [a])[..|actions|] == actions;
  }

  /** The world after the first document has landed. */
  lemma DocumentKept(c: Config, limit: nat, k: Key)
    requires ValidConfig(c) && k.kid != ""
    ensures
      var run := [BeginLookup(0, k.kid, 0), Land(0, Fetched([k], LongestCache(c)), limit, 0)];
      var w := After(c, 0, run);
      && TimelyRun(c, limit, OnceOnly(k), 0, run)
      && w.f == Fetcher(Some([k]), limit, LongestFresh(c), Some(0), None, None) && w.clock == limit
      && w.flights == [Flight(0, true, Some(Landing(Fetched([k], LongestCache(c)), limit, 0)))]
      && w.waiting == map[0 := Waiter(Some(k.kid), 0, 0)] && w.given == []
  {
    var begin, land := BeginLookup(0, k.kid, 0), Land(0, Fetched([k], LongestCache(c)), limit, 0);
    var w0 := World(INITIAL, 0, [], map[], []);
    assert After(c, 0, []) == w0 && TimelyRun(c, limit, OnceOnly(k), 0, []);
    RunStep(c, 0, [], begin);
    TimelyStep(c, limit, OnceOnly(k), 0, [], begin);
    RunStep(c, 0, [begin], land);
    TimelyStep(c, limit, OnceOnly(k), 0, [begin], land);
    assert [] + [begin] == [begin] && [begin] + [land] == [begin, land];
  }

  /** The withdrawn key is still the answer at the last moment the bound leaves open. */
  lemma LastAnswer(c: Config, limit: nat, k: Key, w: World, last: int)
    requires ValidConfig(c) && k.kid != "" && last == limit + LongestFresh(c) + c.maxStale - 1
    requires w.f == Fetcher(Some([k]), limit, LongestFresh(c), Some(0), None, None) && w.clock == limit
    requires |w.flights| == 1 && 1 !in w.waiting
    ensures
      var w1 := Do(c, w, BeginLookup(1, k.kid, last));
      var w2 := Do(c, w1, Land(1, Failed, last, last));
      var w3 := Do(c, w2, End(1, last));
      && Timely(limit, OnceOnly(k), w1, Land(1, Failed, last, last))
      && exists flight :: LookupReturn(k.kid, last, flight, Found(k)) in w3.given
  {
    assert Position([k], k.kid) == 0;
    assert Find([k], k.kid) == Some(k);
    var w1 := Do(c, w, BeginLookup(1, k.kid, last));
    var w3 := Do(c, Do(c, w1, Land(1, Failed, last, last)), End(1, last));
    if c.maxStale == 0 {
      assert LookupReturn(k.kid, last, None, Found(k)) in w1.given;
      assert w3.given == w1.given;
    } else {
      assert w1.waiting[1] == Waiter(Some(k.kid), last, 1);
      assert LookupReturn(k.kid, last, Some(1), Found(k)) in w3.given;
    }
  }

  /**
   The bound is reached under every configuration and every limit: a lookup begun one moment before
   the last one the bound allows still answers the key withdrawn at time one.
   */
  lemma BoundIsReached(c: Config, limit: nat, k: Key)
    requires ValidConfig(c) && k.kid != ""
    ensures
      var since := 1;
      var last := since + limit + LongestFresh(c) + c.maxStale - 2;
      var run := LatestRun(c, limit, k, last);
      && Withdrawn(OnceOnly(k), k, since) && TimelyRun(c, limit, OnceOnly(k), 0, run)
      && exists flight :: LookupReturn(k.kid, last, flight, Found(k)) in After(c, 0, run).given
  {
    var last := limit + LongestFresh(c) + c.maxStale - 1;
    var start := [BeginLookup(0, k.kid, 0), Land(0, Fetched([k], LongestCache(c)), limit, 0)];
    var begin, land, end := BeginLookup(1, k.kid, last), Land(1, Failed, last, last), End(1, last);
    DocumentKept(c, limit, k);
    LastAnswer(c, limit, k, After(c, 0, start), last);
    RunStep(c, 0, start, begin);
    RunStep(c, 0, start + [begin], land);
    RunStep(c, 0, start + [begin] + [land], end);
    TimelyStep(c, limit, OnceOnly(k), 0, start, begin);
    TimelyStep(c, limit, OnceOnly(k), 0, start + [begin], land);
    TimelyStep(c, limit, OnceOnly(k), 0, start + [begin] + [land], end);
    assert start + [begin] + [land] + [end] == LatestRun(c, limit, k, last);
  }

  // ---- The clean "not found" of a rate-limited lookup ------------------------------

  /** What the fetcher remembers of its last landed flight. */
  ghost predicate RemembersLast(w: World) {
    w.f.inflight.None? && w.flights != [] ==>
      var landing := w.flights[|w.flights| - 1].landing;
      landing.Some? &&
      match landing.value.outcome
      case Failed => w.f.lastErr == Some(AttemptFailed)
      case Fetched(doc, cache) => w.f.lastErr == None && w.f.cached == if cache.noStore then None else Some(doc)
  }

  lemma {:induction false} LastIsRemembered(c: Config, from: int, actions: seq<Action>)
    ensures RemembersLast(After(c, from, actions))
  {
    if actions != [] {
      LastIsRemembered(c, from, actions[..|actions| - 1]);
      FlightsKept(c, from, actions[..|actions| - 1]);
    }
  }

  /**
   Lookup promises "not found" without an error only for a kid the fetched document lacks. When
   the last document does hold the key, a rate-limited lookup still says so exactly when that
   document was no-store.
   */
  lemma CleanMissExactlyAfterNoStore(c: Config, from: int, actions: seq<Action>, kid: string, now: int)
    requires
      var w := After(c, from, actions);
      && w.f.inflight.None? && w.flights != [] && !MayAttempt(c, w.f, now)
      && (w.flights[|w.flights| - 1].landing.Some? && w.flights[|w.flights| - 1].landing.value.outcome.Fetched? &&
          Find(w.flights[|w.flights| - 1].landing.value.outcome.doc, kid).Some?)
    ensures
      var w := After(c, from, actions);
      AnsweredAtOnce(c, w.f, kid, now) == Some(NotFound) <==>
        w.flights[|w.flights| - 1].landing.value.outcome.cache.noStore
  {
    LastIsRemembered(c, from, actions);
  }

  /** It does happen, under every configuration: two steps lead there. */
  lemma CleanMissHappens(c: Config, k: Key)
    requires ValidConfig(c) && k.kid != ""
    ensures
      var cache := CacheControl.Parsed(0, false, false, true);
      var run := [BeginLookup(0, k.kid, 0), Land(0, Fetched([k], cache), 0, 0)];
      var w := After(c, 0, run);
      && w.flights == [Flight(0, true, Some(Landing(Fetched([k], cache), 0, 0)))] && Find([k], k.kid) == Some(k)
      && AnsweredAtOnce(c, w.f, k.kid, 0) == Some(NotFound)
  {
    var begin, land := BeginLookup(0, k.kid, 0), Land(0, Fetched([k], CacheControl.Parsed(0, false, false, true)), 0, 0);
    var run := [begin, land];
    assert run[..1] == [begin] && [begin][..0] == [];
    assert After(c, 0, []) == World(INITIAL, 0, [], map[], []);
    assert After(c, 0, [begin]) == Do(c, World(INITIAL, 0, [], map[], []), begin);
    assert After(c, 0, run) == Do(c, After(c, 0, [begin]), land);
    assert Position([k], k.kid) == 0;
  }

  // ---- How soon a published key is found -------------------------------------------

  ghost predicate PublishedFrom(upstream: int -> Document, kid: string, since: int) {
    forall t :: since <= t ==> Find(upstream(t), kid).Some?
  }

  /** A no-store document landed from an attempt less than minRefresh before `now`. */
  ghost predicate NoStoreWithin(c: Config, w: World, now: int) {
    exists i :: 0 <= i < |w.flights| && LandedNoStore(w.flights[i]) && now - c.minRefresh < w.flights[i].startedAt <= now
  }

  ghost predicate LandedNoStore(fl: Flight) {
    fl.landing.Some? && fl.landing.value.outcome.Fetched? && fl.landing.value.outcome.cache.noStore
  }

  /** A clean miss, long enough after a key was published, is the miss after a no-store document. */
  ghost predicate MissIsExplained(c: Config, limit: nat, upstream: int -> Document, w: World, r: Return) {
    r.LookupReturn? && r.answer == NotFound ==>
      forall since :: PublishedFrom(upstream, r.kid, since) && r.begunAt >= since + limit && r.begunAt >= since + c.minRefresh ==>
        r.flight.None? && NoStoreWithin(c, w, r.begunAt)
  }

  lemma ExplanationStays(c: Config, limit: nat, upstream: int -> Document, w: World, w': World, r: Return)
    requires Extends(w, w') && MissIsExplained(c, limit, upstream, w, r)
    ensures MissIsExplained(c, limit, upstream, w', r)
  {
    if r.LookupReturn? && NoStoreWithin(c, w, r.begunAt) {
      var i :| 0 <= i < |w.flights| && LandedNoStore(w.flights[i]) && r.begunAt - c.minRefresh < w.flights[i].startedAt <= r.begunAt;
      assert LandedNoStore(w'.flights[i]);
    }
  }

  /** The rate limit allowed no attempt, so the last document is younger than minRefresh. */
  lemma MissAtOnceIsExplained(c: Config, limit: nat, upstream: int -> Document, w: World, kid: string, now: int)
    requires ValidConfig(c) && AllRecent(c, limit, upstream, w) && RemembersLast(w) && w.clock <= now
    requires AnsweredAtOnce(c, w.f, kid, now) == Some(NotFound)
    ensures MissIsExplained(c, limit, upstream, w, LookupReturn(kid, now, None, NotFound))
  {
    var last := w.flights[|w.flights| - 1];
    assert FlightIsRecent(limit, upstream, w, last);
    forall since | PublishedFrom(upstream, kid, since) && now >= since + limit && now >= since + c.minRefresh
      ensures NoStoreWithin(c, w, now)
    {
      var doc := last.landing.value.outcome.doc;
      var p :| last.startedAt <= p <= last.landing.value.at && upstream(p) == doc;
      assert Find(doc, kid).Some?;
      assert LandedNoStore(last);
    }
  }

  /** A flight still in progress when the lookup began fetched its document after the publication. */
  lemma WaitedMissIsExplained(c: Config, limit: nat, upstream: int -> Document, w: World, waiter: Waiter, now: int)
    requires AllRecent(c, limit, upstream, w) && w.clock <= now
    requires WaitsForFuture(w, waiter) && w.flights[waiter.flight].landing.Some?
    ensures MissIsExplained(c, limit, upstream, w, Returned(c, w, waiter, now))
  {
    var fl := w.flights[waiter.flight];
    assert FlightIsRecent(limit, upstream, w, fl);
    if waiter.kid.Some? && fl.landing.value.outcome.Fetched? {
      var kid, doc := waiter.kid.value, fl.landing.value.outcome.doc;
      var p :| fl.startedAt <= p <= fl.landing.value.at && upstream(p) == doc;
      if Find(doc, kid).None? {
        forall since | PublishedFrom(upstream, kid, since)
          ensures waiter.begunAt < since + limit
        {
          assert p < since;
        }
      }
    }
  }

  lemma {:induction false} MissesAreExplained(c: Config, limit: nat, upstream: int -> Document, from: int, actions: seq<Action>)
    requires ValidConfig(c) && TimelyRun(c, limit, upstream, from, actions)
    ensures forall r :: r in After(c, from, actions).given ==> MissIsExplained(c, limit, upstream, After(c, from, actions), r)
  {
    if actions != [] {
      var before, a := actions[..|actions| - 1], actions[|actions| - 1];
      var w, w' := After(c, from, before), After(c, from, actions);
      MissesAreExplained(c, limit, upstream, from, before);
      ReturnsAreSafe(c, limit, upstream, from, before);
      LastIsRemembered(c, from, before);
      StepExtends(c, w, a);
      forall r | r in w'.given
        ensures MissIsExplained(c, limit, upstream, w', r)
      {
        if r in w.given {
          ExplanationStays(c, limit, upstream, w, w', r);
        } else if a.End? {
          WaitedMissIsExplained(c, limit, upstream, w, w.waiting[a.caller], a.now);
          ExplanationStays(c, limit, upstream, w, w', r);
        } else if r.answer == NotFound {
          MissAtOnceIsExplained(c, limit, upstream, w, a.kid, a.now);
          ExplanationStays(c, limit, upstream, w, w', r);
        }
      }
    }
  }

  /**
   A key published under `kid` from `since` on is not cleanly missed by a lookup begun at or after
   since + max(limit, minRefresh), unless the last attempt, less than minRefresh old, was no-store.
   */
  lemma PublishedKeysAreFound(c: Config, limit: nat, upstream: int -> Document, from: int, actions: seq<Action>,
                              r: Return, since: int)
    requires ValidConfig(c) && TimelyRun(c, limit, upstream, from, actions)
    requires r in After(c, from, actions).given && r.LookupReturn? && PublishedFrom(upstream, r.kid, since)
    requires r.begunAt >= since + limit && r.begunAt >= since + c.minRefresh
    ensures r.answer != NotFound || (r.flight.None? && NoStoreWithin(c, After(c, from, actions), r.begunAt))
  {
    MissesAreExplained(c, limit, upstream, from, actions);
    assert MissIsExplained(c, limit, upstream, After(c, from, actions), r);
  }
}
