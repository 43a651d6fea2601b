/**
 What the key cache answers, told from the history of its flights alone: which document it keeps,
 how long that is fresh, how long it may still be used, and what is said without it.
 */
module KeyFetcherHistory {
  import opened Wrappers
  import opened Keys
  import opened KeySets
  import opened KeyFetcherModel
  import opened KeyFetcherRuns
  import CacheControl

  /** A document that was fetched, under which Cache-Control, and when it landed. */
  datatype Fetch = Fetch(doc: Document, cache: CacheControl.Parsed, at: int)

  /** The last document fetched, if any flight fetched one. */
  function LastFetch(flights: seq<Flight>): Option<Fetch> {
    if flights == [] then None
    else
      match flights[|flights| - 1].landing
      case Some(Landing(Fetched(doc, cache), at, _)) => Some(Fetch(doc, cache, at))
      case _ => LastFetch(flights[..|flights| - 1])
  }

  /** The moment from which a fetched document is no longer fresh. */
  function FreshUntil(c: Config, x: Fetch): int {
    if x.cache.noCache then x.at
    else if !x.cache.hasMaxAge then x.at + c.minRefresh
    else if x.cache.maxAge <= c.maxCache then x.at + x.cache.maxAge
    else x.at + c.maxCache
  }

  /** The key under `kid` in the last document, while `now` is before `until`; a no-store document is not kept. */
  function KeptKey(flights: seq<Flight>, kid: string, now: int, until: Fetch -> int): Option<Key> {
    match LastFetch(flights)
    case None => None
    case Some(x) => if x.cache.noStore || now >= until(x) then None else Find(x.doc, kid)
  }

  function FreshKey(c: Config, flights: seq<Flight>, kid: string, now: int): Option<Key> {
    KeptKey(flights, kid, now, x => FreshUntil(c, x))
  }

  function UsableKey(c: Config, flights: seq<Flight>, kid: string, now: int): Option<Key> {
    KeptKey(flights, kid, now, x => FreshUntil(c, x) + c.maxStale)
  }

  /** A flight is under way, or the next one may start. */
  predicate MustWait(c: Config, flights: seq<Flight>, now: int) {
    flights == [] || flights[|flights| - 1].landing.None? || now - flights[|flights| - 1].startedAt >= c.minRefresh
  }

  /** Why a lookup that may not wait found nothing. */
  function WhyNot(c: Config, flights: seq<Flight>, now: int): Answer
    requires flights != [] && flights[|flights| - 1].landing.Some?
  {
    if flights[|flights| - 1].landing.value.outcome.Failed? then Error(AttemptFailed)
    else
      var x := LastFetch(flights);
      if x.Some? && !x.value.cache.noStore && now >= FreshUntil(c, x.value) + c.maxStale then Error(StaleTooLong) else NotFound
  }

  /** The answer at once, or None for a lookup that waits for a flight. */
  function AtOnce(c: Config, flights: seq<Flight>, kid: string, now: int): Option<Answer> {
    if FreshKey(c, flights, kid, now).Some? then Some(Found(FreshKey(c, flights, kid, now).value))
    else if MustWait(c, flights, now) then None
    else if UsableKey(c, flights, kid, now).Some? then Some(Found(UsableKey(c, flights, kid, now).value))
    else Some(WhyNot(c, flights, now))
  }

  /** The cache holds the last document fetched, unless it was no-store. */
  ghost predicate Keeps(c: Config, f: Fetcher, last: Option<Fetch>, clock: int) {
    match last
    case None => f.cached == None
    case Some(x) =>
      x.at <= clock &&
      if x.cache.noStore then f.cached == None
      else f.cached == Some(x.doc) && f.fetchedAt == x.at && x.at + f.freshFor == FreshUntil(c, x)
  }

  /** The state is what the history says. */
  ghost predicate Matches(c: Config, w: World) {
    OneInProgress(w) && RemembersLast(w) && Keeps(c, w.f, LastFetch(w.flights), w.clock)
  }

  lemma JoinKeepsFetch(w: World, caller: nat, kid: Option<string>, now: int)
    ensures LastFetch(Join(w, caller, kid, now).flights) == LastFetch(w.flights)
  {
    var flights := Join(w, caller, kid, now).flights;
    if flights != w.flights {
      assert flights[..|flights| - 1] == w.flights;
    }
  }

  lemma LandingFetches(c: Config, w: World, outcome: Outcome, now: int, publishedAt: int)
    requires w.flights != []
    requires w.flights[|w.flights| - 1].landing.None?
    ensures
      var w' := Landed(c, w, |w.flights| - 1, outcome, now, publishedAt);
      LastFetch(w'.flights) ==
        match outcome
        case Fetched(doc, cache) => Some(Fetch(doc, cache, now))
        case Failed => LastFetch(w.flights)
  {
    var last := |w.flights| - 1;
    var flights := Landed(c, w, last, outcome, now, publishedAt).flights;
    assert flights[..last] == w.flights[..last];
  }

  lemma JoinMatches(c: Config, w: World, caller: nat, kid: Option<string>, now: int)
    requires Keeps(c, w.f, LastFetch(w.flights), w.clock) && w.clock <= now
    ensures
      var w' := Join(w, caller, kid, now);
      Keeps(c, w'.f, LastFetch(w'.flights), w'.clock)
  {
    JoinKeepsFetch(w, caller, kid, now);
  }

  lemma LandingKeeps(c: Config, f: Fetcher, outcome: Outcome, now: int, last: Option<Fetch>, clock: int)
    requires Keeps(c, f, last, clock) && clock <= now
    ensures
      var last' := match outcome case Fetched(doc, cache) => Some(Fetch(doc, cache, now)) case Failed => last;
      Keeps(c, Completed(c, f, outcome, now), last', now)
  {
  }

  lemma LandingMatches(c: Config, w: World, outcome: Outcome, now: int, publishedAt: int)
    requires Keeps(c, w.f, LastFetch(w.flights), w.clock) && w.clock <= now
    requires w.flights != [] && w.flights[|w.flights| - 1].landing.None?
    ensures
      var w' := Landed(c, w, |w.flights| - 1, outcome, now, publishedAt);
      Keeps(c, w'.f, LastFetch(w'.flights), w'.clock)
  {
    LandingFetches(c, w, outcome, now, publishedAt);
    LandingKeeps(c, w.f, outcome, now, LastFetch(w.flights), w.clock);
  }

  lemma StepKeeps(c: Config, w: World, a: Action)
    requires Matches(c, w)
    ensures
      var w' := Do(c, w, a);
      Keeps(c, w'.f, LastFetch(w'.flights), w'.clock)
  {
    if Enabled(w, a) {
      match a
      case BeginLookup(caller, kid, now) => JoinMatches(c, w, caller, Some(kid), now);
      case BeginRefresh(caller, now) => JoinMatches(c, w, caller, None, now);
      case Land(_, outcome, now, publishedAt) => LandingMatches(c, w, outcome, now, publishedAt);
      case _ =>
    }
  }

  lemma {:induction false} HistoryMatches(c: Config, from: int, actions: seq<Action>)
    ensures Matches(c, After(c, from, actions))
  {
    FlightsKept(c, from, actions);
    LastIsRemembered(c, from, actions);
    if actions != [] {
      HistoryMatches(c, from, actions[..|actions| - 1]);
      StepKeeps(c, After(c, from, actions[..|actions| - 1]), actions[|actions| - 1]);
    }
  }

  /** In every run, what a lookup is told at once, or that it waits, follows from the flights so far. */
  lemma AnswersFollowHistory(c: Config, from: int, actions: seq<Action>, kid: string, now: int)
    requires ValidConfig(c) && After(c, from, actions).clock <= now
    ensures
      var w := After(c, from, actions);
      AnsweredAtOnce(c, w.f, kid, now) == AtOnce(c, w.flights, kid, now)
  {
    HistoryMatches(c, from, actions);
  }

  /** After a failed flight, a caller that waited is told the key still usable, or the failure. */
  lemma FailedFlightAnswers(c: Config, from: int, actions: seq<Action>, kid: string, now: int)
    requires ValidConfig(c) && After(c, from, actions).clock <= now
    ensures
      var w := After(c, from, actions);
      AnsweredAfter(c, w.f, Failed, kid, now) ==
        match UsableKey(c, w.flights, kid, now) case Some(k) => Found(k) case None => Error(AttemptFailed)
  {
    HistoryMatches(c, from, actions);
  }

  /**
   While a flight is under way or may start, a kid of the last document, landed at `x.at`, is
   answered at once exactly while the document is stored and younger than nothing after no-cache,
   the lesser of max-age and maxCache when there is a max-age, and minRefresh otherwise.
   */
  lemma FreshnessIsExact(c: Config, from: int, actions: seq<Action>, x: Fetch, kid: string, now: int)
    requires ValidConfig(c) && After(c, from, actions).clock <= now
    requires
      var w := After(c, from, actions);
      LastFetch(w.flights) == Some(x) && Find(x.doc, kid).Some? && MustWait(c, w.flights, now)
    ensures
      var answer := AnsweredAtOnce(c, After(c, from, actions).f, kid, now);
      && (answer == None || answer == Some(Found(Find(x.doc, kid).value)))
      && (answer.Some? <==>
            && !x.cache.noStore && !x.cache.noCache
            && (x.cache.hasMaxAge ==> now - x.at < x.cache.maxAge && now - x.at < c.maxCache)
            && (!x.cache.hasMaxAge ==> now - x.at < c.minRefresh))
  {
    AnswersFollowHistory(c, from, actions, kid, now);
    HistoryMatches(c, from, actions);
    FreshUntilIsLeast(c, x, now);
  }

  lemma FreshUntilIsLeast(c: Config, x: Fetch, now: int)
    requires x.at <= now
    ensures now < FreshUntil(c, x) <==>
      && !x.cache.noCache
      && (x.cache.hasMaxAge ==> now - x.at < x.cache.maxAge && now - x.at < c.maxCache)
      && (!x.cache.hasMaxAge ==> now - x.at < c.minRefresh)
  {
  }

  /** After a no-cache landing every lookup that can wait for a flight does. */
  lemma NoCacheAlwaysWaits(c: Config, from: int, actions: seq<Action>, kid: string, now: int)
    requires ValidConfig(c) && After(c, from, actions).clock <= now
    requires
      var flights := After(c, from, actions).flights;
      LastFetch(flights).Some? && LastFetch(flights).value.cache.noCache && MustWait(c, flights, now)
    ensures AnsweredAtOnce(c, After(c, from, actions).f, kid, now) == None
  {
    HistoryMatches(c, from, actions);
    AnswersFollowHistory(c, from, actions, kid, now);
  }
}
