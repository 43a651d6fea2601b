/**
 The remote key cache. Each region the Go code runs under its lock is one method; a network
 fetch is the pair of the method that starts the flight and `Complete`, which lands it with a
 document or an error. Clock readings are parameters.
 */
module KeyFetcherModel {
  import opened Wrappers
  import opened Keys
  import opened KeySets
  import opened CacheControl

  /** The three durations of the options, which keep them positive (maxStale may be zero). */
  datatype Config = Config(minRefresh: int, maxCache: int, maxStale: int)

  ghost predicate ValidConfig(c: Config) {
    c.minRefresh > 0 && c.maxCache > 0 && c.maxStale >= 0
  }

  type Document = seq<Key>

  /** Both wrap ErrKeyFetch: an attempt failed, or the retained document is too old. */
  datatype FetchError = AttemptFailed | StaleTooLong

  /** What fetchJWKS returns. */
  datatype Outcome = Fetched(doc: Document, cache: Parsed) | Failed

  datatype Answer = Found(key: Key) | NotFound | Error(error: FetchError)

  /** The mutable fields; `inflight` names the flight in progress. */
  datatype Fetcher = Fetcher(
    cached: Option<Document>, fetchedAt: int, freshFor: int,
    lastAttempt: Option<int>, lastErr: Option<FetchError>, inflight: Option<nat>)

  const INITIAL := Fetcher(None, 0, 0, None, None, None)

  function CacheAge(now: int, fetchedAt: int): nat {
    if now < fetchedAt then 0 else now - fetchedAt
  }

  predicate StaleAt(f: Fetcher, now: int) {
    CacheAge(now, f.fetchedAt) >= f.freshFor
  }

  predicate MayAttempt(c: Config, f: Fetcher, now: int) {
    f.lastAttempt.None? || now - f.lastAttempt.value >= c.minRefresh
  }

  /** The retained document while its stale window is open, and the error to report without it. */
  function Fallback(c: Config, f: Fetcher, now: int, err: Option<FetchError>): (Option<Document>, Option<FetchError>) {
    if f.cached.None? then (None, err)
    else
      var age := CacheAge(now, f.fetchedAt);
      if age < f.freshFor || age - f.freshFor < c.maxStale then (f.cached, err)
      else (None, if err.None? then Some(StaleTooLong) else err)
  }

  function LookupOrErr(cached: Option<Document>, kid: string, err: Option<FetchError>): Answer {
    if cached.Some? && Find(cached.value, kid).Some? then Found(Find(cached.value, kid).value)
    else if err.None? then NotFound
    else Error(err.value)
  }

  /** A fresh document that holds the key. */
  predicate Hit(f: Fetcher, kid: string, now: int) {
    f.cached.Some? && Find(f.cached.value, kid).Some? && !StaleAt(f, now)
  }

  /** The first locked region of Lookup answers, or leaves the caller to wait for a flight. */
  function AnsweredAtOnce(c: Config, f: Fetcher, kid: string, now: int): Option<Answer> {
    if Hit(f, kid, now) then Some(Found(Find(f.cached.value, kid).value))
    else if f.inflight.None? && !MayAttempt(c, f, now) then
      var (cached, err) := Fallback(c, f, now, f.lastErr);
      Some(LookupOrErr(cached, kid, err))
    else None
  }

  /** startFlightLocked: join the flight in progress or start `id`. */
  function Started(f: Fetcher, now: int, id: nat): Fetcher {
    if f.inflight.Some? then f else f.(inflight := Some(id), lastAttempt := Some(now))
  }

  function FreshFor(c: Config, cache: Parsed): int {
    if cache.noCache then 0
    else if cache.hasMaxAge then (if cache.maxAge < c.maxCache then cache.maxAge else c.maxCache)
    else c.minRefresh
  }

  /** The locked region at the end of a flight. */
  function Completed(c: Config, f: Fetcher, outcome: Outcome, now: int): Fetcher {
    match outcome
    case Failed => f.(lastErr := Some(AttemptFailed), inflight := None)
    case Fetched(doc, cache) =>
      var g := f.(lastErr := None, inflight := None);
      if cache.noStore then g.(cached := None, fetchedAt := 0, freshFor := 0)
      else g.(cached := Some(doc), fetchedAt := now, freshFor := FreshFor(c, cache))
  }

  /** What a Lookup that waited for a flight answers once it has landed. */
  function AnsweredAfter(c: Config, f: Fetcher, outcome: Outcome, kid: string, now: int): Answer {
    match outcome
    case Fetched(doc, _) => LookupOrErr(Some(doc), kid, None)
    case Failed =>
      var (cached, err) := Fallback(c, f, now, Some(AttemptFailed));
      LookupOrErr(cached, kid, err)
  }
}

module KeyFetchers {
  import opened Wrappers
  import opened KeySets
  import opened KeyFetcherModel

  /** One fetch that concurrent callers join; written once, when it lands. */
  class FetchFlight {
    ghost const id: nat
    var done: bool
    var doc: Option<Document>
    var err: Option<FetchError>
    ghost var outcome: Option<Outcome>

    /** Nothing is recorded before the flight lands; then the fields are its outcome. */
    ghost predicate Valid()
      reads this
    {
      match outcome
      case None => !done
      case Some(Failed) => done && doc == None && err == Some(AttemptFailed)
      case Some(Fetched(d, _)) => done && doc == Some(d) && err == None
    }

    constructor (ghost id: nat)
      ensures this.id == id && !done && Valid()
    {
      this.id := id;
      done, doc, err, outcome := false, None, None, None;
    }
  }

  class KeyFetcher {
    const config: Config
    var cached: Option<Document>
    var fetchedAt: int
    var freshFor: int
    var lastAttempt: Option<int>
    var lastErr: Option<FetchError>
    var inflight: FetchFlight?
    ghost var flights: nat

    ghost function Model(): Fetcher
      reads this
    {
      Fetcher(cached, fetchedAt, freshFor, lastAttempt, lastErr, if inflight == null then None else Some(inflight.id))
    }

    /** The flight in progress has not landed; flights are numbered as they start. */
    ghost predicate Valid()
      reads this, inflight
    {
      inflight != null ==> inflight.Valid() && !inflight.done && inflight.id < flights
    }

    constructor (config: Config)
      ensures Valid() && Model() == INITIAL && flights == 0 && this.config == config
    {
      this.config := config;
      cached, fetchedAt, freshFor, lastAttempt, lastErr, inflight := None, 0, 0, None, None, null;
      flights := 0;
    }

    method BeginLookup(kid: string, now: int) returns (answer: Option<Answer>, flight: FetchFlight?)
      requires Valid()
      modifies this
      ensures Valid()
      ensures answer == AnsweredAtOnce(config, old(Model()), kid, now)
      ensures answer.Some? ==> flight == null && Model() == old(Model()) && flights == old(flights)
      ensures answer.None? ==> Model() == Started(old(Model()), now, old(flights)) && flight == inflight && flight != null
      ensures answer.None? ==> if old(inflight) == null then fresh(flight) && flights == old(flights) + 1
                               else flight == old(inflight) && flights == old(flights)
    {
      if cached.Some? && Find(cached.value, kid).Some? && CacheAge(now, fetchedAt) < freshFor {
        return Some(Found(Find(cached.value, kid).value)), null;
      }
      if inflight == null && lastAttempt.Some? && now - lastAttempt.value < config.minRefresh {
        var kept, err := FallbackSet(now, lastErr);
        return Some(LookupOrErr(kept, kid, err)), null;
      }
      flight := StartFlight(now);
      answer := None;
    }

    method StartFlight(now: int) returns (flight: FetchFlight)
      requires Valid()
      modifies this
      ensures Valid() && Model() == Started(old(Model()), now, old(flights)) && flight == inflight
      ensures if old(inflight) == null then fresh(flight) && flights == old(flights) + 1
              else flight == old(inflight) && flights == old(flights)
    {
      if inflight != null {
        return inflight;
      }
      flight := new FetchFlight(flights);
      flights := flights + 1;
      inflight, lastAttempt := flight, Some(now);
    }

    method FallbackSet(now: int, fetchErr: Option<FetchError>) returns (kept: Option<Document>, err: Option<FetchError>)
      ensures (kept, err) == Fallback(config, Model(), now, fetchErr)
    {
      if cached.None? {
        return None, fetchErr;
      }
      var age := if now < fetchedAt then 0 else now - fetchedAt;
      if age < freshFor || age - freshFor < config.maxStale {
        return cached, fetchErr;
      }
      if fetchErr.None? {
        return None, Some(StaleTooLong);
      }
      return None, fetchErr;
    }

    /** The locked region of the flight's goroutine; the flight records the outcome its callers will read. */
    method Complete(fl: FetchFlight, outcome: Outcome, now: int)
      requires Valid() && fl.Valid() && !fl.done
      modifies this, fl
      ensures Valid() && Model() == Completed(config, old(Model()), outcome, now) && flights == old(flights)
      ensures fl.Valid() && fl.done && fl.outcome == Some(outcome)
    {
      match outcome {
        case Fetched(doc, cache) =>
          fl.doc, fl.err := Some(doc), None;
          if cache.noStore {
            cached, fetchedAt, freshFor := None, 0, 0;
          } else {
            cached, fetchedAt, freshFor := Some(doc), now, config.minRefresh;
            if cache.hasMaxAge {
              freshFor := if cache.maxAge < config.maxCache then cache.maxAge else config.maxCache;
            }
            if cache.noCache {
              freshFor := 0;
            }
          }
          lastErr := None;
        case Failed =>
          fl.doc, fl.err := None, Some(AttemptFailed);
          lastErr := Some(AttemptFailed);
      }
      fl.done, fl.outcome := true, Some(outcome);
      inflight := null;
    }

    /** What Lookup does after waiting: read its own flight, fall back only if that failed. */
    method EndLookup(flight: FetchFlight, kid: string, now: int) returns (answer: Answer)
      requires flight.Valid() && flight.done
      ensures flight.outcome.Some? && answer == AnsweredAfter(config, Model(), flight.outcome.value, kid, now)
    {
      if flight.err.None? {
        return LookupOrErr(flight.doc, kid, None);
      }
      var kept, err := FallbackSet(now, flight.err);
      answer := LookupOrErr(kept, kid, err);
    }
  }
}
