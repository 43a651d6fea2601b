/**
 The revocation store under arbitrary clock readings: an entry is judged by the latest reading
 since it was stored, and the fake differs exactly when a reading goes back past an expiry.
 */
module RevocationClocks {
  import opened Wrappers
  import opened RevocationModel
  import opened FakeStores
  import opened RevocationRuns

  /** A revocation, and the latest clock reading since it was stored. */
  datatype Watched = Watched(expiresAt: Expiry, latest: int)

  type Watch = map<string, Watched>

  predicate Holds(x: Watched) {
    LiveAt(x.expiresAt, x.latest)
  }

  function Seen(x: Watched, now: int): Watched {
    x.(latest := if x.latest < now then now else x.latest)
  }

  function SeenAll(f: Watch, now: int): Watch {
    map id | id in f :: Seen(f[id], now)
  }

  /** The revocations that still hold. */
  function Holding(f: Watch): Plain {
    map id | id in f && Holds(f[id]) :: f[id].expiresAt
  }

  predicate WatchRefuses(capacity: nat, f: Watch, id: string, expiresAt: Expiry, now: int) {
    capacity > 0 && LiveAt(expiresAt, now) && id !in Holding(f) && |Holding(f)| >= capacity
  }

  /** Nothing is ever forgotten; an empty id is refused before the clock is read. */
  function WatchStep(capacity: nat, f: Watch, c: Call): (Answer, Watch) {
    var g := SeenAll(f, c.now);
    match c
    case RevokeCall(id, _, expiresAt, now) =>
      if id == "" then (Revoked(Err(InvalidId)), f)
      else if WatchRefuses(capacity, g, id, expiresAt, now) then (Revoked(Err(StoreFull)), g)
      else (Revoked(Ok(())), g[id := Watched(expiresAt, now)])
    case IsRevokedCall(id, _) =>
      if id == "" then (Status(Err(InvalidId)), f) else (Status(Ok(id in Holding(g))), g)
  }

  function WatchAnswers(capacity: nat, f: Watch, calls: seq<Call>): seq<Answer>
    decreases |calls|
  {
    if calls == [] then []
    else
      var (a, f') := WatchStep(capacity, f, calls[0]);
      [a] + WatchAnswers(capacity, f', calls[1..])
  }

  lemma HoldingLater(f: Watch, now: int)
    ensures Holding(SeenAll(f, now)) == LivePlain(Holding(f), now)
  {
  }

  lemma HoldingUpdate(f: Watch, id: string, expiresAt: Expiry, now: int)
    ensures Holding(f[id := Watched(expiresAt, now)]) ==
      if LiveAt(expiresAt, now) then Holding(f)[id := expiresAt] else Holding(f) - {id}
  {
  }

  lemma SweptHolds(s: Store, f: Watch, now: int)
    requires Expiries(s.items) == Holding(f)
    ensures
      var swept, holding := Swept(s, now).items, Holding(SeenAll(f, now));
      && Expiries(swept) == holding && |swept| == |holding|
      && forall id :: id in swept <==> id in holding
  {
    HoldingLater(f, now);
    SweptExpiries(s.items, now);
    assert forall id :: id in Swept(s, now).items <==> id in Expiries(Swept(s, now).items);
  }

  lemma WatchStepAgrees(capacity: nat, s: Store, f: Watch, c: Call)
    requires Expiries(s.items) == Holding(f)
    ensures Step(capacity, s, c).0 == WatchStep(capacity, f, c).0
    ensures Expiries(Step(capacity, s, c).1.items) == Holding(WatchStep(capacity, f, c).1)
  {
    SweptHolds(s, f, c.now);
    if c.RevokeCall? && c.id != "" {
      HoldingUpdate(SeenAll(f, c.now), c.id, c.expiresAt, c.now);
      RevokeOnSwept(capacity, s, c.id, c.reason, c.expiresAt, c.now);
    }
  }

  lemma {:induction false} WatchAgrees(capacity: nat, s: Store, f: Watch, calls: seq<Call>)
    requires Expiries(s.items) == Holding(f)
    ensures Answers(capacity, s, calls) == WatchAnswers(capacity, f, calls)
    decreases |calls|
  {
    if calls != [] {
      WatchStepAgrees(capacity, s, f, calls[0]);
      WatchAgrees(capacity, Step(capacity, s, calls[0]).1, WatchStep(capacity, f, calls[0]).1, calls[1..]);
    }
  }

  /** Whatever the clock does, the store answers as the map that watches it. */
  lemma StoreAnswersLikeWatchingMap(capacity: nat, calls: seq<Call>)
    ensures Answers(capacity, EMPTY, calls) == WatchAnswers(capacity, map[], calls)
  {
    WatchAgrees(capacity, EMPTY, map[], calls);
  }

  // ---- The fake under arbitrary readings -------------------------------------------

  /** The fake's entries, with the readings the fake does not keep. */
  function FakeWatch(f: Watch, c: Call): Watch {
    var g := SeenAll(f, c.now);
    match c
    case RevokeCall(id, _, expiresAt, now) => g[id := Watched(expiresAt, now)]
    case IsRevokedCall(id, now) => if id in f && !LiveAt(f[id].expiresAt, now) then g - {id} else g
  }

  /** A reading goes back before the expiry of an entry that an earlier reading had passed. */
  predicate GoesBackPast(f: Watch, c: Call) {
    c.IsRevokedCall? && c.id in f && LiveAt(f[c.id].expiresAt, c.now) && !Holds(f[c.id])
  }

  predicate EverGoesBackPast(f: Watch, calls: seq<Call>)
    decreases |calls|
  {
    calls != [] && (GoesBackPast(f, calls[0]) || EverGoesBackPast(FakeWatch(f, calls[0]), calls[1..]))
  }

  function WatchExpiries(f: Watch): Plain {
    map id | id in f :: f[id].expiresAt
  }

  lemma FakeWatchFollows(e: FakeEntries, f: Watch, c: Call)
    requires FakeExpiries(e) == WatchExpiries(f)
    ensures FakeExpiries(FakeStep(e, c).1) == WatchExpiries(FakeWatch(f, c))
  {
    assert forall id :: id in e <==> id in FakeExpiries(e);
    assert forall id :: id in f <==> id in WatchExpiries(f);
    var g := SeenAll(f, c.now);
    assert WatchExpiries(g) == WatchExpiries(f);
    match c {
      case RevokeCall(id, reason, expiresAt, now) =>
        assert FakeExpiries(FakeRevoke(e, id, reason, expiresAt)) == FakeExpiries(e)[id := expiresAt];
        assert WatchExpiries(g[id := Watched(expiresAt, now)]) == WatchExpiries(g)[id := expiresAt];
      case IsRevokedCall(id, now) =>
        assert id in e ==> e[id].expiresAt == FakeExpiries(e)[id] == WatchExpiries(f)[id];
        assert FakeExpiries(e - {id}) == FakeExpiries(e) - {id};
        assert WatchExpiries(g - {id}) == WatchExpiries(g) - {id};
    }
  }

  lemma StoreFollowsFakeWatch(s: Store, f: Watch, c: Call)
    requires Expiries(s.items) == Holding(f) && c.id != ""
    ensures Expiries(Step(0, s, c).1.items) == Holding(FakeWatch(f, c))
  {
    WatchStepAgrees(0, s, f, c);
    var g := SeenAll(f, c.now);
    if c.IsRevokedCall? && FakeWatch(f, c) != g {
      assert c.id !in Holding(g);
      assert Holding(g - {c.id}) == Holding(g);
    }
  }

  /** The two answer differently exactly at a reading that goes back past an expiry. */
  lemma StepDiffersWhenGoingBack(s: Store, e: FakeEntries, f: Watch, c: Call)
    requires Expiries(s.items) == Holding(f) && FakeExpiries(e) == WatchExpiries(f) && c.id != ""
    ensures Step(0, s, c).0 == FakeStep(e, c).0 <==> !GoesBackPast(f, c)
  {
    WatchStepAgrees(0, s, f, c);
    assert c.id in e <==> c.id in FakeExpiries(e);
    assert c.id in f <==> c.id in WatchExpiries(f);
    assert c.id in e ==> e[c.id].expiresAt == WatchExpiries(f)[c.id];
    assert c.id in Holding(SeenAll(f, c.now)) <==> c.id in f && Holds(Seen(f[c.id], c.now));
  }

  lemma {:induction false} FakeDiffersWhenGoingBack(s: Store, e: FakeEntries, f: Watch, calls: seq<Call>)
    requires Expiries(s.items) == Holding(f) && FakeExpiries(e) == WatchExpiries(f) && IdsGiven(calls)
    ensures Answers(0, s, calls) == FakeAnswers(e, calls) <==> !EverGoesBackPast(f, calls)
    decreases |calls|
  {
    if calls != [] {
      var c, rest := calls[0], calls[1..];
      assert c.id != "";
      assert forall i :: 0 <= i < |rest| ==> rest[i] == calls[i + 1];
      StepDiffersWhenGoingBack(s, e, f, c);
      StoreFollowsFakeWatch(s, f, c);
      FakeWatchFollows(e, f, c);
      FakeDiffersWhenGoingBack(Step(0, s, c).1, FakeStep(e, c).1, FakeWatch(f, c), rest);
      SameHeadAndTail([Step(0, s, c).0], Answers(0, Step(0, s, c).1, rest), [FakeStep(e, c).0], FakeAnswers(FakeStep(e, c).1, rest));
    }
  }

  lemma SameHeadAndTail(a: seq<Answer>, x: seq<Answer>, b: seq<Answer>, y: seq<Answer>)
    requires |a| == |b| == 1
    ensures a + x == b + y <==> a == b && x == y
  {
    assert (a + x)[..1] == a && (a + x)[1..] == x && (b + y)[..1] == b && (b + y)[1..] == y;
  }

  /**
   For every sequence of calls, whatever the clock does, the unbounded store and the fake answer
   alike exactly when every id is given and no reading goes back past an expiry already passed.
   */
  lemma StoreAndFakeOnAnyClock(calls: seq<Call>)
    ensures Answers(0, EMPTY, calls) == FakeAnswers(map[], calls) <==>
      IdsGiven(calls) && !EverGoesBackPast(map[], calls)
  {
    if IdsGiven(calls) {
      FakeDiffersWhenGoingBack(EMPTY, map[], map[], calls);
    } else {
      var i :| 0 <= i < |calls| && calls[i].id == "";
      AnswerAt(0, EMPTY, calls, i);
      FakeAnswerAt(map[], calls, i);
    }
  }
}
