/**
 Whole runs of the revocation store: it answers like a map that never forgets, its refusals
 are exact and leave no trace, and its heap and compaction work stay bounded.
 */
module RevocationRuns {
  import opened Wrappers
  import opened ExpiryHeap
  import opened RevocationModel
  import opened FakeStores

  datatype Call =
    | RevokeCall(id: string, reason: string, expiresAt: Expiry, now: int)
    | IsRevokedCall(id: string, now: int)

  datatype Answer =
    | Revoked(result: Result<(), RevocationError>)
    | Status(status: Result<bool, RevocationError>)

  function Step(capacity: nat, s: Store, c: Call): (Answer, Store) {
    match c
    case RevokeCall(id, reason, expiresAt, now) =>
      var (r, s') := Revoke(capacity, s, id, reason, expiresAt, now);
      (Revoked(r), s')
    case IsRevokedCall(id, now) =>
      var (r, s') := IsRevoked(s, id, now);
      (Status(r), s')
  }

  function Answers(capacity: nat, s: Store, calls: seq<Call>): seq<Answer>
    decreases |calls|
  {
    if calls == [] then []
    else
      var (a, s') := Step(capacity, s, calls[0]);
      [a] + Answers(capacity, s', calls[1..])
  }

  function After(capacity: nat, s: Store, calls: seq<Call>): Store
    decreases |calls|
  {
    if calls == [] then s else After(capacity, Step(capacity, s, calls[0]).1, calls[1..])
  }

  /** Clock readings never decrease, starting from `from`. */
  ghost predicate ClockFrom(from: int, calls: seq<Call>)
    decreases |calls|
  {
    calls == [] || (from <= calls[0].now && ClockFrom(calls[0].now, calls[1..]))
  }

  lemma {:induction false} AfterKeepsInv(capacity: nat, s: Store, calls: seq<Call>)
    requires Inv(s)
    ensures Inv(After(capacity, s, calls))
    decreases |calls|
  {
    if calls != [] {
      match calls[0] {
        case RevokeCall(id, reason, expiresAt, now) =>
          RevokeKeepsInv(capacity, s, id, reason, expiresAt, now);
        case IsRevokedCall(_, now) =>
          SweptKeepsInv(s, now);
      }
      AfterKeepsInv(capacity, Step(capacity, s, calls[0]).1, calls[1..]);
    }
  }

  // ---- Agreement with a map that never sweeps --------------------------------------

  type Plain = map<string, Expiry>

  function LivePlain(f: Plain, now: int): Plain {
    map id | id in f && LiveAt(f[id], now) :: f[id]
  }

  /** A refusal happens exactly when a live revocation of a new id meets `capacity` live ids. */
  predicate PlainRefuses(capacity: nat, f: Plain, id: string, expiresAt: Expiry, now: int) {
    && capacity > 0
    && LiveAt(expiresAt, now)
    && id !in LivePlain(f, now)
    && |LivePlain(f, now)| >= capacity
  }

  function PlainStep(capacity: nat, f: Plain, c: Call): (Answer, Plain) {
    match c
    case RevokeCall(id, _, expiresAt, now) =>
      if id == "" then
        (Revoked(Err(InvalidId)), f)
      else if PlainRefuses(capacity, f, id, expiresAt, now) then
        (Revoked(Err(StoreFull)), f)
      else
        (Revoked(Ok(())), f[id := expiresAt])
    case IsRevokedCall(id, now) =>
      if id == "" then (Status(Err(InvalidId)), f) else (Status(Ok(id in LivePlain(f, now))), f)
  }

  function PlainAnswers(capacity: nat, f: Plain, calls: seq<Call>): seq<Answer>
    decreases |calls|
  {
    if calls == [] then []
    else
      var (a, f') := PlainStep(capacity, f, calls[0]);
      [a] + PlainAnswers(capacity, f', calls[1..])
  }

  function Expiries(items: map<string, Entry>): Plain {
    map id | id in items :: items[id].expiresAt
  }

  /** Both sides hold the same live revocations at `now`, hence at every later time. */
  ghost predicate SameLive(f: Plain, g: Plain, now: int) {
    LivePlain(f, now) == LivePlain(g, now)
  }

  lemma SameLiveLater(f: Plain, g: Plain, now: int, later: int)
    requires SameLive(f, g, now) && now <= later
    ensures SameLive(f, g, later)
  {
    forall id
      ensures id in LivePlain(f, later) <==> id in LivePlain(g, later)
      ensures id in LivePlain(g, later) ==> f[id] == g[id]
    {
      assert id in LivePlain(f, now) <==> id in LivePlain(g, now);
      assert id in LivePlain(f, now) ==> LivePlain(f, now)[id] == LivePlain(g, now)[id];
    }
  }

  lemma LivePlainUpdate(f: Plain, id: string, e: Expiry, now: int)
    ensures LivePlain(f[id := e], now) == if LiveAt(e, now) then LivePlain(f, now)[id := e] else LivePlain(f, now) - {id}
  {
  }

  lemma LivePlainIdempotent(f: Plain, now: int)
    ensures LivePlain(LivePlain(f, now), now) == LivePlain(f, now)
  {
  }

  lemma SweptExpiries(items: map<string, Entry>, now: int)
    ensures Expiries(LiveItems(items, now)) == LivePlain(Expiries(items), now)
    ensures |LiveItems(items, now)| == |LivePlain(Expiries(items), now)|
  {
    assert LiveItems(items, now).Keys == LivePlain(Expiries(items), now).Keys;
    assert |LiveItems(items, now)| == |LiveItems(items, now).Keys|;
    assert |LivePlain(Expiries(items), now)| == |LivePlain(Expiries(items), now).Keys|;
  }

  lemma ExpiriesUpdate(items: map<string, Entry>, id: string, e: Entry)
    ensures Expiries(items[id := e]) == Expiries(items)[id := e.expiresAt]
    ensures Expiries(items - {id}) == Expiries(items) - {id}
  {
  }

  lemma SweptAgrees(s: Store, f: Plain, now: int)
    requires SameLive(Expiries(s.items), f, now)
    ensures
      var swept, live := Swept(s, now).items, LivePlain(f, now);
      && Expiries(swept) == live == LivePlain(live, now) && |swept| == |live|
      && forall id :: id in swept <==> id in live
  {
    SweptExpiries(s.items, now);
    LivePlainIdempotent(f, now);
    assert forall id :: id in Swept(s, now).items <==> id in Expiries(Swept(s, now).items);
  }

  /** What a Revoke with an id does to the entries of a swept store. */
  lemma RevokeOnSwept(capacity: nat, s: Store, id: string, reason: string, expiresAt: Expiry, now: int)
    requires id != ""
    ensures
      var (swept, r) := (Swept(s, now), Revoke(capacity, s, id, reason, expiresAt, now));
      if LiveAt(expiresAt, now) && Refuses(capacity, swept, id) then r == (Err(StoreFull), swept)
      else
        && r.0 == Ok(())
        && Expiries(r.1.items) == if LiveAt(expiresAt, now) then Expiries(swept.items)[id := expiresAt] else Expiries(swept.items) - {id}
  {
    var swept := Swept(s, now);
    if LiveAt(expiresAt, now) {
      StoredExpiries(swept, id, reason, expiresAt);
    } else {
      ExpiriesUpdate(swept.items, id, Entry(reason, expiresAt, 0));
    }
  }

  lemma StoredExpiries(s: Store, id: string, reason: string, expiresAt: Expiry)
    ensures Expiries(Compacted(Stored(s, id, reason, expiresAt)).items) == Expiries(s.items)[id := expiresAt]
  {
    ExpiriesUpdate(s.items, id, Entry(reason, expiresAt, s.generation + 1));
  }

  lemma RevokeAgrees(capacity: nat, s: Store, f: Plain, id: string, reason: string, expiresAt: Expiry, now: int)
    requires SameLive(Expiries(s.items), f, now)
    ensures
      var c := RevokeCall(id, reason, expiresAt, now);
      && Step(capacity, s, c).0 == PlainStep(capacity, f, c).0
      && SameLive(Expiries(Step(capacity, s, c).1.items), PlainStep(capacity, f, c).1, now)
  {
    var live := LivePlain(f, now);
    SweptAgrees(s, f, now);
    LivePlainUpdate(f, id, expiresAt, now);
    LivePlainUpdate(live, id, expiresAt, now);
    LivePlainMinus(live, id, now);
    if id != "" {
      RevokeOnSwept(capacity, s, id, reason, expiresAt, now);
    }
  }

  lemma StepAgrees(capacity: nat, s: Store, f: Plain, c: Call)
    requires SameLive(Expiries(s.items), f, c.now)
    ensures Step(capacity, s, c).0 == PlainStep(capacity, f, c).0
    ensures SameLive(Expiries(Step(capacity, s, c).1.items), PlainStep(capacity, f, c).1, c.now)
  {
    match c
    case RevokeCall(id, reason, expiresAt, now) => RevokeAgrees(capacity, s, f, id, reason, expiresAt, now);
    case IsRevokedCall(_, now) => SweptAgrees(s, f, now);
  }

  lemma LivePlainMinus(f: Plain, id: string, now: int)
    ensures LivePlain(f - {id}, now) == LivePlain(f, now) - {id}
  {
  }

  lemma {:induction false} AnswersAgree(capacity: nat, s: Store, f: Plain, from: int, calls: seq<Call>)
    requires SameLive(Expiries(s.items), f, from) && ClockFrom(from, calls)
    ensures Answers(capacity, s, calls) == PlainAnswers(capacity, f, calls)
    decreases |calls|
  {
    if calls != [] {
      var c := calls[0];
      SameLiveLater(Expiries(s.items), f, from, c.now);
      StepAgrees(capacity, s, f, c);
      AnswersAgree(capacity, Step(capacity, s, c).1, PlainStep(capacity, f, c).1, c.now, calls[1..]);
    }
  }

  /** With or without a capacity, and whatever the ids, the heap-based store answers as the plain map. */
  lemma StoreAnswersLikePlainMap(capacity: nat, from: int, calls: seq<Call>)
    requires ClockFrom(from, calls)
    ensures Answers(capacity, EMPTY, calls) == PlainAnswers(capacity, map[], calls)
  {
    assert Expiries(EMPTY.items) == map[];
    AnswersAgree(capacity, EMPTY, map[], from, calls);
  }

  // ---- Agreement with the fake of jwttest ------------------------------------------

  function FakeStep(f: FakeEntries, c: Call): (Answer, FakeEntries) {
    match c
    case RevokeCall(id, reason, expiresAt, _) =>
      (Revoked(Ok(())), FakeRevoke(f, id, reason, expiresAt))
    case IsRevokedCall(id, now) =>
      var (revoked, f') := FakeIsRevoked(f, id, now);
      (Status(Ok(revoked)), f')
  }

  function FakeAnswers(f: FakeEntries, calls: seq<Call>): seq<Answer>
    decreases |calls|
  {
    if calls == [] then []
    else
      var (a, f') := FakeStep(f, calls[0]);
      [a] + FakeAnswers(f', calls[1..])
  }

  ghost predicate IdsGiven(calls: seq<Call>) {
    forall i :: 0 <= i < |calls| ==> calls[i].id != ""
  }

  function FakeExpiries(f: FakeEntries): Plain {
    map id | id in f :: f[id].expiresAt
  }

  lemma FakeStepAgrees(f: FakeEntries, p: Plain, c: Call)
    requires SameLive(FakeExpiries(f), p, c.now) && c.id != ""
    ensures FakeStep(f, c).0 == PlainStep(0, p, c).0
    ensures SameLive(FakeExpiries(FakeStep(f, c).1), PlainStep(0, p, c).1, c.now)
  {
    match c
    case RevokeCall(id, reason, expiresAt, now) =>
      assert FakeExpiries(FakeRevoke(f, id, reason, expiresAt)) == FakeExpiries(f)[id := expiresAt];
      LivePlainUpdate(FakeExpiries(f), id, expiresAt, now);
      LivePlainUpdate(p, id, expiresAt, now);
    case IsRevokedCall(id, now) =>
      assert id in LivePlain(FakeExpiries(f), now) <==> id in LivePlain(p, now);
      assert FakeExpiries(f - {id}) == FakeExpiries(f) - {id};
      LivePlainMinus(FakeExpiries(f), id, now);
      assert id !in LivePlain(p, now) ==> LivePlain(p, now) - {id} == LivePlain(p, now);
  }

  lemma {:induction false} FakeAgrees(f: FakeEntries, p: Plain, from: int, calls: seq<Call>)
    requires SameLive(FakeExpiries(f), p, from) && ClockFrom(from, calls) && IdsGiven(calls)
    ensures FakeAnswers(f, calls) == PlainAnswers(0, p, calls)
    decreases |calls|
  {
    if calls != [] {
      var c := calls[0];
      SameLiveLater(FakeExpiries(f), p, from, c.now);
      FakeStepAgrees(f, p, c);
      FakeAgrees(FakeStep(f, c).1, PlainStep(0, p, c).1, c.now, calls[1..]);
    }
  }

  /**
   While the clock never goes back, the unbounded store and the fake answer alike exactly when
   every id is given: the store refuses an empty id, the fake takes it.
   */
  lemma UnboundedStoreAnswersLikeFake(from: int, calls: seq<Call>)
    requires ClockFrom(from, calls)
    ensures Answers(0, EMPTY, calls) == FakeAnswers(map[], calls) <==> IdsGiven(calls)
  {
    if IdsGiven(calls) {
      StoreAnswersLikePlainMap(0, from, calls);
      assert FakeExpiries(map[]) == map[];
      FakeAgrees(map[], map[], from, calls);
    } else {
      var i :| 0 <= i < |calls| && calls[i].id == "";
      AnswerAt(0, EMPTY, calls, i);
      FakeAnswerAt(map[], calls, i);
    }
  }

  lemma {:induction false} AnswerAt(capacity: nat, s: Store, calls: seq<Call>, i: nat)
    requires i < |calls|
    ensures |Answers(capacity, s, calls)| == |calls|
    ensures Answers(capacity, s, calls)[i] == Step(capacity, After(capacity, s, calls[..i]), calls[i]).0
    decreases |calls|
  {
    var s' := Step(capacity, s, calls[0]).1;
    if |calls| > 1 {
      AnswerAt(capacity, s', calls[1..], if i == 0 then 0 else i - 1);
    }
    if i > 0 {
      assert calls[..i][1..] == calls[1..][..i - 1];
    }
  }

  lemma {:induction false} FakeAnswerAt(f: FakeEntries, calls: seq<Call>, i: nat)
    requires i < |calls|
    ensures |FakeAnswers(f, calls)| == |calls|
    ensures FakeAnswers(f, calls)[i] == Revoked(Ok(())) || (FakeAnswers(f, calls)[i].Status? && FakeAnswers(f, calls)[i].status.Ok?)
    decreases |calls|
  {
    if |calls| > 1 {
      FakeAnswerAt(FakeStep(f, calls[0]).1, calls[1..], if i == 0 then 0 else i - 1);
    }
  }

  /** The swept entry is gone for good, so a clock that goes back brings it back only in the fake. */
  lemma ClockGoingBackTellsThemApart()
    ensures
      var calls := [RevokeCall("a", "", At(5), 0), IsRevokedCall("b", 9), IsRevokedCall("a", 3)];
      && |Answers(0, EMPTY, calls)| == |FakeAnswers(map[], calls)| == 3
      && Answers(0, EMPTY, calls)[2] == Status(Ok(false)) && FakeAnswers(map[], calls)[2] == Status(Ok(true))
  {
    var a, b, c := RevokeCall("a", "", At(5), 0), IsRevokedCall("b", 9), IsRevokedCall("a", 3);
    var calls := [a, b, c];
    var s1 := Step(0, EMPTY, a).1;
    assert s1.items.Keys == {"a"} && s1.items["a"].expiresAt == At(5);
    var s2 := Step(0, s1, b).1;
    assert s2.items == map[];
    assert calls[1..] == [b, c] && calls[1..][1..] == [c] && calls[1..][1..][1..] == [];
    assert Answers(0, s2, [c]) == [Status(Ok(false))];
    assert Answers(0, s1, [b, c])[1] == Status(Ok(false));
    var f1 := FakeStep(map[], a).1;
    assert FakeStep(f1, b).1 == f1;
    assert FakeAnswers(f1, [c])[0] == Status(Ok(true));
    assert FakeAnswers(f1, [b, c])[1] == Status(Ok(true));
  }

  // ---- Refusals --------------------------------------------------------------------

  /** Full is answered exactly when a given id is not live and `capacity` other ids are, at that moment. */
  lemma RefusalIsExact(capacity: nat, from: int, calls: seq<Call>, i: nat)
    requires ClockFrom(from, calls) && i < |calls| && calls[i].RevokeCall?
    ensures
      var live := LivePlain(PlainAfter(capacity, map[], calls[..i]), calls[i].now);
      (|Answers(capacity, EMPTY, calls)| == |calls| && Answers(capacity, EMPTY, calls)[i] == Revoked(Err(StoreFull))) <==>
        && capacity > 0 && calls[i].id != "" && LiveAt(calls[i].expiresAt, calls[i].now)
        && calls[i].id !in live && |live| == capacity
  {
    StoreAnswersLikePlainMap(capacity, from, calls);
    PlainAnswerAt(capacity, map[], calls, i);
    ClockSplit(from, calls, i);
    LiveWithinCapacity(capacity, map[], from, calls[..i], calls[i].now);
  }

  function PlainAfter(capacity: nat, f: Plain, calls: seq<Call>): Plain
    decreases |calls|
  {
    if calls == [] then f else PlainAfter(capacity, PlainStep(capacity, f, calls[0]).1, calls[1..])
  }

  lemma {:induction false} PlainAnswerAt(capacity: nat, f: Plain, calls: seq<Call>, i: nat)
    requires i < |calls|
    ensures |PlainAnswers(capacity, f, calls)| == |calls|
    ensures PlainAnswers(capacity, f, calls)[i] == PlainStep(capacity, PlainAfter(capacity, f, calls[..i]), calls[i]).0
    decreases |calls|
  {
    if |calls| > 1 {
      PlainAnswerAt(capacity, PlainStep(capacity, f, calls[0]).1, calls[1..], if i == 0 then 0 else i - 1);
    }
    if i > 0 {
      assert calls[..i][1..] == calls[1..][..i - 1];
    }
  }

  ghost function LastReading(from: int, calls: seq<Call>): int {
    if calls == [] then from else calls[|calls| - 1].now
  }

  lemma {:induction false} ClockSplit(from: int, calls: seq<Call>, i: nat)
    requires ClockFrom(from, calls) && i <= |calls|
    ensures ClockFrom(from, calls[..i]) && ClockFrom(LastReading(from, calls[..i]), calls[i..])
    decreases |calls|
  {
    if i == 0 {
      assert calls[i..] == calls;
    } else {
      ClockSplit(calls[0].now, calls[1..], i - 1);
      CutOneOff(calls, i);
      SameLast(from, calls, i);
      assert calls[..i] != [] && calls[..i][0] == calls[0];
    }
  }

  lemma CutOneOff(calls: seq<Call>, i: nat)
    requires 0 < i <= |calls|
    ensures calls[..i][1..] == calls[1..][..i - 1] && calls[1..][i - 1..] == calls[i..]
  {
  }

  lemma SameLast(from: int, calls: seq<Call>, i: nat)
    requires 0 < i <= |calls|
    ensures LastReading(calls[0].now, calls[1..][..i - 1]) == LastReading(from, calls[..i])
  {
  }

  lemma {:induction false} LiveWithinCapacity(capacity: nat, f: Plain, from: int, calls: seq<Call>, now: int)
    requires capacity > 0 ==> |LivePlain(f, from)| <= capacity
    requires ClockFrom(from, calls) && LastReading(from, calls) <= now
    ensures capacity > 0 ==> |LivePlain(PlainAfter(capacity, f, calls), now)| <= capacity
    decreases |calls|
  {
    if calls == [] {
      FewerLiveLater(f, from, now);
    } else {
      var c := calls[0];
      FewerLiveLater(f, from, c.now);
      StepWithinCapacity(capacity, f, c);
      LiveWithinCapacity(capacity, PlainStep(capacity, f, c).1, c.now, calls[1..], now);
    }
  }

  lemma StepWithinCapacity(capacity: nat, f: Plain, c: Call)
    requires capacity > 0 ==> |LivePlain(f, c.now)| <= capacity
    ensures capacity > 0 ==> |LivePlain(PlainStep(capacity, f, c).1, c.now)| <= capacity
  {
    if c.RevokeCall? {
      LivePlainUpdate(f, c.id, c.expiresAt, c.now);
      SizeAfterUpdate(LivePlain(f, c.now), c.id, c.expiresAt);
    }
  }

  lemma SizeAfterUpdate(f: Plain, id: string, e: Expiry)
    ensures |f[id := e]| == |f| + (if id in f then 0 else 1) && |f - {id}| <= |f|
  {
    assert f[id := e].Keys == f.Keys + {id} && (f - {id}).Keys == f.Keys - {id};
    assert |f[id := e]| == |f[id := e].Keys| && |f - {id}| == |(f - {id}).Keys| && |f| == |f.Keys|;
  }

  lemma FewerLiveLater(f: Plain, now: int, later: int)
    requires now <= later
    ensures |LivePlain(f, later)| <= |LivePlain(f, now)|
  {
    var a, b := LivePlain(f, later).Keys, LivePlain(f, now).Keys;
    assert a <= b;
    assert |a| <= |b| by {
      assert b == a + (b - a);
    }
    assert |LivePlain(f, later)| == |a| && |LivePlain(f, now)| == |b|;
  }

  /** Taking a refused call out of a run leaves every other answer as it was. */
  lemma RefusedCallLeavesNoTrace(capacity: nat, before: seq<Call>, refused: Call, after: seq<Call>, from: int)
    requires ClockFrom(from, before + [refused] + after)
    requires Step(capacity, After(capacity, EMPTY, before), refused).0 == Revoked(Err(StoreFull))
    ensures Answers(capacity, EMPTY, before + [refused] + after) ==
            Answers(capacity, EMPTY, before) + [Revoked(Err(StoreFull))] +
            Answers(capacity, After(capacity, EMPTY, before), after)
  {
    var all := before + [refused] + after;
    var s := After(capacity, EMPTY, before);
    AnswersConcat(capacity, EMPTY, before, [refused] + after);
    assert all == before + ([refused] + after);
    ClockSplit(from, all, |before|);
    assert all[|before|..] == [refused] + after && ([refused] + after)[1..] == after;
    SweepIsInvisible(capacity, s, refused.now, after);
  }

  lemma {:induction false} AnswersConcat(capacity: nat, s: Store, a: seq<Call>, b: seq<Call>)
    ensures Answers(capacity, s, a + b) == Answers(capacity, s, a) + Answers(capacity, After(capacity, s, a), b)
    decreases |a|
  {
    if a == [] {
      assert a + b == b;
    } else {
      assert (a + b)[1..] == a[1..] + b;
      AnswersConcat(capacity, Step(capacity, s, a[0]).1, a[1..], b);
    }
  }

  lemma SweepTwice(s: Store, now: int, later: int)
    requires now <= later
    ensures Swept(Swept(s, now), later) == Swept(s, later)
  {
    assert LiveItems(LiveItems(s.items, now), later) == LiveItems(s.items, later);
  }

  lemma {:induction false} SweepIsInvisible(capacity: nat, s: Store, now: int, calls: seq<Call>)
    requires ClockFrom(now, calls)
    ensures Answers(capacity, Swept(s, now), calls) == Answers(capacity, s, calls)
    decreases |calls|
  {
    if calls != [] {
      var c := calls[0];
      SweepTwice(s, now, c.now);
      if c.id == "" {
        ClockWeaken(now, c.now, calls[1..]);
        SweepIsInvisible(capacity, s, now, calls[1..]);
      }
    }
  }

  lemma ClockWeaken(from: int, to: int, calls: seq<Call>)
    requires from <= to && ClockFrom(to, calls)
    ensures ClockFrom(from, calls)
  {
  }

  // ---- Bounds ----------------------------------------------------------------------

  /** The number of entries walked when this call rebuilds the heap; zero when it does not. */
  function RebuildWork(capacity: nat, s: Store, c: Call): nat {
    if c.RevokeCall? then RevokeWork(capacity, s, c.id, c.reason, c.expiresAt, c.now) else 0
  }

  function TotalWork(capacity: nat, s: Store, calls: seq<Call>): nat
    decreases |calls|
  {
    if calls == [] then 0
    else RebuildWork(capacity, s, calls[0]) + TotalWork(capacity, Step(capacity, s, calls[0]).1, calls[1..])
  }

  function RevokeCount(calls: seq<Call>): nat {
    if calls == [] then 0 else (if calls[0].RevokeCall? then 1 else 0) + RevokeCount(calls[1..])
  }

  /** Nodes in excess of entries: what the next rebuild is paid from. */
  function Excess(s: Store): nat {
    if |s.nodes| > |s.items| then |s.nodes| - |s.items| else 0
  }

  /** Each expired entry takes a node of its own with it. */
  lemma SweepRaisesNoExcess(s: Store, now: int)
    requires Inv(s)
    ensures Excess(Swept(s, now)) <= Excess(s) && |Swept(s, now).nodes| <= |s.nodes|
    ensures |Swept(s, now).items| <= |s.items|
  {
    var r := Swept(s, now);
    var goneItems, goneNodes := s.items.Keys - r.items.Keys, s.nodes - r.nodes;
    Remainder(s.items.Keys, r.items.Keys);
    Remainder(s.nodes, r.nodes);
    assert |s.items| == |s.items.Keys| && |r.items| == |r.items.Keys|;
    DistinctNodesPerId(s, goneItems, goneNodes);
  }

  lemma Remainder<T>(a: set<T>, b: set<T>)
    requires b <= a
    ensures |a| == |b| + |a - b|
  {
    assert a == b + (a - b);
  }

  lemma {:induction false} DistinctNodesPerId(s: Store, ids: set<string>, nodes: set<ExpiryNode>)
    requires forall id :: id in ids ==> id in s.items && s.items[id].expiresAt.At? && NodeOf(id, s.items[id]) in nodes
    ensures |ids| <= |nodes|
    decreases ids
  {
    if id :| id in ids {
      DistinctNodesPerId(s, ids - {id}, nodes - {NodeOf(id, s.items[id])});
    }
  }

  lemma StepPaysItsWork(capacity: nat, s: Store, c: Call)
    requires Inv(s)
    ensures RebuildWork(capacity, s, c) + Excess(Step(capacity, s, c).1) <= Excess(s) + if c.RevokeCall? then 1 else 0
  {
    SweepRaisesNoExcess(s, c.now);
    if c.RevokeCall? && c.id != "" {
      var swept := Swept(s, c.now);
      if !LiveAt(c.expiresAt, c.now) {
        var rest := swept.items - {c.id};
        assert rest.Keys == swept.items.Keys - {c.id};
        assert |rest| == |rest.Keys| && |swept.items| == |swept.items.Keys|;
      } else if !Refuses(capacity, swept, c.id) {
        StoringAddsOne(swept, c.id, c.reason, c.expiresAt);
        TimedNodesAreFew(Stored(swept, c.id, c.reason, c.expiresAt).items);
      }
    }
  }

  lemma StoringAddsOne(s: Store, id: string, reason: string, expiresAt: Expiry)
    ensures
      var r := Stored(s, id, reason, expiresAt);
      |r.nodes| <= |s.nodes| + 1 && |r.items| == |s.items| + if id in s.items then 0 else 1
  {
    var r := Stored(s, id, reason, expiresAt);
    assert r.items.Keys == s.items.Keys + {id};
    assert |r.items| == |r.items.Keys| && |s.items| == |s.items.Keys|;
  }

  lemma {:induction false} WorkIsPaid(capacity: nat, s: Store, calls: seq<Call>)
    requires Inv(s)
    ensures TotalWork(capacity, s, calls) <= Excess(s) + RevokeCount(calls)
    decreases |calls|
  {
    if calls != [] {
      StepPaysItsWork(capacity, s, calls[0]);
      AfterKeepsInv(capacity, s, calls[..1]);
      var s' := Step(capacity, s, calls[0]).1;
      assert After(capacity, s, calls[..1]) == s' by {
        assert calls[..1][1..] == [];
        assert After(capacity, s', []) == s';
      }
      WorkIsPaid(capacity, s', calls[1..]);
    }
  }

  /** All rebuilds of a run together walk no more entries than there were Revoke calls. */
  lemma CompactionIsAmortised(capacity: nat, calls: seq<Call>)
    ensures TotalWork(capacity, EMPTY, calls) <= RevokeCount(calls)
  {
    WorkIsPaid(capacity, EMPTY, calls);
  }

  ghost predicate WithinBounds(capacity: nat, s: Store) {
    capacity > 0 ==> |s.items| <= capacity && |s.nodes| <= 2 * capacity + 64
  }

  lemma StepKeepsBounds(capacity: nat, s: Store, c: Call)
    requires Inv(s) && WithinBounds(capacity, s)
    ensures WithinBounds(capacity, Step(capacity, s, c).1)
    ensures c.RevokeCall? && c.id != "" && Step(capacity, s, c).0 == Revoked(Ok(())) && LiveAt(c.expiresAt, c.now) ==>
      var r := Step(capacity, s, c).1; |r.nodes| <= 2 * |r.items| + 64
  {
    SweepRaisesNoExcess(s, c.now);
    if c.RevokeCall? && c.id != "" {
      var swept := Swept(s, c.now);
      if !LiveAt(c.expiresAt, c.now) {
        var rest := swept.items - {c.id};
        assert rest.Keys == swept.items.Keys - {c.id};
        assert |rest| == |rest.Keys| && |swept.items| == |swept.items.Keys|;
      } else if !Refuses(capacity, swept, c.id) {
        StoringAddsOne(swept, c.id, c.reason, c.expiresAt);
        TimedNodesAreFew(Stored(swept, c.id, c.reason, c.expiresAt).items);
      }
    }
  }

  lemma {:induction false} BoundsKept(capacity: nat, s: Store, calls: seq<Call>)
    requires Inv(s) && WithinBounds(capacity, s)
    ensures WithinBounds(capacity, After(capacity, s, calls))
    decreases |calls|
  {
    if calls != [] {
      var s' := Step(capacity, s, calls[0]).1;
      StepKeepsBounds(capacity, s, calls[0]);
      AfterKeepsInv(capacity, s, calls[..1]);
      assert After(capacity, s, calls[..1]) == s' by {
        assert calls[..1][1..] == [];
        assert After(capacity, s', []) == s';
      }
      BoundsKept(capacity, s', calls[1..]);
    }
  }

  /** With a capacity, no reachable state holds more entries than it or more than 2c + 64 heap nodes. */
  lemma HeapStaysBounded(capacity: nat, calls: seq<Call>)
    requires capacity > 0
    ensures |After(capacity, EMPTY, calls).items| <= capacity
    ensures |After(capacity, EMPTY, calls).nodes| <= 2 * capacity + 64
  {
    BoundsKept(capacity, EMPTY, calls);
  }

  /** The largest number of entries in any state of the run. */
  function PeakItems(capacity: nat, s: Store, calls: seq<Call>): nat
    decreases |calls|
  {
    if calls == [] then |s.items|
    else
      var later := PeakItems(capacity, Step(capacity, s, calls[0]).1, calls[1..]);
      if |s.items| > later then |s.items| else later
  }

  lemma StepStaysUnder(capacity: nat, s: Store, c: Call, m: nat)
    requires Inv(s) && |s.nodes| <= 2 * m + 64 && |Step(capacity, s, c).1.items| <= m
    ensures Inv(Step(capacity, s, c).1) && |Step(capacity, s, c).1.nodes| <= 2 * m + 64
  {
    SweepRaisesNoExcess(s, c.now);
    SweptKeepsInv(s, c.now);
    if c.RevokeCall? {
      RevokeKeepsInv(capacity, s, c.id, c.reason, c.expiresAt, c.now);
      TimedNodesAreFew(Stored(Swept(s, c.now), c.id, c.reason, c.expiresAt).items);
    }
  }

  lemma {:induction false} HeapStaysUnder(capacity: nat, s: Store, calls: seq<Call>, m: nat)
    requires Inv(s) && |s.nodes| <= 2 * m + 64 && PeakItems(capacity, s, calls) <= m
    ensures |After(capacity, s, calls).nodes| <= 2 * m + 64
    decreases |calls|
  {
    if calls != [] {
      var s' := Step(capacity, s, calls[0]).1;
      assert |s'.items| <= PeakItems(capacity, s', calls[1..]);
      StepStaysUnder(capacity, s, calls[0], m);
      HeapStaysUnder(capacity, s', calls[1..], m);
    }
  }

  /** In every state of every store the heap has at most twice the entries the run has had at once, plus 64 nodes. */
  lemma HeapFollowsThePeak(capacity: nat, calls: seq<Call>)
    ensures |After(capacity, EMPTY, calls).nodes| <= 2 * PeakItems(capacity, EMPTY, calls) + 64
  {
    HeapStaysUnder(capacity, EMPTY, calls, PeakItems(capacity, EMPTY, calls));
  }

  /**
   Which calls leave the heap within 2 * entries + 64, from any state within the capacity's bounds:
   every live Revoke, accepted or not. A read or an inert Revoke gives no such guarantee: for those
   the condition only restates the bound on what they keep, and `HeapFollowsThePeak` is what holds.
   */
  lemma WhenTheHeapIsSmall(capacity: nat, s: Store, c: Call)
    requires Inv(s) && WithinBounds(capacity, s)
    ensures
      var live, kept := LiveItems(s.items, c.now), (set n | n in s.nodes && n.expiresAt > c.now);
      !CompactionDue(Step(capacity, s, c).1) <==>
        if c.id == "" then |s.nodes| <= 2 * |s.items| + 64
        else if c.RevokeCall? && LiveAt(c.expiresAt, c.now) then true
        else if c.RevokeCall? && c.id in live then |kept| <= 2 * (|live| - 1) + 64
        else |kept| <= 2 * |live| + 64
  {
    StepKeepsBounds(capacity, s, c);
    var swept := Swept(s, c.now);
    SweepRaisesNoExcess(s, c.now);
    var rest := swept.items - {c.id};
    assert rest.Keys == swept.items.Keys - {c.id};
    assert |rest| == |rest.Keys| && |swept.items| == |swept.items.Keys|;
  }

  function Repeated(c: Call, n: nat): seq<Call> {
    if n == 0 then [] else Repeated(c, n - 1) + [c]
  }

  lemma {:induction false} AfterConcat(capacity: nat, s: Store, a: seq<Call>, b: seq<Call>)
    ensures After(capacity, s, a + b) == After(capacity, After(capacity, s, a), b)
    decreases |a|
  {
    if a == [] {
      assert a + b == b;
    } else {
      assert (a + b)[1..] == a[1..] + b;
      AfterConcat(capacity, Step(capacity, s, a[0]).1, a[1..], b);
    }
  }

  lemma {:induction false} SameIdPilesUp(n: nat)
    requires n <= 66
    ensures
      var s := After(0, EMPTY, Repeated(RevokeCall("a", "", At(9), 0), n));
      && |s.nodes| == s.generation == n && s.items.Keys == (if n == 0 then {} else {"a"})
      && (forall i :: i in s.nodes ==> i.expiresAt == 9 && i.generation <= n)
      && (n > 0 ==> s.items["a"].expiresAt == At(9))
  {
    if n > 0 {
      var c := RevokeCall("a", "", At(9), 0);
      SameIdPilesUp(n - 1);
      var s := After(0, EMPTY, Repeated(c, n - 1));
      AfterConcat(0, EMPTY, Repeated(c, n - 1), [c]);
      assert [c][1..] == [];
      assert After(0, s, [c]) == Step(0, s, c).1;
      assert Swept(s, 0).nodes == s.nodes;
      assert Swept(s, 0).items == s.items;
      StoringAddsOne(s, "a", "", At(9));
      assert |s.items| == |s.items.Keys|;
      var stored := Stored(s, "a", "", At(9));
      assert stored.items.Keys == {"a"} && |stored.items| == |stored.items.Keys| == 1;
      assert |stored.nodes| == n;
    }
  }

  /** An already expired revocation deletes the entry and leaves its stale nodes behind. */
  lemma InertRevokeBreaksTheHeapBound()
    ensures
      var s := After(0, EMPTY, Repeated(RevokeCall("a", "", At(9), 0), 66) + [RevokeCall("a", "", At(0), 0)]);
      |s.nodes| > 2 * |s.items| + 64
  {
    var c, inert := RevokeCall("a", "", At(9), 0), RevokeCall("a", "", At(0), 0);
    SameIdPilesUp(66);
    var s := After(0, EMPTY, Repeated(c, 66));
    AfterConcat(0, EMPTY, Repeated(c, 66), [inert]);
    assert [inert][1..] == [];
    var r := Step(0, s, inert).1;
    assert After(0, s, [inert]) == r;
    assert Swept(s, 0).nodes == s.nodes;
    assert r.items == map[];
  }

  /** So does a mere read: its sweep takes the entry with one node and leaves the stale ones. */
  lemma ReadBreaksTheHeapBound()
    ensures
      var calls := Repeated(RevokeCall("a", "", At(9), 0), 65) + [RevokeCall("a", "", At(5), 0)];
      !CompactionDue(After(0, EMPTY, calls)) && CompactionDue(After(0, EMPTY, calls + [IsRevokedCall("a", 5)]))
  {
    var c, last, read := RevokeCall("a", "", At(9), 0), RevokeCall("a", "", At(5), 0), IsRevokedCall("a", 5);
    SameIdPilesUp(65);
    var s := After(0, EMPTY, Repeated(c, 65));
    AfterOneMore(0, EMPTY, Repeated(c, 65), last);
    AfterOneMore(0, EMPTY, Repeated(c, 65) + [last], read);
    assert Swept(s, 0) == s;
    StoringAddsOne(s, "a", "", At(5));
    assert |s.items| == |s.items.Keys| == 1;
    var stored := Stored(s, "a", "", At(5));
    assert Step(0, s, last).1 == stored;
    assert Swept(stored, 5).nodes == s.nodes;
    assert Swept(stored, 5).items == map[];
  }

  lemma AfterOneMore(capacity: nat, s: Store, calls: seq<Call>, c: Call)
    ensures After(capacity, s, calls + [c]) == Step(capacity, After(capacity, s, calls), c).1
  {
    AfterConcat(capacity, s, calls, [c]);
    var s' := After(capacity, s, calls);
    assert [c][1..] == [];
    assert After(capacity, Step(capacity, s', c).1, []) == Step(capacity, s', c).1;
  }
}
