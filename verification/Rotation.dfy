/**
 Refresh-token rotation with reuse detection, a protocol on top of the revocation store. Fresh
 tokens are chosen by the environment: `drawn` is the raw token drawn, None when the random
 source failed. `hash` is the at-rest digest of a raw token.
 */
module Rotation {
  import opened Wrappers
  import opened RevocationModel
  import opened RevocationStore
  import R = RevocationRuns

  datatype RotationError = BadFamilyId | NoRandomness

  /** `next` is the raw replacement token, None when the zero token is returned. */
  datatype RotationResult = RotationResult(next: Option<string>, reuseDetected: bool)

  const REUSE := RotationResult(None, true)

  /** The rotator as a value: the live token hash of each family and the store's contents. */
  datatype Rotor = Rotor(live: map<string, string>, store: Store)

  function LiveHash(live: map<string, string>, family: string): string {
    if family in live then live[family] else ""
  }

  function IssueStep(hash: string -> string, r: Rotor, family: string, drawn: Option<string>):
    (Result<string, RotationError>, Rotor)
  {
    match drawn
    case None => (Err(NoRandomness), r)
    case Some(raw) => (Ok(raw), r.(live := r.live[family := hash(raw)]))
  }

  /** The store's answer to the burning Revoke is ignored, as in the Go code. */
  function RotateStep(hash: string -> string, capacity: nat, r: Rotor, family: string, presented: string,
                      drawn: Option<string>, now: int, burnAt: int): (Result<RotationResult, RotationError>, Rotor)
  {
    var (revoked, swept) := IsRevoked(r.store, family, now);
    var r1 := r.(store := swept);
    if revoked.Err? then
      (Err(BadFamilyId), r1)
    else if revoked.value then
      (Ok(REUSE), r1)
    else if LiveHash(r.live, family) != hash(presented) then
      (Ok(REUSE), r1.(store := Revoke(capacity, swept, family, "reuse_detected", Never, burnAt).1))
    else
      match drawn
      case None => (Err(NoRandomness), r1)
      case Some(raw) => (Ok(RotationResult(Some(raw), false)), r1.(live := r.live[family := hash(raw)]))
  }

  class Rotator {
    var live: map<string, string>
    const revoke: MemoryRevocationStore
    const hash: string -> string

    ghost function Model(): Rotor
      reads this, revoke
    {
      Rotor(live, revoke.Model())
    }

    constructor (store: MemoryRevocationStore, hash: string -> string)
      ensures live == map[] && revoke == store && this.hash == hash
    {
      live, revoke, this.hash := map[], store, hash;
    }

    method Issue(family: string, drawn: Option<string>) returns (r: Result<string, RotationError>)
      modifies this
      ensures (r, Model()) == IssueStep(hash, old(Model()), family, drawn)
    {
      if drawn.None? {
        return Err(NoRandomness);
      }
      live := live[family := hash(drawn.value)];
      r := Ok(drawn.value);
    }

    /** `now` and `burnAt` are the two clock readings the store takes. */
    method Rotate(family: string, presented: string, drawn: Option<string>, now: int, burnAt: int)
      returns (r: Result<RotationResult, RotationError>)
      requires revoke.Valid()
      modifies this, revoke
      ensures revoke.Valid()
      ensures (r, Model()) == RotateStep(hash, revoke.capacity, old(Model()), family, presented, drawn, now, burnAt)
    {
      var revoked := revoke.IsRevoked(family, now);
      if revoked.Err? {
        return Err(BadFamilyId);
      }
      if revoked.value {
        return Ok(REUSE);
      }
      var stored := if family in live then live[family] else "";
      if stored != hash(presented) {
        var _, _ := revoke.Revoke(family, "reuse_detected", Never, burnAt);
        return Ok(REUSE);
      }
      if drawn.None? {
        return Err(NoRandomness);
      }
      live := live[family := hash(drawn.value)];
      r := Ok(RotationResult(drawn, false));
    }
  }

  // ---- Runs ------------------------------------------------------------------------

  datatype Event =
    | IssueEvent(family: string, drawn: Option<string>)
    | RotateEvent(family: string, presented: string, drawn: Option<string>, now: int, burnAt: int)
    | StoreEvent(call: R.Call)

  datatype Reply =
    | Issued(issued: Result<string, RotationError>)
    | Rotated(rotated: Result<RotationResult, RotationError>)
    | FromStore(answer: R.Answer)

  function Step(hash: string -> string, capacity: nat, r: Rotor, e: Event): (Reply, Rotor) {
    match e
    case IssueEvent(family, drawn) =>
      var (a, r') := IssueStep(hash, r, family, drawn);
      (Issued(a), r')
    case RotateEvent(family, presented, drawn, now, burnAt) =>
      var (a, r') := RotateStep(hash, capacity, r, family, presented, drawn, now, burnAt);
      (Rotated(a), r')
    case StoreEvent(call) =>
      var (a, s') := R.Step(capacity, r.store, call);
      (FromStore(a), r.(store := s'))
  }

  /** What a family is allowed to do: one token at a time, none once reuse was seen. */
  datatype Family = Unissued | Holds(raw: string) | Burned

  function FamilyStep(f: Family, e: Event): (Reply, Family)
    requires !e.StoreEvent?
  {
    match e
    case IssueEvent(_, None) => (Issued(Err(NoRandomness)), f)
    case IssueEvent(_, Some(raw)) => (Issued(Ok(raw)), if f.Burned? then Burned else Holds(raw))
    case RotateEvent(_, presented, drawn, _, _) =>
      if f != Holds(presented) then
        (Rotated(Ok(REUSE)), Burned)
      else if drawn.None? then
        (Rotated(Err(NoRandomness)), f)
      else
        (Rotated(Ok(RotationResult(drawn, false))), Holds(drawn.value))
  }

  ghost predicate CollisionFree(hash: string -> string) {
    && (forall x :: hash(x) != "")
    && (forall x, y :: hash(x) == hash(y) ==> x == y)
  }

  /** Nobody but the rotator revokes the family itself. */
  ghost predicate LeavesFamilyAlone(family: string, e: Event) {
    e.StoreEvent? && e.call.RevokeCall? ==> e.call.id != family
  }

  predicate Concerns(family: string, e: Event) {
    !e.StoreEvent? && e.family == family
  }

  ghost predicate Tracks(hash: string -> string, family: string, r: Rotor, f: Family) {
    match f
    case Burned => family in r.store.items && r.store.items[family].expiresAt == Never
    case Unissued => family !in r.store.items && family !in r.live
    case Holds(raw) => family !in r.store.items && family in r.live && r.live[family] == hash(raw)
  }

  function Replies(hash: string -> string, capacity: nat, family: string, r: Rotor, events: seq<Event>): seq<Reply>
    decreases |events|
  {
    if events == [] then []
    else
      var (a, r') := Step(hash, capacity, r, events[0]);
      (if Concerns(family, events[0]) then [a] else []) + Replies(hash, capacity, family, r', events[1..])
  }

  function FamilyReplies(family: string, f: Family, events: seq<Event>): seq<Reply>
    decreases |events|
  {
    if events == [] then []
    else if Concerns(family, events[0]) then
      var (a, f') := FamilyStep(f, events[0]);
      [a] + FamilyReplies(family, f', events[1..])
    else
      FamilyReplies(family, f, events[1..])
  }

  /** Store calls and other families' rotations leave the family's standing alone. */
  lemma OtherEventsKeepTrack(hash: string -> string, capacity: nat, family: string, r: Rotor, f: Family, e: Event)
    requires Tracks(hash, family, r, f) && LeavesFamilyAlone(family, e) && !Concerns(family, e)
    ensures Tracks(hash, family, Step(hash, capacity, r, e).1, f)
  {
    match e
    case IssueEvent(_, _) =>
    case RotateEvent(other, _, _, now, burnAt) =>
      var swept := IsRevoked(r.store, other, now).1;
      ReadKeepsStanding(r.store, other, now, family);
      RevokeKeepsStanding(capacity, swept, other, "reuse_detected", Never, burnAt, family);
    case StoreEvent(RevokeCall(id, reason, expiresAt, now)) =>
      RevokeKeepsStanding(capacity, r.store, id, reason, expiresAt, now, family);
    case StoreEvent(IsRevokedCall(id, now)) =>
      ReadKeepsStanding(r.store, id, now, family);
  }

  /** An id that is absent stays so, and one revoked for ever stays revoked. */
  predicate SameStanding(s: Store, s': Store, id: string) {
    && (id !in s.items ==> id !in s'.items)
    && (id in s.items && s.items[id].expiresAt == Never ==> id in s'.items && s'.items[id] == s.items[id])
  }

  lemma ReadKeepsStanding(s: Store, id: string, now: int, family: string)
    ensures SameStanding(s, IsRevoked(s, id, now).1, family)
  {
  }

  lemma RevokeKeepsStanding(capacity: nat, s: Store, id: string, reason: string, expiresAt: Expiry, now: int, family: string)
    requires id != family
    ensures SameStanding(s, Revoke(capacity, s, id, reason, expiresAt, now).1, family)
  {
    var swept := Swept(s, now);
    assert SameStanding(s, swept, family);
    assert Compacted(Stored(swept, id, reason, expiresAt)).items == Stored(swept, id, reason, expiresAt).items;
  }

  /** The event presents a token its family does not hold, while the store does not revoke the family. */
  predicate WrongToken(hash: string -> string, r: Rotor, e: Event) {
    && e.RotateEvent? && e.family !in LiveItems(r.store.items, e.now)
    && LiveHash(r.live, e.family) != hash(e.presented)
  }

  /** The store can take one more id when the burn comes. */
  predicate HasRoom(capacity: nat, r: Rotor, e: Event)
    requires e.RotateEvent?
  {
    capacity == 0 || |LiveItems(Swept(r.store, e.now).items, e.burnAt)| < capacity
  }

  predicate LosesBurn(hash: string -> string, capacity: nat, family: string, r: Rotor, e: Event) {
    Concerns(family, e) && WrongToken(hash, r, e) && !HasRoom(capacity, r, e)
  }

  /** Whenever the family's reuse is detected, the store has room to revoke it. */
  predicate BurnsFit(hash: string -> string, capacity: nat, family: string, r: Rotor, events: seq<Event>)
    decreases |events|
  {
    events == [] ||
    (!LosesBurn(hash, capacity, family, r, events[0]) &&
     BurnsFit(hash, capacity, family, Step(hash, capacity, r, events[0]).1, events[1..]))
  }

  lemma OwnEventsKeepTrack(hash: string -> string, capacity: nat, family: string, r: Rotor, f: Family, e: Event)
    requires CollisionFree(hash) && family != ""
    requires Tracks(hash, family, r, f) && Concerns(family, e) && !LosesBurn(hash, capacity, family, r, e)
    ensures Step(hash, capacity, r, e).0 == FamilyStep(f, e).0
    ensures Tracks(hash, family, Step(hash, capacity, r, e).1, FamilyStep(f, e).1)
  {
  }

  lemma {:induction false} RepliesAgree(
    hash: string -> string, capacity: nat, family: string, r: Rotor, f: Family, events: seq<Event>)
    requires CollisionFree(hash) && family != "" && Tracks(hash, family, r, f)
    requires forall e :: e in events ==> LeavesFamilyAlone(family, e)
    requires BurnsFit(hash, capacity, family, r, events)
    ensures Replies(hash, capacity, family, r, events) == FamilyReplies(family, f, events)
    ensures Tracks(hash, family, RotorAfter(hash, capacity, r, events), FamilyAfter(family, f, events))
    decreases |events|
  {
    if events != [] {
      var e := events[0];
      assert LeavesFamilyAlone(family, e);
      var r' := Step(hash, capacity, r, e).1;
      if Concerns(family, e) {
        OwnEventsKeepTrack(hash, capacity, family, r, f, e);
        RepliesAgree(hash, capacity, family, r', FamilyStep(f, e).1, events[1..]);
      } else {
        OtherEventsKeepTrack(hash, capacity, family, r, f, e);
        RepliesAgree(hash, capacity, family, r', f, events[1..]);
      }
    }
  }

  function RotorAfter(hash: string -> string, capacity: nat, r: Rotor, events: seq<Event>): Rotor
    decreases |events|
  {
    if events == [] then r else RotorAfter(hash, capacity, Step(hash, capacity, r, events[0]).1, events[1..])
  }

  function FamilyAfter(family: string, f: Family, events: seq<Event>): Family
    decreases |events|
  {
    if events == [] then f
    else FamilyAfter(family, if Concerns(family, events[0]) then FamilyStep(f, events[0]).1 else f, events[1..])
  }

  const START := Rotor(map[], EMPTY)

  /**
   Over a store of any capacity, a family answers as the one-token automaton does as long as the
   store has room for it whenever its reuse is detected.
   */
  lemma ProtocolHoldsWhileBurnsFit(hash: string -> string, capacity: nat, family: string, events: seq<Event>)
    requires CollisionFree(hash) && family != ""
    requires forall e :: e in events ==> LeavesFamilyAlone(family, e)
    requires BurnsFit(hash, capacity, family, START, events)
    ensures Replies(hash, capacity, family, START, events) == FamilyReplies(family, Unissued, events)
  {
    RepliesAgree(hash, capacity, family, START, Unissued, events);
  }

  lemma {:induction false} UnboundedBurnsFit(hash: string -> string, family: string, r: Rotor, events: seq<Event>)
    ensures BurnsFit(hash, 0, family, r, events)
    decreases |events|
  {
    if events != [] {
      UnboundedBurnsFit(hash, family, Step(hash, 0, r, events[0]).1, events[1..]);
    }
  }

  /**
   Over an unbounded store, whatever sweeps, compactions and revocations of other ids happen in
   between, a family answers as the one-token automaton does.
   */
  lemma OnlyTheNewestTokenRotates(hash: string -> string, family: string, events: seq<Event>)
    requires CollisionFree(hash) && family != ""
    requires forall e :: e in events ==> LeavesFamilyAlone(family, e)
    ensures Replies(hash, 0, family, START, events) == FamilyReplies(family, Unissued, events)
  {
    UnboundedBurnsFit(hash, family, START, events);
    ProtocolHoldsWhileBurnsFit(hash, 0, family, events);
  }

  // ---- A burn that is lost ---------------------------------------------------------

  lemma {:induction false} RepliesConcat(
    hash: string -> string, capacity: nat, family: string, r: Rotor, xs: seq<Event>, ys: seq<Event>)
    ensures Replies(hash, capacity, family, r, xs + ys) ==
      Replies(hash, capacity, family, r, xs) + Replies(hash, capacity, family, RotorAfter(hash, capacity, r, xs), ys)
    decreases |xs|
  {
    if xs == [] {
      assert xs + ys == ys;
    } else {
      assert (xs + ys)[1..] == xs[1..] + ys;
      RepliesConcat(hash, capacity, family, Step(hash, capacity, r, xs[0]).1, xs[1..], ys);
    }
  }

  lemma {:induction false} FamilyRepliesConcat(family: string, f: Family, xs: seq<Event>, ys: seq<Event>)
    ensures FamilyReplies(family, f, xs + ys) == FamilyReplies(family, f, xs) + FamilyReplies(family, FamilyAfter(family, f, xs), ys)
    decreases |xs|
  {
    if xs == [] {
      assert xs + ys == ys;
    } else {
      assert (xs + ys)[1..] == xs[1..] + ys;
      FamilyRepliesConcat(family, if Concerns(family, xs[0]) then FamilyStep(f, xs[0]).1 else f, xs[1..], ys);
    }
  }

  lemma TwoReplies(hash: string -> string, capacity: nat, family: string, r: Rotor, e: Event, d: Event)
    requires Concerns(family, e) && Concerns(family, d)
    ensures
      var (a, r') := Step(hash, capacity, r, e);
      Replies(hash, capacity, family, r, [e, d]) == [a, Step(hash, capacity, r', d).0]
  {
    var r' := Step(hash, capacity, r, e).1;
    assert [e, d][1..] == [d] && [d][1..] == [];
    assert Replies(hash, capacity, family, Step(hash, capacity, r', d).1, []) == [];
    assert Replies(hash, capacity, family, r', [d]) == [Step(hash, capacity, r', d).0];
  }

  lemma TwoFamilyReplies(family: string, f: Family, e: Event, d: Event)
    requires Concerns(family, e) && Concerns(family, d)
    ensures
      var (a, f') := FamilyStep(f, e);
      FamilyReplies(family, f, [e, d]) == [a, FamilyStep(f', d).0]
  {
    var f' := FamilyStep(f, e).1;
    assert [e, d][1..] == [d] && [d][1..] == [];
    assert FamilyReplies(family, FamilyStep(f', d).1, []) == [];
    assert FamilyReplies(family, f', [d]) == [FamilyStep(f', d).0];
  }

  /** A lost burn answers reuse, and leaves the family as it stood. */
  lemma LostBurnChangesNothing(hash: string -> string, capacity: nat, family: string, r: Rotor, f: Family, e: Event)
    requires CollisionFree(hash) && family != ""
    requires Tracks(hash, family, r, f) && LosesBurn(hash, capacity, family, r, e)
    ensures Step(hash, capacity, r, e).0 == Rotated(Ok(REUSE)) && Tracks(hash, family, Step(hash, capacity, r, e).1, f)
    ensures FamilyStep(f, e) == (Rotated(Ok(REUSE)), Burned) && !f.Burned?
  {
  }

  /**
   The condition is exact: after the first burn that is lost, the token the family holds still
   rotates, where the automaton answers reuse.
   */
  lemma LostBurnRevivesTheFamily(hash: string -> string, capacity: nat, family: string, before: seq<Event>, e: Event,
                                 raw: string, next: string, now: int, burnAt: int)
    requires CollisionFree(hash) && family != ""
    requires forall d :: d in before ==> LeavesFamilyAlone(family, d)
    requires BurnsFit(hash, capacity, family, START, before) && FamilyAfter(family, Unissued, before) == Holds(raw)
    requires LosesBurn(hash, capacity, family, RotorAfter(hash, capacity, START, before), e)
    ensures
      var run := before + [e, RotateEvent(family, raw, Some(next), now, burnAt)];
      var agreed := FamilyReplies(family, Unissued, before);
      && Replies(hash, capacity, family, START, run) ==
           agreed + [Rotated(Ok(REUSE)), Rotated(Ok(RotationResult(Some(next), false)))]
      && FamilyReplies(family, Unissued, run) == agreed + [Rotated(Ok(REUSE)), Rotated(Ok(REUSE))]
  {
    var d := RotateEvent(family, raw, Some(next), now, burnAt);
    var r := RotorAfter(hash, capacity, START, before);
    RepliesAgree(hash, capacity, family, START, Unissued, before);
    RepliesConcat(hash, capacity, family, START, before, [e, d]);
    FamilyRepliesConcat(family, Unissued, before, [e, d]);
    LostBurnChangesNothing(hash, capacity, family, r, Holds(raw), e);
    TwoReplies(hash, capacity, family, r, e, d);
    TwoFamilyReplies(family, Holds(raw), e, d);
    OwnEventsKeepTrack(hash, capacity, family, Step(hash, capacity, r, e).1, Holds(raw), d);
  }

  /**
   After any first burn that is lost, whether the family held a token or not, a token issued next
   rotates, where the automaton answers reuse.
   */
  lemma LostBurnForgetsReuse(hash: string -> string, capacity: nat, family: string, before: seq<Event>, e: Event,
                             raw: string, next: string, now: int, burnAt: int)
    requires CollisionFree(hash) && family != ""
    requires forall d :: d in before ==> LeavesFamilyAlone(family, d)
    requires BurnsFit(hash, capacity, family, START, before)
    requires LosesBurn(hash, capacity, family, RotorAfter(hash, capacity, START, before), e)
    ensures
      var run := before + [e] + [IssueEvent(family, Some(raw)), RotateEvent(family, raw, Some(next), now, burnAt)];
      var agreed := FamilyReplies(family, Unissued, before) + [Rotated(Ok(REUSE)), Issued(Ok(raw))];
      && Replies(hash, capacity, family, START, run) == agreed + [Rotated(Ok(RotationResult(Some(next), false)))]
      && FamilyReplies(family, Unissued, run) == agreed + [Rotated(Ok(REUSE))]
  {
    var issue, d := IssueEvent(family, Some(raw)), RotateEvent(family, raw, Some(next), now, burnAt);
    var r, f := RotorAfter(hash, capacity, START, before), FamilyAfter(family, Unissued, before);
    RepliesAgree(hash, capacity, family, START, Unissued, before);
    LostBurnChangesNothing(hash, capacity, family, r, f, e);
    var r1 := Step(hash, capacity, r, e).1;
    IssuedTokenRotates(hash, capacity, family, r1, f, raw, next, now, burnAt);
    RunInThree(hash, capacity, family, before, e, [issue, d]);
    FamilyRunInThree(family, before, e, [issue, d]);
    BurnedFamilyRefuses(family, raw, next, now, burnAt);
    var agreed := FamilyReplies(family, Unissued, before);
    Regrouped(agreed, Rotated(Ok(REUSE)), Issued(Ok(raw)), Rotated(Ok(RotationResult(Some(next), false))));
    Regrouped(agreed, Rotated(Ok(REUSE)), Issued(Ok(raw)), Rotated(Ok(REUSE)));
  }

  lemma Regrouped(a: seq<Reply>, x: Reply, y: Reply, z: Reply)
    ensures a + [x] + [y, z] == a + [x, y] + [z]
  {
  }

  lemma IssuedTokenRotates(hash: string -> string, capacity: nat, family: string, r: Rotor, f: Family,
                           raw: string, next: string, now: int, burnAt: int)
    requires CollisionFree(hash) && family != "" && Tracks(hash, family, r, f) && !f.Burned?
    ensures
      var issue, d := IssueEvent(family, Some(raw)), RotateEvent(family, raw, Some(next), now, burnAt);
      Replies(hash, capacity, family, r, [issue, d]) == [Issued(Ok(raw)), Rotated(Ok(RotationResult(Some(next), false)))]
  {
    var issue, d := IssueEvent(family, Some(raw)), RotateEvent(family, raw, Some(next), now, burnAt);
    OwnEventsKeepTrack(hash, capacity, family, r, f, issue);
    OwnEventsKeepTrack(hash, capacity, family, Step(hash, capacity, r, issue).1, Holds(raw), d);
    TwoReplies(hash, capacity, family, r, issue, d);
  }

  lemma BurnedFamilyRefuses(family: string, raw: string, next: string, now: int, burnAt: int)
    ensures
      var issue, d := IssueEvent(family, Some(raw)), RotateEvent(family, raw, Some(next), now, burnAt);
      FamilyReplies(family, Burned, [issue, d]) == [Issued(Ok(raw)), Rotated(Ok(REUSE))]
  {
    TwoFamilyReplies(family, Burned, IssueEvent(family, Some(raw)), RotateEvent(family, raw, Some(next), now, burnAt));
  }

  /** A run cut around one event of the family. */
  lemma RunInThree(hash: string -> string, capacity: nat, family: string, before: seq<Event>, e: Event, rest: seq<Event>)
    requires Concerns(family, e)
    ensures
      var (a, r1) := Step(hash, capacity, RotorAfter(hash, capacity, START, before), e);
      Replies(hash, capacity, family, START, before + [e] + rest) ==
        Replies(hash, capacity, family, START, before) + [a] + Replies(hash, capacity, family, r1, rest)
  {
    Associate(before, [e], rest);
    RepliesConcat(hash, capacity, family, START, before, [e] + rest);
    FirstReply(hash, capacity, family, RotorAfter(hash, capacity, START, before), e, rest);
  }

  lemma FamilyRunInThree(family: string, before: seq<Event>, e: Event, rest: seq<Event>)
    requires Concerns(family, e)
    ensures
      var (a, f1) := FamilyStep(FamilyAfter(family, Unissued, before), e);
      FamilyReplies(family, Unissued, before + [e] + rest) ==
        FamilyReplies(family, Unissued, before) + [a] + FamilyReplies(family, f1, rest)
  {
    Associate(before, [e], rest);
    FamilyRepliesConcat(family, Unissued, before, [e] + rest);
    FirstFamilyReply(family, FamilyAfter(family, Unissued, before), e, rest);
  }

  lemma Associate(a: seq<Event>, b: seq<Event>, c: seq<Event>)
    ensures a + b + c == a + (b + c)
  {
  }

  lemma FirstReply(hash: string -> string, capacity: nat, family: string, r: Rotor, e: Event, rest: seq<Event>)
    requires Concerns(family, e)
    ensures
      var (a, r1) := Step(hash, capacity, r, e);
      Replies(hash, capacity, family, r, [e] + rest) == [a] + Replies(hash, capacity, family, r1, rest)
  {
    assert ([e] + rest)[0] == e && ([e] + rest)[1..] == rest;
  }

  lemma FirstFamilyReply(family: string, f: Family, e: Event, rest: seq<Event>)
    requires Concerns(family, e)
    ensures
      var (a, f1) := FamilyStep(f, e);
      FamilyReplies(family, f, [e] + rest) == [a] + FamilyReplies(family, f1, rest)
  {
    assert ([e] + rest)[0] == e && ([e] + rest)[1..] == rest;
  }

  /** It does happen: a store of capacity one, full with another id. */
  lemma BurnLostInFullStore(hash: string -> string)
    requires CollisionFree(hash)
    ensures
      var before := [StoreEvent(R.RevokeCall("other", "", Never, 0)), IssueEvent("family", Some("held"))];
      var run := before + [RotateEvent("family", "stolen", None, 1, 1), RotateEvent("family", "held", Some("next"), 2, 2)];
      Replies(hash, 1, "family", START, run) ==
        [Issued(Ok("held")), Rotated(Ok(REUSE)), Rotated(Ok(RotationResult(Some("next"), false)))]
  {
    var revoke, issue := StoreEvent(R.RevokeCall("other", "", Never, 0)), IssueEvent("family", Some("held"));
    var e := RotateEvent("family", "stolen", None, 1, 1);
    FullStore(hash);
    IssuedRun(hash, revoke, issue);
    LostBurnRevivesTheFamily(hash, 1, "family", [revoke, issue], e, "held", "next", 2, 2);
  }

  lemma FullStore(hash: string -> string)
    ensures
      var r := Step(hash, 1, START, StoreEvent(R.RevokeCall("other", "", Never, 0))).1;
      r.live == map[] && r.store.items == map["other" := Entry("", Never, 1)]
  {
    var stored := Stored(Swept(EMPTY, 0), "other", "", Never);
    assert stored.items == map["other" := Entry("", Never, 1)] && stored.nodes == {};
    assert Compacted(stored) == stored;
  }

  lemma IssuedRun(hash: string -> string, revoke: Event, issue: Event)
    requires CollisionFree(hash)
    requires revoke == StoreEvent(R.RevokeCall("other", "", Never, 0)) && issue == IssueEvent("family", Some("held"))
    ensures
      var before, r := [revoke, issue], RotorAfter(hash, 1, START, [revoke, issue]);
      && r.live == map["family" := hash("held")] && r.store.items == map["other" := Entry("", Never, 1)]
      && BurnsFit(hash, 1, "family", START, before) && FamilyAfter("family", Unissued, before) == Holds("held")
      && FamilyReplies("family", Unissued, before) == [Issued(Ok("held"))]
      && LosesBurn(hash, 1, "family", r, RotateEvent("family", "stolen", None, 1, 1))
  {
    FullStore(hash);
    TwoSteps(hash, 1, "family", START, revoke, issue);
    IssuedFamily(revoke, issue);
    var r := RotorAfter(hash, 1, START, [revoke, issue]);
    assert LiveItems(Swept(r.store, 1).items, 1) == r.store.items;
    assert hash("held") != hash("stolen");
  }

  lemma TwoSteps(hash: string -> string, capacity: nat, family: string, r: Rotor, e: Event, d: Event)
    ensures RotorAfter(hash, capacity, r, [e, d]) == Step(hash, capacity, Step(hash, capacity, r, e).1, d).1
    ensures !e.RotateEvent? && !d.RotateEvent? ==> BurnsFit(hash, capacity, family, r, [e, d])
  {
    var r1 := Step(hash, capacity, r, e).1;
    var r2 := Step(hash, capacity, r1, d).1;
    assert [e, d][1..] == [d] && [d][1..] == [];
    assert RotorAfter(hash, capacity, r2, []) == r2 && RotorAfter(hash, capacity, r1, [d]) == r2;
    assert BurnsFit(hash, capacity, family, r2, []);
    assert !d.RotateEvent? ==> BurnsFit(hash, capacity, family, r1, [d]);
  }

  lemma IssuedFamily(revoke: Event, issue: Event)
    requires revoke.StoreEvent? && issue == IssueEvent("family", Some("held"))
    ensures FamilyAfter("family", Unissued, [revoke, issue]) == Holds("held")
    ensures FamilyReplies("family", Unissued, [revoke, issue]) == [Issued(Ok("held"))]
  {
    assert [revoke, issue][1..] == [issue] && [issue][1..] == [];
    assert FamilyAfter("family", Holds("held"), []) == Holds("held");
    assert FamilyAfter("family", Unissued, [issue]) == Holds("held");
    assert FamilyReplies("family", Holds("held"), []) == [];
    assert FamilyReplies("family", Unissued, [issue]) == [Issued(Ok("held"))];
  }

  // ---- Reuse is for ever -----------------------------------------------------------

  lemma {:induction false} BurnedStaysBurned(family: string, events: seq<Event>, j: nat)
    requires j < |FamilyReplies(family, Burned, events)|
    ensures FamilyReplies(family, Burned, events)[j].Rotated? ==> FamilyReplies(family, Burned, events)[j] == Rotated(Ok(REUSE))
    decreases |events|
  {
    if events != [] {
      if Concerns(family, events[0]) {
        if j > 0 {
          BurnedStaysBurned(family, events[1..], j - 1);
        }
      } else {
        BurnedStaysBurned(family, events[1..], j);
      }
    }
  }

  lemma {:induction false} ReuseBurns(family: string, f: Family, events: seq<Event>, i: nat, j: nat)
    requires i < j < |FamilyReplies(family, f, events)|
    requires FamilyReplies(family, f, events)[i] == Rotated(Ok(REUSE))
    ensures FamilyReplies(family, f, events)[j].Rotated? ==> FamilyReplies(family, f, events)[j] == Rotated(Ok(REUSE))
    decreases |events|
  {
    if events != [] {
      if !Concerns(family, events[0]) {
        ReuseBurns(family, f, events[1..], i, j);
      } else if i > 0 {
        ReuseBurns(family, FamilyStep(f, events[0]).1, events[1..], i - 1, j - 1);
      } else {
        BurnedStaysBurned(family, events[1..], j - 1);
      }
    }
  }

  /** Once one rotation of a family was answered with reuse, every later one is. */
  lemma ReuseIsForever(hash: string -> string, family: string, events: seq<Event>, i: nat, j: nat)
    requires CollisionFree(hash) && family != ""
    requires forall e :: e in events ==> LeavesFamilyAlone(family, e)
    requires i < j < |Replies(hash, 0, family, START, events)|
    requires Replies(hash, 0, family, START, events)[i] == Rotated(Ok(REUSE))
    ensures
      var later := Replies(hash, 0, family, START, events)[j];
      later.Rotated? ==> later == Rotated(Ok(REUSE))
  {
    OnlyTheNewestTokenRotates(hash, family, events);
    ReuseBurns(family, Unissued, events, i, j);
  }

  /**
   Over a bounded store the burn is lost exactly when the store is full of other live ids at
   that moment: the family then keeps its newest token.
   */
  lemma BurnIsLostExactlyWhenFull(hash: string -> string, capacity: nat, r: Rotor, family: string, presented: string,
                                  drawn: Option<string>, now: int, burnAt: int)
    requires family != "" && now <= burnAt
    requires family !in LiveItems(r.store.items, now) && LiveHash(r.live, family) != hash(presented)
    ensures
      var (a, r') := RotateStep(hash, capacity, r, family, presented, drawn, now, burnAt);
      && a == Ok(REUSE) && r'.live == r.live
      && (family !in r'.store.items <==> capacity > 0 && |LiveItems(r.store.items, burnAt)| >= capacity)
  {
    R.SweepTwice(r.store, now, burnAt);
  }
}
