/**
 The revocation store as a value: the map of entries, the set of expiry nodes still in the
 heap, and the generation counter. `Revoke` and `IsRevoked` below are what the methods of
 `RevocationStore.MemoryRevocationStore` are proved to do to it; the lemmas about whole runs
 are in `RevocationRuns`.
 */
module RevocationModel {
  import opened Wrappers
  import opened ExpiryHeap

  /** A zero `expiresAt` in the Go code never expires. */
  datatype Expiry = Never | At(time: int)

  datatype Entry = Entry(reason: string, expiresAt: Expiry, generation: nat)

  datatype Store = Store(items: map<string, Entry>, nodes: set<ExpiryNode>, generation: nat)

  datatype RevocationError = InvalidId | StoreFull

  const EMPTY := Store(map[], {}, 0)

  predicate LiveAt(e: Expiry, now: int) {
    e.Never? || e.time > now
  }

  function NodeOf(id: string, e: Entry): ExpiryNode
    requires e.expiresAt.At?
  {
    ExpiryNode(id, e.expiresAt.time, e.generation)
  }

  function TimedNodes(items: map<string, Entry>): set<ExpiryNode> {
    set id | id in items && items[id].expiresAt.At? :: NodeOf(id, items[id])
  }

  /** Every timed entry has its own node; nodes of overwritten or deleted entries may linger. */
  ghost predicate Inv(s: Store) {
    && TimedNodes(s.items) <= s.nodes
    && forall n :: n in s.nodes ==> n.generation <= s.generation
  }

  function LiveItems(items: map<string, Entry>, now: int): map<string, Entry> {
    map id | id in items && LiveAt(items[id].expiresAt, now) :: items[id]
  }

  /** removeExpiredLocked: exactly the entries and nodes that have expired go away. */
  function Swept(s: Store, now: int): Store {
    Store(LiveItems(s.items, now), (set n | n in s.nodes && n.expiresAt > now), s.generation)
  }

  predicate CompactionDue(s: Store) {
    |s.nodes| > 2 * |s.items| + 64
  }

  function Compacted(s: Store): Store {
    if CompactionDue(s) then s.(nodes := TimedNodes(s.items)) else s
  }

  /** The entries a rebuild walks; zero when none is due. */
  function CompactionWork(s: Store): nat {
    if CompactionDue(s) then |s.items| else 0
  }

  predicate Refuses(capacity: nat, s: Store, id: string) {
    id !in s.items && capacity > 0 && |s.items| >= capacity
  }

  /** The entry and its node under a new generation, before any compaction. */
  function Stored(s: Store, id: string, reason: string, expiresAt: Expiry): Store {
    var e := Entry(reason, expiresAt, s.generation + 1);
    Store(s.items[id := e], if expiresAt.At? then s.nodes + {NodeOf(id, e)} else s.nodes, s.generation + 1)
  }

  /** A capacity of zero is unbounded. */
  function Revoke(capacity: nat, s: Store, id: string, reason: string, expiresAt: Expiry, now: int):
    (Result<(), RevocationError>, Store)
  {
    if id == "" then
      (Err(InvalidId), s)
    else
      var swept := Swept(s, now);
      if !LiveAt(expiresAt, now) then
        (Ok(()), swept.(items := swept.items - {id}))
      else if Refuses(capacity, swept, id) then
        (Err(StoreFull), swept)
      else
        (Ok(()), Compacted(Stored(swept, id, reason, expiresAt)))
  }

  /** The entries walked when this call rebuilds the heap. */
  function RevokeWork(capacity: nat, s: Store, id: string, reason: string, expiresAt: Expiry, now: int): nat {
    var swept := Swept(s, now);
    if id == "" || !LiveAt(expiresAt, now) || Refuses(capacity, swept, id) then 0
    else CompactionWork(Stored(swept, id, reason, expiresAt))
  }

  function IsRevoked(s: Store, id: string, now: int): (Result<bool, RevocationError>, Store) {
    if id == "" then
      (Err(InvalidId), s)
    else
      var swept := Swept(s, now);
      (Ok(id in swept.items), swept)
  }

  lemma SweptKeepsInv(s: Store, now: int)
    requires Inv(s)
    ensures Inv(Swept(s, now))
  {
    var r := Swept(s, now);
    forall id | id in r.items && r.items[id].expiresAt.At?
      ensures NodeOf(id, r.items[id]) in r.nodes
    {
      assert NodeOf(id, s.items[id]) in TimedNodes(s.items);
    }
  }

  lemma StoredKeepsInv(s: Store, id: string, reason: string, expiresAt: Expiry)
    requires Inv(s)
    ensures Inv(Stored(s, id, reason, expiresAt))
  {
    var r := Stored(s, id, reason, expiresAt);
    forall i | i in r.items && r.items[i].expiresAt.At?
      ensures NodeOf(i, r.items[i]) in r.nodes
    {
      if i != id {
        assert NodeOf(i, s.items[i]) in TimedNodes(s.items);
      }
    }
  }

  lemma CompactedKeepsInv(s: Store)
    requires Inv(s)
    ensures Inv(Compacted(s))
  {
  }

  lemma RevokeKeepsInv(capacity: nat, s: Store, id: string, reason: string, expiresAt: Expiry, now: int)
    requires Inv(s)
    ensures Inv(Revoke(capacity, s, id, reason, expiresAt, now).1)
  {
    SweptKeepsInv(s, now);
    var swept := Swept(s, now);
    StoredKeepsInv(swept, id, reason, expiresAt);
    CompactedKeepsInv(Stored(swept, id, reason, expiresAt));
    var smaller := swept.(items := swept.items - {id});
    assert TimedNodes(smaller.items) <= TimedNodes(swept.items) by {
      forall i | i in smaller.items && smaller.items[i].expiresAt.At?
        ensures NodeOf(i, smaller.items[i]) in TimedNodes(swept.items)
      {
        assert smaller.items[i] == swept.items[i];
      }
    }
  }

  /** A rebuilt heap has at most one node an entry. */
  lemma {:induction false} TimedNodesAreFew(items: map<string, Entry>)
    ensures |TimedNodes(items)| <= |items|
    decreases |items|
  {
    if id :| id in items {
      var rest := items - {id};
      TimedNodesAreFew(rest);
      assert items.Keys == rest.Keys + {id};
      if items[id].expiresAt.At? {
        assert TimedNodes(items) == TimedNodes(rest) + {NodeOf(id, items[id])} by {
          assert forall i :: i in rest ==> rest[i] == items[i];
        }
      } else {
        assert TimedNodes(items) == TimedNodes(rest);
      }
    } else {
      assert TimedNodes(items) == {};
    }
  }
}
