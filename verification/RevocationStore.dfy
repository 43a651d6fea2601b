/**
 The in-memory revocation store: a map, a min-heap and a counter updated in place. Each locked
 region is one method; the reading of the injected clock is its `now` parameter.
 */
module RevocationStore {
  import opened Wrappers
  import opened ExpiryHeap
  import opened RevocationModel

  ghost predicate Distinct(h: seq<ExpiryNode>) {
    forall n :: multiset(h)[n] <= 1
  }

  ghost function NodeSet(h: seq<ExpiryNode>): set<ExpiryNode> {
    set n | n in h
  }

  /** A heap without repeats has as many nodes as its set. */
  lemma {:induction false} DistinctSize(h: seq<ExpiryNode>)
    requires Distinct(h)
    ensures |NodeSet(h)| == |h|
  {
    if h != [] {
      assert h == [h[0]] + h[1..];
      assert forall n :: multiset(h)[n] == multiset(h[1..])[n] + (if n == h[0] then 1 else 0);
      assert multiset(h)[h[0]] <= 1;
      DistinctSize(h[1..]);
      assert NodeSet(h) == NodeSet(h[1..]) + {h[0]};
    }
  }

  lemma SameNodes(h: seq<ExpiryNode>, g: seq<ExpiryNode>)
    requires multiset(h) == multiset(g) && Distinct(h)
    ensures Distinct(g) && NodeSet(g) == NodeSet(h) && |g| == |h|
  {
    assert forall n :: n in h <==> n in multiset(h);
    assert forall n :: n in g <==> n in multiset(g);
    assert |multiset(h)| == |multiset(g)|;
  }

  lemma AddedNode(h: seq<ExpiryNode>, g: seq<ExpiryNode>, x: ExpiryNode)
    requires multiset(g) == multiset(h) + multiset{x} && Distinct(h) && x !in h
    ensures Distinct(g) && NodeSet(g) == NodeSet(h) + {x}
  {
    assert forall n :: n in h <==> n in multiset(h);
    assert forall n :: n in g <==> n in multiset(g);
  }

  lemma RemovedNode(h: seq<ExpiryNode>, g: seq<ExpiryNode>, x: ExpiryNode)
    requires multiset(h) == multiset(g) + multiset{x} && Distinct(h)
    ensures Distinct(g) && x !in g && NodeSet(g) == NodeSet(h) - {x}
  {
    assert forall n :: n in h <==> n in multiset(h);
    assert forall n :: n in g <==> n in multiset(g);
    assert forall n :: multiset(h)[n] == multiset(g)[n] + (if n == x then 1 else 0);
  }

  /** A node of a later generation is in no heap of this one. */
  lemma NewNode(h: seq<ExpiryNode>, s: Store, x: ExpiryNode)
    requires NodeSet(h) == s.nodes && Inv(s) && x.generation > s.generation
    ensures x !in h
  {
    assert x in h ==> x in NodeSet(h);
  }

  lemma OneMoreTimedNode(items: map<string, Entry>, todo: set<string>, id: string)
    requires id in todo && id in items
    ensures TimedNodes(items - (todo - {id})) == TimedNodes(items - todo) +
      if items[id].expiresAt.At? then {NodeOf(id, items[id])} else {}
  {
    var more, done := items - (todo - {id}), items - todo;
    assert more == done[id := items[id]];
    var extra := if items[id].expiresAt.At? then {NodeOf(id, items[id])} else {};
    forall n | n in TimedNodes(done) + extra
      ensures n in TimedNodes(more)
    {
      assert n.id in more && NodeOf(n.id, more[n.id]) == n;
    }
    assert TimedNodes(more) == TimedNodes(done) + extra;
  }

  class MemoryRevocationStore {
    var items: map<string, Entry>
    var expirations: seq<ExpiryNode>
    var generation: nat
    const capacity: nat

    ghost function Model(): Store
      reads this
    {
      Store(items, NodeSet(expirations), generation)
    }

    ghost predicate Valid()
      reads this
    {
      IsHeap(expirations) && Distinct(expirations) && Inv(Model())
    }

    constructor (capacity: nat)
      ensures Valid() && Model() == EMPTY && this.capacity == capacity
    {
      items, expirations, generation := map[], [], 0;
      this.capacity := capacity;
    }

    /** `work` counts the entries walked by a rebuild of the heap. */
    method Revoke(id: string, reason: string, expiresAt: Expiry, now: int)
      returns (r: Result<(), RevocationError>, ghost work: nat)
      requires Valid()
      modifies this
      ensures Valid()
      ensures (r, Model()) == RevocationModel.Revoke(capacity, old(Model()), id, reason, expiresAt, now)
      ensures work == RevokeWork(capacity, old(Model()), id, reason, expiresAt, now)
    {
      work := 0;
      if id == "" {
        return Err(InvalidId), work;
      }
      RemoveExpired(now);
      if !LiveAt(expiresAt, now) {
        RevokeKeepsInv(capacity, old(Model()), id, reason, expiresAt, now);
        items := items - {id};
        return Ok(()), work;
      }
      if id !in items && capacity > 0 && |items| >= capacity {
        return Err(StoreFull), work;
      }
      StoreEntry(id, reason, expiresAt);
      work := CompactExpirations();
      r := Ok(());
    }

    /** The entry and its node under the next generation. */
    method StoreEntry(id: string, reason: string, expiresAt: Expiry)
      requires Valid()
      modifies this
      ensures Valid() && Model() == Stored(old(Model()), id, reason, expiresAt)
    {
      StoredKeepsInv(Model(), id, reason, expiresAt);
      generation := generation + 1;
      var entry := Entry(reason, expiresAt, generation);
      items := items[id := entry];
      if expiresAt.At? {
        var node := NodeOf(id, entry);
        NewNode(expirations, old(Model()), node);
        ghost var before := expirations;
        expirations := Push(expirations, node);
        AddedNode(before, expirations, node);
      }
    }

    method IsRevoked(id: string, now: int) returns (r: Result<bool, RevocationError>)
      requires Valid()
      modifies this
      ensures Valid()
      ensures (r, Model()) == RevocationModel.IsRevoked(old(Model()), id, now)
    {
      if id == "" {
        return Err(InvalidId);
      }
      RemoveExpired(now);
      r := Ok(id in items);
    }

    /** Pops every expired node, deleting the entry it still stands for. */
    method RemoveExpired(now: int)
      requires Valid()
      modifies this
      ensures Valid() && Model() == Swept(old(Model()), now)
    {
      while |expirations| > 0 && expirations[0].expiresAt <= now
        invariant Valid() && generation == old(generation)
        invariant NodeSet(expirations) <= old(NodeSet(expirations))
        invariant forall n :: n in old(NodeSet(expirations)) && n.expiresAt > now ==> n in NodeSet(expirations)
        invariant items.Keys <= old(items).Keys
        invariant forall id :: id in items ==> items[id] == old(items)[id]
        invariant forall id :: id in old(items) && LiveAt(old(items)[id].expiresAt, now) ==> id in items
        decreases |expirations|
      {
        ghost var before := expirations;
        ghost var entries := items;
        var rest, expired := Pop(expirations);
        RemovedNode(before, rest, expired);
        expirations := rest;
        assert |multiset(before)| == |multiset(rest)| + 1;
        if && expired.id in items
           && items[expired.id].generation == expired.generation
           && !LiveAt(items[expired.id].expiresAt, now) {
          items := items - {expired.id};
        }
        forall n | n in TimedNodes(items)
          ensures n in NodeSet(expirations)
        {
          assert n in TimedNodes(entries);
        }
      }
      forall n | n in NodeSet(expirations)
        ensures n.expiresAt > now
      {
        var i :| 0 <= i < |expirations| && expirations[i] == n;
        RootIsEarliest(expirations, i);
      }
      forall id | id in items
        ensures LiveAt(items[id].expiresAt, now)
      {
        if items[id].expiresAt.At? {
          assert NodeOf(id, items[id]) in TimedNodes(items);
        }
      }
      assert items == LiveItems(old(items), now);
      assert NodeSet(expirations) == Swept(old(Model()), now).nodes;
    }

    /** Rebuilds the heap from the entries when too many of its nodes are stale; `work` counts the loop's rounds. */
    method CompactExpirations() returns (ghost work: nat)
      requires Valid()
      modifies this`expirations
      ensures Valid() && Model() == Compacted(old(Model()))
      ensures work == CompactionWork(old(Model()))
    {
      work := 0;
      DistinctSize(expirations);
      if |expirations| <= 2 * |items| + 64 {
        return;
      }
      var rebuilt: seq<ExpiryNode> := [];
      var todo := items.Keys;
      while todo != {}
        invariant todo <= items.Keys && work + |todo| == |items.Keys|
        invariant Distinct(rebuilt) && (forall n :: n in rebuilt ==> n.id in items && n.id !in todo)
        invariant NodeSet(rebuilt) == TimedNodes(items - todo)
        decreases todo
      {
        var id :| id in todo;
        OneMoreTimedNode(items, todo, id);
        if items[id].expiresAt.At? {
          AddedNode(rebuilt, rebuilt + [NodeOf(id, items[id])], NodeOf(id, items[id]));
          rebuilt := rebuilt + [NodeOf(id, items[id])];
        }
        todo := todo - {id};
        work := work + 1;
      }
      assert items - todo == items;
      expirations := Init(rebuilt);
      SameNodes(rebuilt, expirations);
    }
  }

  /** NewMemoryRevocationStoreWithCapacity refuses a capacity that is not positive. */
  method NewWithCapacity(capacity: int) returns (r: Option<MemoryRevocationStore>)
    ensures r.None? <==> capacity <= 0
    ensures r.Some? ==> fresh(r.value) && r.value.Valid() && r.value.Model() == EMPTY && r.value.capacity == capacity
  {
    if capacity <= 0 {
      return None;
    }
    var store := new MemoryRevocationStore(capacity);
    r := Some(store);
  }
}
