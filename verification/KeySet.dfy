/**
 The indexed key set: an insertion-ordered sequence with a map from kid to position, updated
 in place, and the plain map provider of jwttest that it is compared with.
 */
module KeySets {
  import opened Wrappers
  import opened Keys

  /** The position of the first key with this kid; |keys| when there is none. */
  function Position(keys: seq<Key>, kid: string): (i: nat)
    ensures i <= |keys|
    ensures i < |keys| ==> keys[i].kid == kid
    ensures forall j :: 0 <= j < i ==> keys[j].kid != kid
  {
    if keys == [] || keys[0].kid == kid then 0 else 1 + Position(keys[1..], kid)
  }

  /** A linear scan; an empty kid finds only a sole key. */
  function Find(keys: seq<Key>, kid: string): Option<Key> {
    if kid == "" then
      if |keys| == 1 then Some(keys[0]) else None
    else
      var i := Position(keys, kid);
      if i < |keys| then Some(keys[i]) else None
  }

  /** Replace the key with the same non-empty kid where it stands, or append. */
  function Added(keys: seq<Key>, k: Key): seq<Key> {
    var i := Position(keys, k.kid);
    if k.kid != "" && i < |keys| then keys[i := k] else keys + [k]
  }

  /** The keys with another kid, in their order. */
  function Without(keys: seq<Key>, kid: string): seq<Key> {
    if keys == [] then []
    else (if keys[0].kid != kid then [keys[0]] else []) + Without(keys[1..], kid)
  }

  ghost predicate UniqueKids(keys: seq<Key>) {
    forall i, j :: 0 <= i < j < |keys| && keys[i].kid != "" ==> keys[i].kid != keys[j].kid
  }

  /** `index` maps each non-empty kid to the position of its key. */
  ghost predicate IndexOf(index: map<string, nat>, keys: seq<Key>) {
    && (forall kid :: kid in index ==> kid != "" && index[kid] < |keys| && keys[index[kid]].kid == kid)
    && (forall i :: 0 <= i < |keys| && keys[i].kid != "" ==> keys[i].kid in index && index[keys[i].kid] == i)
  }

  lemma IndexOneMore(index: map<string, nat>, keys: seq<Key>, i: nat)
    requires UniqueKids(keys) && i < |keys| && IndexOf(index, keys[..i])
    ensures IndexOf(if keys[i].kid != "" then index[keys[i].kid := i] else index, keys[..i + 1])
  {
    var more := keys[..i + 1];
    assert forall j :: 0 <= j < i ==> keys[..i][j] == keys[j] == more[j];
    assert more[i] == keys[i];
  }

  lemma AddedKeepsUnique(keys: seq<Key>, k: Key)
    requires UniqueKids(keys)
    ensures UniqueKids(Added(keys, k))
  {
    var i := Position(keys, k.kid);
    var r := Added(keys, k);
    forall a, b | 0 <= a < b < |r| && r[a].kid != ""
      ensures r[a].kid != r[b].kid
    {
      if i < |keys| && k.kid != "" {
        assert r[a].kid == keys[a].kid && r[b].kid == keys[b].kid;
      }
    }
  }

  lemma {:induction false} WithoutAppend(keys: seq<Key>, k: Key, kid: string)
    ensures Without(keys + [k], kid) == Without(keys, kid) + if k.kid != kid then [k] else []
  {
    if keys == [] {
      assert (keys + [k])[1..] == [];
    } else {
      assert (keys + [k])[1..] == keys[1..] + [k];
      WithoutAppend(keys[1..], k, kid);
    }
  }

  lemma {:induction false} WithoutMembers(keys: seq<Key>, kid: string)
    ensures forall k :: k in Without(keys, kid) <==> k in keys && k.kid != kid
  {
    if keys != [] {
      WithoutMembers(keys[1..], kid);
    }
  }

  lemma {:induction false} WithoutKeepsUnique(keys: seq<Key>, kid: string)
    requires UniqueKids(keys)
    ensures UniqueKids(Without(keys, kid))
  {
    if keys != [] {
      assert UniqueKids(keys[1..]) by {
        forall i, j | 0 <= i < j < |keys[1..]| && keys[1..][i].kid != ""
          ensures keys[1..][i].kid != keys[1..][j].kid
        {
          assert keys[i + 1].kid != keys[j + 1].kid;
        }
      }
      WithoutKeepsUnique(keys[1..], kid);
      WithoutMembers(keys[1..], kid);
      var r, rest := Without(keys, kid), Without(keys[1..], kid);
      forall j | 0 <= j < |rest| && keys[0].kid != ""
        ensures rest[j].kid != keys[0].kid
      {
        assert rest[j] in keys[1..];
        var m :| 0 <= m < |keys[1..]| && keys[1..][m] == rest[j];
        assert keys[m + 1] == rest[j];
      }
    }
  }

  class KeySet {
    var keys: seq<Key>
    var byKid: map<string, nat>

    ghost predicate Valid()
      reads this
    {
      UniqueKids(keys) && IndexOf(byKid, keys)
    }

    constructor ()
      ensures Valid() && keys == []
    {
      keys, byKid := [], map[];
    }

    /** NewKeySet: the seeds are added one after the other. */
    constructor Of(seeds: seq<Key>)
      ensures Valid() && keys == AddedAll([], seeds)
    {
      keys, byKid := [], map[];
      new;
      for i := 0 to |seeds|
        invariant Valid() && keys == AddedAll([], seeds[..i])
      {
        AddedAllAppend([], seeds[..i], seeds[i]);
        assert seeds[..i + 1] == seeds[..i] + [seeds[i]];
        Add(seeds[i]);
      }
      assert seeds[..|seeds|] == seeds;
    }

    method Add(k: Key)
      requires Valid()
      modifies this
      ensures Valid() && keys == Added(old(keys), k)
    {
      AddedKeepsUnique(keys, k);
      if k.kid != "" && k.kid in byKid {
        assert byKid[k.kid] == Position(keys, k.kid);
        keys := keys[byKid[k.kid] := k];
        return;
      }
      keys := keys + [k];
      if k.kid != "" {
        byKid := byKid[k.kid := |keys| - 1];
      }
    }

    method Remove(kid: string)
      requires Valid()
      modifies this
      ensures Valid() && keys == Without(old(keys), kid)
    {
      var out: seq<Key> := [];
      for i := 0 to |keys|
        invariant keys == old(keys) && out == Without(keys[..i], kid)
      {
        assert keys[..i + 1] == keys[..i] + [keys[i]];
        WithoutAppend(keys[..i], keys[i], kid);
        if keys[i].kid != kid {
          out := out + [keys[i]];
        }
      }
      assert keys[..|keys|] == keys;
      WithoutKeepsUnique(keys, kid);
      keys := out;
      RebuildIndex();
    }

    method RebuildIndex()
      requires UniqueKids(keys)
      modifies this`byKid
      ensures Valid()
    {
      byKid := map[];
      for i := 0 to |keys|
        invariant IndexOf(byKid, keys[..i])
      {
        IndexOneMore(byKid, keys, i);
        if keys[i].kid != "" {
          byKid := byKid[keys[i].kid := i];
        }
      }
      assert keys[..|keys|] == keys;
    }

    /** The index answers as the scan does; an index entry is never out of range. */
    method Lookup(kid: string) returns (r: Option<Key>)
      requires Valid()
      ensures r == Find(keys, kid)
      ensures forall id :: id in byKid ==> byKid[id] < |keys|
    {
      if kid == "" {
        if |keys| == 1 {
          return Some(keys[0]);
        }
        return None;
      }
      if kid !in byKid {
        assert Position(keys, kid) == |keys|;
        return None;
      }
      var i := byKid[kid];
      if i >= |keys| {
        assert false;
        return None;
      }
      assert i == Position(keys, kid);
      r := Some(keys[i]);
    }
  }

  // ---- The plain map provider ------------------------------------------------------

  function AddedAll(keys: seq<Key>, seeds: seq<Key>): seq<Key>
    decreases |seeds|
  {
    if seeds == [] then keys else AddedAll(Added(keys, seeds[0]), seeds[1..])
  }

  lemma {:induction false} AddedAllAppend(keys: seq<Key>, seeds: seq<Key>, k: Key)
    ensures AddedAll(keys, seeds + [k]) == Added(AddedAll(keys, seeds), k)
    decreases |seeds|
  {
    if seeds == [] {
      assert (seeds + [k])[1..] == [];
    } else {
      assert (seeds + [k])[1..] == seeds[1..] + [k];
      AddedAllAppend(Added(keys, seeds[0]), seeds[1..], k);
    }
  }

  /** NewFakeKeyProvider: a later key with the same kid, empty or not, takes the place of an earlier one. */
  method NewFakeKeyProvider(seeds: seq<Key>) returns (m: map<string, Key>)
    ensures m == FakeKeys(seeds)
  {
    m := map[];
    for i := 0 to |seeds|
      invariant m == FakeKeys(seeds[..i])
    {
      assert seeds[..i + 1][..i] == seeds[..i];
      m := m[seeds[i].kid := seeds[i]];
    }
    assert seeds[..|seeds|] == seeds;
  }

  function FakeKeys(seeds: seq<Key>): map<string, Key> {
    if seeds == [] then map[]
    else
      var k := seeds[|seeds| - 1];
      FakeKeys(seeds[..|seeds| - 1])[k.kid := k]
  }

  /** FakeKeyProvider.Lookup without an injected error; an empty kid finds the sole entry. */
  ghost function FakeFind(m: map<string, Key>, kid: string): Option<Key> {
    if kid == "" then
      if |m| == 1 then
        var id :| id in m;
        Some(m[id])
      else None
    else if kid in m then Some(m[kid]) else None
  }

  /** Both providers hold the same kids and, for each, the key added last. */
  ghost predicate SameContent(keys: seq<Key>, m: map<string, Key>) {
    && UniqueKids(keys)
    && (forall i :: 0 <= i < |keys| ==> keys[i].kid in m && (keys[i].kid != "" ==> m[keys[i].kid] == keys[i]))
    && (forall kid :: kid in m ==> exists i :: 0 <= i < |keys| && keys[i] == m[kid] && keys[i].kid == kid)
  }

  lemma SameContentStep(keys: seq<Key>, m: map<string, Key>, k: Key)
    requires SameContent(keys, m)
    ensures SameContent(Added(keys, k), m[k.kid := k])
  {
    AddedKeepsUnique(keys, k);
    KeysInMap(keys, m, k);
    MapInKeys(keys, m, k);
  }

  /** Where the added key stands. */
  function PlaceOf(keys: seq<Key>, k: Key): (p: nat)
    ensures p < |Added(keys, k)| && Added(keys, k)[p] == k
    ensures forall i :: 0 <= i < |Added(keys, k)| && i != p ==> i < |keys| && Added(keys, k)[i] == keys[i]
    ensures forall i :: 0 <= i < |keys| && i != p ==> Added(keys, k)[i] == keys[i]
    ensures p < |keys| ==> k.kid != "" && keys[p].kid == k.kid
  {
    if k.kid != "" && Position(keys, k.kid) < |keys| then Position(keys, k.kid) else |keys|
  }

  lemma KeysInMap(keys: seq<Key>, m: map<string, Key>, k: Key)
    requires SameContent(keys, m) && UniqueKids(Added(keys, k))
    ensures
      var r, m' := Added(keys, k), m[k.kid := k];
      forall i :: 0 <= i < |r| ==> r[i].kid in m' && (r[i].kid != "" ==> m'[r[i].kid] == r[i])
  {
    var r, m', p := Added(keys, k), m[k.kid := k], PlaceOf(keys, k);
    forall i | 0 <= i < |r|
      ensures r[i].kid in m' && (r[i].kid != "" ==> m'[r[i].kid] == r[i])
    {
      if i != p {
        assert r[i] == keys[i];
      }
    }
  }

  lemma MapInKeys(keys: seq<Key>, m: map<string, Key>, k: Key)
    requires SameContent(keys, m)
    ensures
      var r, m' := Added(keys, k), m[k.kid := k];
      forall kid :: kid in m' ==> exists i :: 0 <= i < |r| && r[i] == m'[kid] && r[i].kid == kid
  {
    var r, m', p := Added(keys, k), m[k.kid := k], PlaceOf(keys, k);
    forall kid | kid in m'
      ensures exists i :: 0 <= i < |r| && r[i] == m'[kid] && r[i].kid == kid
    {
      if kid == k.kid {
        assert r[p] == k;
      } else {
        var i :| 0 <= i < |keys| && keys[i] == m[kid] && keys[i].kid == kid;
        assert r[i] == keys[i];
      }
    }
  }

  lemma {:induction false} SameContentAll(seeds: seq<Key>)
    ensures SameContent(AddedAll([], seeds), FakeKeys(seeds))
  {
    if seeds != [] {
      var init, k := seeds[..|seeds| - 1], seeds[|seeds| - 1];
      SameContentAll(init);
      assert seeds == init + [k];
      AddedAllAppend([], init, k);
      SameContentStep(AddedAll([], init), FakeKeys(init), k);
    }
  }

  lemma SameByKid(keys: seq<Key>, m: map<string, Key>, kid: string)
    requires SameContent(keys, m) && kid != ""
    ensures Find(keys, kid) == FakeFind(m, kid)
  {
    if kid in m {
      var i :| 0 <= i < |keys| && keys[i] == m[kid] && keys[i].kid == kid;
      assert Position(keys, kid) == i;
    }
  }

  /** For an empty kid they differ exactly when several keys are held and none has a kid. */
  lemma SameWithoutKid(keys: seq<Key>, m: map<string, Key>)
    requires SameContent(keys, m)
    ensures Find(keys, "") == FakeFind(m, "") <==> |keys| < 2 || exists i :: 0 <= i < |keys| && keys[i].kid != ""
  {
    if |keys| == 0 {
      assert m == map[];
    } else if |keys| == 1 {
      assert m.Keys == {keys[0].kid};
      assert |m| == |m.Keys| == 1;
      assert m[keys[0].kid] == keys[0];
    } else if i :| 0 <= i < |keys| && keys[i].kid != "" {
      var j := if i == 0 then 1 else 0;
      assert keys[i].kid != keys[j].kid;
      assert m.Keys - {keys[i].kid} >= {keys[j].kid};
      assert {keys[i].kid, keys[j].kid} <= m.Keys;
      if |m| == 1 {
        SingleKey(m.Keys, keys[i].kid, keys[j].kid);
      }
    } else {
      assert m.Keys == {""} by {
        assert keys[0].kid in m;
      }
      assert |m| == |m.Keys| == 1;
    }
  }

  lemma SingleKey(s: set<string>, a: string, b: string)
    requires |s| == 1 && a in s && b in s
    ensures a == b
  {
    assert |s - {a}| == 0;
  }

  lemma {:induction false} NoMoreThanGiven(seeds: seq<Key>)
    ensures |AddedAll([], seeds)| <= |seeds|
  {
    if seeds != [] {
      var init, k := seeds[..|seeds| - 1], seeds[|seeds| - 1];
      NoMoreThanGiven(init);
      assert seeds == init + [k];
      AddedAllAppend([], init, k);
    }
  }

  predicate HasKid(keys: seq<Key>) {
    exists i :: 0 <= i < |keys| && keys[i].kid != ""
  }

  lemma HasKidAfterAdd(keys: seq<Key>, k: Key)
    ensures HasKid(Added(keys, k)) <==> HasKid(keys) || k.kid != ""
  {
    var r, p := Added(keys, k), Position(keys, k.kid);
    if k.kid != "" {
      assert r[if p < |keys| then p else |keys|] == k;
    } else {
      assert r == keys + [k];
      if HasKid(keys) {
        var i :| 0 <= i < |keys| && keys[i].kid != "";
        assert r[i].kid != "";
      }
    }
  }

  lemma HasKidAppend(keys: seq<Key>, k: Key)
    ensures HasKid(keys + [k]) <==> HasKid(keys) || k.kid != ""
  {
    var r := keys + [k];
    assert r[|keys|] == k;
    assert forall i :: 0 <= i < |keys| ==> r[i] == keys[i];
  }

  /** Some key was given with a kid exactly when some key kept has one; otherwise all are kept. */
  lemma {:induction false} KidsKept(seeds: seq<Key>)
    ensures HasKid(seeds) <==> HasKid(AddedAll([], seeds))
    ensures !HasKid(seeds) ==> AddedAll([], seeds) == seeds
  {
    if seeds != [] {
      var init, k := seeds[..|seeds| - 1], seeds[|seeds| - 1];
      KidsKept(init);
      assert seeds == init + [k];
      AddedAllAppend([], init, k);
      HasKidAppend(init, k);
      HasKidAfterAdd(AddedAll([], init), k);
    }
  }

  /**
   A new key set and the plain map provider answer every Lookup alike exactly when they are
   given at most one key or some key with a kid; in particular when every key has one.
   */
  lemma KeySetAnswersLikeMap(seeds: seq<Key>)
    ensures (forall kid :: Find(AddedAll([], seeds), kid) == FakeFind(FakeKeys(seeds), kid)) <==>
            |seeds| < 2 || exists i :: 0 <= i < |seeds| && seeds[i].kid != ""
  {
    var keys, m := AddedAll([], seeds), FakeKeys(seeds);
    SameContentAll(seeds);
    SameWithoutKid(keys, m);
    KidsKept(seeds);
    NoMoreThanGiven(seeds);
    assert HasKid(seeds) <==> exists i :: 0 <= i < |seeds| && seeds[i].kid != "";
    assert HasKid(keys) <==> exists i :: 0 <= i < |keys| && keys[i].kid != "";
    forall kid | kid != ""
      ensures Find(keys, kid) == FakeFind(m, kid)
    {
      SameByKid(keys, m, kid);
    }
    assert (forall kid :: Find(keys, kid) == FakeFind(m, kid)) <==> Find(keys, "") == FakeFind(m, "");
  }
}
