/** JWK Set documents (section 5 of RFC 7517): a served set, and the strict and permissive readers. */
module KeySetDocuments {
  import opened Wrappers
  import opened Bytes
  import opened Keys
  import opened KeySets
  import opened JsonTrees
  import opened KeyJson
  import AlgorithmBinding

  const MAX_KEYS: nat := 128
  /** The encoded length of 8 KiB of octets. */
  const MAX_MATERIAL: nat := (8 * 1024 * 8 + 5) / 6

  /** Whether the texts of the document and of one member are within their size limits. */
  datatype Limits = Limits(document: Json -> bool, member: Json -> bool)

  type OnCurve = AlgorithmBinding.OnCurve

  /** Whether PublicKey succeeds. */
  predicate HasPublicKey(onCurve: OnCurve, k: Key) {
    if k.kty == RSA then
      && k.n != [] && k.e != [] && k.n[0] != 0 && k.e[0] != 0
      && BitLen(ToNat(k.n)) <= MAX_RSA_KEY_BITS && ToNat(k.n) % 2 == 1
      && 3 <= ToNat(k.e) <= 0x7FFF_FFFF && ToNat(k.e) % 2 == 1
    else if k.kty == EC then
      CurveSize(k.crv).Some? && |k.x| == CurveSize(k.crv).value && |k.y| == CurveSize(k.crv).value && onCurve(k.crv, k.x, k.y)
    else k.kty == OKP && k.crv == ED25519_CURVE && |k.x| == 32
  }

  predicate Understood(k: Key) {
    || k.kty == RSA || k.kty == OCT
    || (k.kty == EC && CurveSize(k.crv).Some?)
    || (k.kty == OKP && k.crv == ED25519_CURVE)
  }

  /** validateRepresentation: what is not understood is let through. */
  predicate Represented(onCurve: OnCurve, k: Key) {
    Canonical(k) && (Understood(k) ==> if k.kty == OCT then k.k != [] else HasPublicKey(onCurve, k))
  }

  const MATERIAL := ["n", "e", "x", "y", "k"]

  predicate Bounded(m: map<string, Json>) {
    forall i :: 0 <= i < |MATERIAL| ==>
      StringMember(m, MATERIAL[i]).Some? && |StringMember(m, MATERIAL[i]).value| <= MAX_MATERIAL
  }

  /** parseBoundedJWK. */
  function ParsedJwk(limits: Limits, onCurve: OnCurve, j: Json): Option<Key> {
    if !limits.member(j) || !j.JObject? || !Bounded(j.members) then None
    else
      match KeyFrom(j.members)
      case None => None
      case Some(k) => if k.kty == "" || !Represented(onCurve, k) then None else Some(k)
  }

  type MemberParser = Json -> Option<Key>

  function JwkParser(limits: Limits, onCurve: OnCurve): MemberParser {
    j => ParsedJwk(limits, onCurve, j)
  }

  /** A reader takes up what it can parse; a permissive one only if it understands it. */
  predicate IsTaken(parse: MemberParser, permissive: bool, j: Json) {
    parse(j).Some? && (permissive ==> Understood(parse(j).value))
  }

  /** The keys a reader takes up, in document order. */
  function Taken(parse: MemberParser, permissive: bool, items: seq<Json>): seq<Key> {
    if items == [] then []
    else
      var last := items[|items| - 1];
      Taken(parse, permissive, items[..|items| - 1]) + if IsTaken(parse, permissive, last) then [parse(last).value] else []
  }

  /** The set built from them. */
  function Built(parse: MemberParser, permissive: bool, items: seq<Json>): seq<Key> {
    AddedAll([], Taken(parse, permissive, items))
  }

  /** The positions a reader reports. */
  function Ignored(parse: MemberParser, permissive: bool, items: seq<Json>): set<nat> {
    set i: nat | i < |items| && !IsTaken(parse, permissive, items[i])
  }

  predicate AllParse(parse: MemberParser, items: seq<Json>) {
    forall i :: 0 <= i < |items| ==> parse(items[i]).Some?
  }

  /** The strict reader stops at the first member it cannot parse. */
  function Collected(parse: MemberParser, permissive: bool, items: seq<Json>): Option<(seq<Key>, set<nat>)> {
    if !permissive && !AllParse(parse, items) then None
    else Some((Built(parse, permissive, items), Ignored(parse, permissive, items)))
  }

  /** The items of a document that passes the checks on the whole. */
  function Items(limits: Limits, doc: Json): Option<seq<Json>> {
    if !limits.document(doc) || !doc.JObject? || At(doc.members, "keys").None? || !doc.members["keys"].JArray? then None
    else
      var items := doc.members["keys"].items;
      if |items| > MAX_KEYS then None else Some(items)
  }

  /** What parseKeySet returns: the set's keys, and the positions ignored. */
  function ParsedSet(limits: Limits, onCurve: OnCurve, permissive: bool, doc: Json): Option<(seq<Key>, set<nat>)> {
    match Items(limits, doc)
    case None => None
    case Some(items) => Collected(JwkParser(limits, onCurve), permissive, items)
  }

  lemma OneMoreItem(parse: MemberParser, permissive: bool, items: seq<Json>, i: nat)
    requires i < |items|
    ensures
      var before, j := Built(parse, permissive, items[..i]), items[i];
      Built(parse, permissive, items[..i + 1]) ==
        if IsTaken(parse, permissive, j) then Added(before, parse(j).value) else before
    ensures Ignored(parse, permissive, items[..i + 1]) ==
      Ignored(parse, permissive, items[..i]) + if IsTaken(parse, permissive, items[i]) then {} else {i}
  {
    var init, more := items[..i], items[..i + 1];
    assert more[..i] == init && more[i] == items[i];
    if IsTaken(parse, permissive, items[i]) {
      assert Taken(parse, permissive, more) == Taken(parse, permissive, init) + [parse(items[i]).value];
      AddedAllAppend([], Taken(parse, permissive, init), parse(items[i]).value);
    } else {
      assert Taken(parse, permissive, more) == Taken(parse, permissive, init);
    }
  }

  /** What the loop has built after `i` members. */
  ghost predicate CollectedTo(
    parse: MemberParser, permissive: bool, items: seq<Json>, i: nat, keys: seq<Key>, diagnostics: set<nat>)
    requires i <= |items|
  {
    && keys == Built(parse, permissive, items[..i]) && diagnostics == Ignored(parse, permissive, items[..i])
    && (!permissive ==> AllParse(parse, items[..i]))
  }

  lemma OneMoreCollected(
    parse: MemberParser, permissive: bool, items: seq<Json>, i: nat, keys: seq<Key>, diagnostics: set<nat>)
    requires i < |items| && CollectedTo(parse, permissive, items, i, keys, diagnostics)
    ensures !permissive && parse(items[i]).None? ==> Collected(parse, permissive, items) == None
    ensures permissive && (parse(items[i]).None? || !Understood(parse(items[i]).value)) ==>
      CollectedTo(parse, permissive, items, i + 1, keys, diagnostics + {i})
    ensures parse(items[i]).Some? && (permissive ==> Understood(parse(items[i]).value)) ==>
      CollectedTo(parse, permissive, items, i + 1, Added(keys, parse(items[i]).value), diagnostics)
  {
    OneMoreItem(parse, permissive, items, i);
    assert forall j :: 0 <= j <= i ==> items[..i + 1][j] == items[j];
    assert forall j :: 0 <= j < i ==> items[..i][j] == items[j];
  }

  lemma AllCollectedTo(parse: MemberParser, permissive: bool, items: seq<Json>, keys: seq<Key>, diagnostics: set<nat>)
    requires CollectedTo(parse, permissive, items, |items|, keys, diagnostics)
    ensures Collected(parse, permissive, items) == Some((keys, diagnostics))
  {
    assert items[..|items|] == items;
  }

  /** The loop of parseKeySet over the members. */
  method CollectKeys(parse: MemberParser, permissive: bool, items: seq<Json>) returns (r: Option<KeySet>, diagnostics: set<nat>)
    ensures match Collected(parse, permissive, items)
            case None => r == None
            case Some((keys, ignored)) => r.Some? && fresh(r.value) && r.value.Valid() && r.value.keys == keys && diagnostics == ignored
  {
    var s := new KeySet();
    diagnostics := {};
    for i := 0 to |items|
      invariant fresh(s) && s.Valid()
      invariant CollectedTo(parse, permissive, items, i, s.keys, diagnostics)
    {
      OneMoreCollected(parse, permissive, items, i, s.keys, diagnostics);
      var k := parse(items[i]);
      if k.None? {
        if !permissive {
          return None, diagnostics;
        }
        diagnostics := diagnostics + {i};
        continue;
      }
      if permissive && !Understood(k.value) {
        diagnostics := diagnostics + {i};
        continue;
      }
      s.Add(k.value);
    }
    AllCollectedTo(parse, permissive, items, s.keys, diagnostics);
    r := Some(s);
  }

  method ParseKeySet(limits: Limits, onCurve: OnCurve, permissive: bool, doc: Json)
    returns (r: Option<KeySet>, diagnostics: set<nat>)
    ensures match ParsedSet(limits, onCurve, permissive, doc)
            case None => r == None
            case Some((keys, ignored)) => r.Some? && fresh(r.value) && r.value.Valid() && r.value.keys == keys && diagnostics == ignored
  {
    var items := Items(limits, doc);
    if items.None? {
      return None, {};
    }
    r, diagnostics := CollectKeys(JwkParser(limits, onCurve), permissive, items.value);
  }

  // ---- Properties ------------------------------------------------------------------

  lemma {:induction false} SameTaken(parse: MemberParser, items: seq<Json>)
    requires forall i :: 0 <= i < |items| ==> IsTaken(parse, true, items[i])
    ensures Taken(parse, true, items) == Taken(parse, false, items)
  {
    if items != [] {
      SameTaken(parse, items[..|items| - 1]);
      assert IsTaken(parse, true, items[|items| - 1]);
    }
  }

  lemma NothingIgnored(parse: MemberParser, items: seq<Json>)
    requires AllParse(parse, items)
    ensures Ignored(parse, false, items) == {}
  {
    forall i | 0 <= i < |items|
      ensures IsTaken(parse, false, items[i])
    {
      assert parse(items[i]).Some?;
    }
  }

  /**
   The permissive reader reports nothing exactly when the strict one accepts the members and
   every key among them is understood; then both build the same set.
   */
  lemma ReadersAgreeWithoutDiagnostics(parse: MemberParser, items: seq<Json>)
    ensures
      var permissive, strict := Collected(parse, true, items).value, Collected(parse, false, items);
      && (permissive.1 == {} <==>
            strict.Some? && forall i :: 0 <= i < |items| ==> Understood(parse(items[i]).value))
      && (permissive.1 == {} ==> strict == Some(permissive))
      && (strict.Some? ==> strict.value.1 == {})
  {
    var ignored := Ignored(parse, true, items);
    if ignored == {} {
      forall i | 0 <= i < |items|
        ensures IsTaken(parse, true, items[i])
      {
        assert i !in ignored;
      }
      SameTaken(parse, items);
    }
    if AllParse(parse, items) {
      NothingIgnored(parse, items);
    }
  }

  /** MarshalJSON of a set. */
  function Served(keys: seq<Key>): Option<Json> {
    if exists i :: 0 <= i < |keys| && KeyMembers(keys[i]).None? then None
    else Some(JObject(map["keys" := JArray(seq(|keys|, i requires 0 <= i < |keys| && KeyMembers(keys[i]).Some? =>
      JObject(KeyMembers(keys[i]).value)))]))
  }

  /** A key that can be served and read again. */
  ghost predicate Servable(limits: Limits, onCurve: OnCurve, k: Key) {
    && k.kty != OCT && k.kty != "" && k.k == [] && Represented(onCurve, k)
    && limits.member(JObject(KeyMembers(k).value)) && Bounded(KeyMembers(k).value)
  }

  lemma ServableReadsBack(limits: Limits, onCurve: OnCurve, k: Key)
    requires k.kty != OCT
    ensures ParsedJwk(limits, onCurve, JObject(KeyMembers(k).value)) == Some(k) <==> Servable(limits, onCurve, k)
  {
    KeyRoundTrip(k);
  }

  lemma {:induction false} AllTaken(parse: MemberParser, items: seq<Json>, keys: seq<Key>)
    requires |items| == |keys|
    requires forall i :: 0 <= i < |keys| ==> parse(items[i]) == Some(keys[i])
    ensures Taken(parse, false, items) == keys
  {
    if keys != [] {
      AllTaken(parse, items[..|items| - 1], keys[..|keys| - 1]);
    }
  }

  /** Keys with distinct kids are added as they are. */
  lemma {:induction false} AddedAsTheyAre(keys: seq<Key>)
    requires UniqueKids(keys)
    ensures AddedAll([], keys) == keys
  {
    if keys != [] {
      var init, k := keys[..|keys| - 1], keys[|keys| - 1];
      assert keys == init + [k];
      AddedAsTheyAre(init);
      AddedAllAppend([], init, k);
      var p := Position(init, k.kid);
      if p < |init| {
        assert init[p] == keys[p];
      }
    }
  }

  lemma AllCollected(parse: MemberParser, items: seq<Json>, keys: seq<Key>)
    requires UniqueKids(keys) && |items| == |keys|
    requires forall i :: 0 <= i < |keys| ==> parse(items[i]) == Some(keys[i])
    ensures Collected(parse, false, items) == Some((keys, {}))
  {
    AllTaken(parse, items, keys);
    AddedAsTheyAre(keys);
    NothingIgnored(parse, items);
  }

  lemma ServedItems(limits: Limits, keys: seq<Key>)
    requires |keys| <= MAX_KEYS && forall i :: 0 <= i < |keys| ==> KeyMembers(keys[i]).Some?
    ensures Served(keys).Some?
    ensures limits.document(Served(keys).value) ==>
      && Items(limits, Served(keys).value).Some?
      && var items := Items(limits, Served(keys).value).value;
      && |items| == |keys|
      && forall i :: 0 <= i < |keys| ==> items[i] == JObject(KeyMembers(keys[i]).value)
  {
  }

  /** A served set reads back as itself, in order, when each of its keys is servable. */
  lemma ServedSetReadsBack(limits: Limits, onCurve: OnCurve, keys: seq<Key>)
    requires UniqueKids(keys) && |keys| <= MAX_KEYS
    requires forall i :: 0 <= i < |keys| ==> Servable(limits, onCurve, keys[i])
    ensures Served(keys).Some?
    ensures limits.document(Served(keys).value) ==>
      ParsedSet(limits, onCurve, false, Served(keys).value) == Some((keys, {}))
  {
    ServedItems(limits, keys);
    if limits.document(Served(keys).value) {
      var items := Items(limits, Served(keys).value).value;
      var parse := JwkParser(limits, onCurve);
      forall i | 0 <= i < |keys|
        ensures parse(items[i]) == Some(keys[i])
      {
        ServableReadsBack(limits, onCurve, keys[i]);
      }
      AllCollected(parse, items, keys);
    }
  }

  // ---- Thumbprints of parsed keys --------------------------------------------------

  /** A parsed key that is understood is complete and canonical. */
  lemma ParsedIsSupported(limits: Limits, onCurve: OnCurve, j: Json)
    requires ParsedJwk(limits, onCurve, j).Some? && Understood(ParsedJwk(limits, onCurve, j).value)
    ensures Supported(ParsedJwk(limits, onCurve, j).value)
  {
  }

  lemma {:induction false} TakenIsSupported(limits: Limits, onCurve: OnCurve, items: seq<Json>)
    ensures forall k :: k in Taken(JwkParser(limits, onCurve), true, items) ==> Supported(k)
  {
    if items != [] {
      var last := items[|items| - 1];
      TakenIsSupported(limits, onCurve, items[..|items| - 1]);
      if IsTaken(JwkParser(limits, onCurve), true, last) {
        ParsedIsSupported(limits, onCurve, last);
      }
    }
  }

  lemma {:induction false} AddedAllMembers(keys: seq<Key>, seeds: seq<Key>)
    ensures forall k :: k in AddedAll(keys, seeds) ==> k in keys || k in seeds
    decreases |seeds|
  {
    if seeds != [] {
      AddedAllMembers(Added(keys, seeds[0]), seeds[1..]);
    }
  }

  /**
   Keys of any two documents read permissively have the same thumbprint text exactly when they
   are the same key: no document can spell a key in a second way.
   */
  lemma ReadThumbprintsNameKeys(limits: Limits, onCurve: OnCurve, doc: Json, doc': Json, k: Key, l: Key)
    requires ParsedSet(limits, onCurve, true, doc).Some? && k in ParsedSet(limits, onCurve, true, doc).value.0
    requires ParsedSet(limits, onCurve, true, doc').Some? && l in ParsedSet(limits, onCurve, true, doc').value.0
    ensures Supported(k) && Supported(l)
    ensures ThumbprintInput(k) == ThumbprintInput(l) <==> MaterialOf(k) == MaterialOf(l)
  {
    ReadIsSupported(limits, onCurve, doc, k);
    ReadIsSupported(limits, onCurve, doc', l);
    ThumbprintNamesTheMaterial(k, l);
  }

  lemma ReadIsSupported(limits: Limits, onCurve: OnCurve, doc: Json, k: Key)
    requires ParsedSet(limits, onCurve, true, doc).Some? && k in ParsedSet(limits, onCurve, true, doc).value.0
    ensures Supported(k)
  {
    var items := Items(limits, doc).value;
    var parse := JwkParser(limits, onCurve);
    AddedAllMembers([], Taken(parse, true, items));
    TakenIsSupported(limits, onCurve, items);
  }
}
