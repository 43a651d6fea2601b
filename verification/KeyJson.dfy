/** Keys to and from their JSON members (section 4 of RFC 7517). */
module KeyJson {
  import opened Wrappers
  import opened Bytes
  import opened Keys
  import opened JsonTrees
  import B64

  function OmitEmptyList(ops: seq<string>): Option<Json> {
    if ops == [] then None else Some(JArray(seq(|ops|, i requires 0 <= i < |ops| => JString(ops[i]))))
  }

  const NAMES := {"kty", "kid", "use", "key_ops", "alg", "crv", "n", "e", "x", "y"}

  /** The member of each name. A symmetric key's secret has none. */
  function MemberOf(k: Key, name: string): Option<Json> {
    if name == "kty" then Some(JString(k.kty))
    else if name == "kid" then OmitEmpty(k.kid)
    else if name == "use" then OmitEmpty(k.use)
    else if name == "key_ops" then OmitEmptyList(k.keyOps)
    else if name == "alg" then OmitEmpty(k.alg)
    else if name == "crv" then OmitEmpty(k.crv)
    else if name == "n" then OmitEmpty(B64.Encode(k.n))
    else if name == "e" then OmitEmpty(B64.Encode(k.e))
    else if name == "x" then OmitEmpty(B64.Encode(k.x))
    else if name == "y" then OmitEmpty(B64.Encode(k.y))
    else None
  }

  /** MarshalJSON: a symmetric key is refused, so the secret member "k" is never written. */
  function KeyMembers(k: Key): Option<map<string, Json>> {
    if k.kty == OCT then None else Some(Written(NAMES, name => MemberOf(k, name)))
  }

  /** An absent or empty member is no octets; anything else must be canonical base64url. */
  function OctetsMember(m: map<string, Json>, name: string): Option<seq<byte>> {
    match StringMember(m, name)
    case None => None
    case Some(s) => if s == "" then Some([]) else B64.Decode(s)
  }

  function ListMember(m: map<string, Json>, name: string): Option<seq<string>> {
    match At(m, name)
    case None => Some([])
    case Some(JNull) => Some([])
    case Some(JArray(items)) =>
      if exists i :: 0 <= i < |items| && StringOf(items[i]).None? then None
      else Some(seq(|items|, i requires 0 <= i < |items| && StringOf(items[i]).Some? => StringOf(items[i]).value))
    case _ => None
  }

  /** UnmarshalJSON: every member decodes and the key is canonical. */
  function KeyFrom(m: map<string, Json>): Option<Key> {
    var kty, kid, use, keyOps := StringMember(m, "kty"), StringMember(m, "kid"), StringMember(m, "use"), ListMember(m, "key_ops");
    var alg, crv := StringMember(m, "alg"), StringMember(m, "crv");
    var n, e, x, y, k := OctetsMember(m, "n"), OctetsMember(m, "e"), OctetsMember(m, "x"), OctetsMember(m, "y"), OctetsMember(m, "k");
    if kty.None? || kid.None? || use.None? || keyOps.None? || alg.None? || crv.None? then None
    else if n.None? || e.None? || x.None? || y.None? || k.None? then None
    else
      var key := Key(kty.value, kid.value, use.value, keyOps.value, alg.value, n.value, e.value, crv.value, x.value, y.value, k.value);
      if Canonical(key) then Some(key) else None
  }

  lemma OctetsRoundTrip(m: map<string, Json>, name: string, b: seq<byte>)
    requires At(m, name) == OmitEmpty(B64.Encode(b))
    ensures OctetsMember(m, name) == Some(b)
  {
    B64.SextetCount(b);
    B64.DecodeIsExactlyInverse(B64.Encode(b), b);
  }

  lemma ListRoundTrip(m: map<string, Json>, name: string, ops: seq<string>)
    requires At(m, name) == OmitEmptyList(ops)
    ensures ListMember(m, name) == Some(ops)
  {
    if ops != [] {
      var items := m[name].items;
      assert forall i :: 0 <= i < |items| ==> StringOf(items[i]) == Some(ops[i]);
      assert seq(|items|, i requires 0 <= i < |items| && StringOf(items[i]).Some? => StringOf(items[i]).value) == ops;
    }
  }

  lemma TypeAndUseReadBack(k: Key)
    requires k.kty != OCT
    ensures
      var m := KeyMembers(k).value;
      && StringMember(m, "kty") == Some(k.kty) && StringMember(m, "kid") == Some(k.kid)
      && StringMember(m, "use") == Some(k.use)
  {
  }

  lemma AlgAndCurveReadBack(k: Key)
    requires k.kty != OCT
    ensures
      var m := KeyMembers(k).value;
      && StringMember(m, "alg") == Some(k.alg) && StringMember(m, "crv") == Some(k.crv)
      && ListMember(m, "key_ops") == Some(k.keyOps)
  {
    ListRoundTrip(KeyMembers(k).value, "key_ops", k.keyOps);
  }

  lemma RsaOctetsReadBack(k: Key)
    requires k.kty != OCT
    ensures
      var m := KeyMembers(k).value;
      OctetsMember(m, "n") == Some(k.n) && OctetsMember(m, "e") == Some(k.e)
  {
    OctetsRoundTrip(KeyMembers(k).value, "n", k.n);
    OctetsRoundTrip(KeyMembers(k).value, "e", k.e);
  }

  lemma PointOctetsReadBack(k: Key)
    requires k.kty != OCT
    ensures
      var m := KeyMembers(k).value;
      && OctetsMember(m, "x") == Some(k.x) && OctetsMember(m, "y") == Some(k.y)
      && OctetsMember(m, "k") == Some([])
  {
    OctetsRoundTrip(KeyMembers(k).value, "x", k.x);
    OctetsRoundTrip(KeyMembers(k).value, "y", k.y);
    assert At(KeyMembers(k).value, "k") == None;
  }

  /**
   A key that marshals reads back as itself exactly when it is canonical and carries no secret
   octets of its own: those are never written.
   */
  lemma KeyRoundTrip(k: Key)
    requires KeyMembers(k).Some?
    ensures KeyFrom(KeyMembers(k).value) == Some(k) <==> Canonical(k) && k.k == []
  {
    TypeAndUseReadBack(k);
    AlgAndCurveReadBack(k);
    RsaOctetsReadBack(k);
    PointOctetsReadBack(k);
    assert k.k == [] ==> k == k.(k := []);
  }

  /** A list member takes an array of strings; null and absence are the empty list. */
  lemma ListExactly(m: map<string, Json>, name: string, ops: seq<string>)
    ensures ListMember(m, name) == Some(ops) <==>
      if name !in m || m[name] == JNull then ops == []
      else
        && m[name].JArray? && |m[name].items| == |ops|
        && forall i :: 0 <= i < |ops| ==> StringOf(m[name].items[i]) == Some(ops[i])
  {
    if name in m && m[name].JArray? && forall i :: 0 <= i < |m[name].items| ==> StringOf(m[name].items[i]).Some? {
      var items := m[name].items;
      var read := seq(|items|, i requires 0 <= i < |items| && StringOf(items[i]).Some? => StringOf(items[i]).value);
      if |items| == |ops| && forall i :: 0 <= i < |ops| ==> StringOf(items[i]) == Some(ops[i]) {
        assert read == ops;
      }
    }
  }
}
