/**
 What a thumbprint text says (sections 3.1 to 3.3 of RFC 7638): the required members of the key's
 type, in lexicographic order, each with the value the key's JSON gives it.
 */
module Thumbprints {
  import opened Wrappers
  import opened Bytes
  import opened Strings
  import opened Keys
  import opened KeyJson
  import opened JsonTrees
  import B64

  /** Lexicographic order of texts. */
  predicate Before(s: string, t: string) {
    t != "" && (s == "" || s[0] < t[0] || (s[0] == t[0] && Before(s[1..], t[1..])))
  }

  /** Section 3.2 of RFC 7638 and section 2 of RFC 8037. */
  function RequiredNames(kty: string): seq<string> {
    if kty == "RSA" then ["e", "kty", "n"]
    else if kty == "EC" then ["crv", "kty", "x", "y"]
    else if kty == "OKP" then ["crv", "kty", "x"]
    else if kty == "oct" then ["k", "kty"]
    else []
  }

  lemma NamesAreSorted(kty: string)
    ensures
      var names := RequiredNames(kty);
      forall i :: 0 <= i < |names| - 1 ==> Before(names[i], names[i + 1])
  {
    assert Before("e", "kty") && Before("kty", "n") && Before("kty", "x") && Before("x", "y");
    CrvBeforeKty();
    KBeforeKty();
  }

  lemma CrvBeforeKty()
    ensures Before("crv", "kty")
  {
  }

  lemma KBeforeKty()
    ensures Before("k", "kty")
  {
    assert "k"[1..] == "" && "kty"[1..] == "ty";
  }

  /** The members are the required ones of the type, in that order. */
  lemma MembersAreTheRequired(k: Key)
    requires Supported(k)
    ensures RequiredMembers(k).Some?
    ensures
      var ms, names := RequiredMembers(k).value, RequiredNames(k.kty);
      |ms| == |names| && forall i :: 0 <= i < |ms| ==> ms[i].0 == names[i]
  {
  }

  lemma MemberWritten(k: Key, name: string)
    requires k.kty != OCT && name in KeyJson.NAMES && KeyJson.MemberOf(k, name).Some?
    ensures KeyMembers(k).Some? && name in KeyMembers(k).value && KeyMembers(k).value[name] == KeyJson.MemberOf(k, name).value
  {
    assert At(KeyMembers(k).value, name) == KeyJson.MemberOf(k, name);
  }

  lemma NotEmpty(b: seq<byte>)
    requires b != []
    ensures B64.Encode(b) != ""
  {
    B64.SextetCount(b);
  }

  lemma NamesWritten()
    ensures forall name :: name in ["e", "kty", "n", "crv", "x", "y"] ==> name in KeyJson.NAMES
  {
  }

  lemma RsaMemberValue(k: Key, m: (string, string))
    requires Supported(k) && k.kty == RSA && m in RequiredMembers(k).value
    ensures m.0 in KeyJson.NAMES && KeyJson.MemberOf(k, m.0) == Some(JString(m.1))
  {
    NamesWritten();
    NotEmpty(k.n);
    NotEmpty(k.e);
  }

  lemma EcMemberValue(k: Key, m: (string, string))
    requires Supported(k) && k.kty == EC && m in RequiredMembers(k).value
    ensures m.0 in KeyJson.NAMES && KeyJson.MemberOf(k, m.0) == Some(JString(m.1))
  {
    NamesWritten();
    NotEmpty(k.x);
    NotEmpty(k.y);
  }

  lemma OkpMemberValue(k: Key, m: (string, string))
    requires Supported(k) && k.kty == OKP && m in RequiredMembers(k).value
    ensures m.0 in KeyJson.NAMES && KeyJson.MemberOf(k, m.0) == Some(JString(m.1))
  {
    NamesWritten();
    NotEmpty(k.x);
  }

  /** Each required member has the value under its name in the key's JSON; a secret is base64url. */
  lemma ValuesAreTheKeysOwn(k: Key)
    requires Supported(k)
    ensures RequiredMembers(k).Some?
    ensures k.kty != OCT ==> KeyMembers(k).Some? && forall m :: m in RequiredMembers(k).value ==>
      m.0 in KeyMembers(k).value && KeyMembers(k).value[m.0] == JString(m.1)
    ensures k.kty == OCT ==> RequiredMembers(k).value == [("k", B64.Encode(k.k)), ("kty", "oct")]
  {
    if k.kty != OCT {
      forall m | m in RequiredMembers(k).value
        ensures m.0 in KeyMembers(k).value && KeyMembers(k).value[m.0] == JString(m.1)
      {
        if k.kty == RSA {
          RsaMemberValue(k, m);
        } else if k.kty == EC {
          EcMemberValue(k, m);
        } else {
          OkpMemberValue(k, m);
        }
        MemberWritten(k, m.0);
      }
    }
  }

  /** The text of members that need no escaping: quoted, separated by commas, in braces. */
  function ObjectText(ms: seq<(string, string)>): string {
    if ms == [] then "" else "\"" + ms[0].0 + "\":\"" + ms[0].1 + "\"" + (if |ms| == 1 then "" else "," + ObjectText(ms[1..]))
  }

  function TextOfObject(ms: seq<(string, string)>): string {
    "{" + (ObjectText(ms) + "}")
  }

  lemma {:induction false} PlainMembersText(ms: seq<(string, string)>)
    requires ms != [] && PlainMembers(ms)
    ensures MembersText(ms) == ObjectText(ms) + "}"
    decreases |ms|
  {
    PlainEscape(ms[0].0);
    PlainEscape(ms[0].1);
    if |ms| > 1 {
      PlainMembersText(ms[1..]);
      Regroup(Member(ms[0]), ",", ObjectText(ms[1..]), "}");
    }
  }

  lemma Regroup(a: string, b: string, c: string, d: string)
    ensures a + (b + (c + d)) == (a + (b + c)) + d
  {
  }

  /** The text is one object of the required members, without white space. */
  lemma TextIsTheObject(k: Key)
    requires Supported(k)
    ensures RequiredMembers(k).Some? && ThumbprintInput(k) == Some(TextOfObject(RequiredMembers(k).value))
  {
    SupportedMembers(k);
    PlainMembersText(RequiredMembers(k).value);
  }

  // ---- Thumbprints of raw material -------------------------------------------------

  /** ThumbprintBytes before the digest. */
  function BytesInput(kty: string, raw: seq<byte>): Option<string> {
    if raw == [] then None
    else if kty == "oct" then Some(TextOfObject([("k", B64.Encode(raw)), ("kty", "oct")]))
    else if kty == "OKP" then
      if |raw| != 32 then None else Some(TextOfObject([("crv", "Ed25519"), ("kty", "OKP"), ("x", B64.Encode(raw))]))
    else None
  }

  /** FromHMACSecret and FromEd25519PublicKey, without a key ID. */
  function RawKey(kty: string, raw: seq<byte>): Key {
    if kty == OCT then Key(OCT, "", "", [], "", [], [], "", [], [], raw)
    else Key(OKP, "", "", [], "", [], [], ED25519_CURVE, raw, [], [])
  }

  /** Raw material has the thumbprint text of the key made of it. */
  lemma BytesAgreeWithKeys(kty: string, raw: seq<byte>)
    requires BytesInput(kty, raw).Some?
    ensures BytesInput(kty, raw) == ThumbprintInput(RawKey(kty, raw))
  {
    var k := RawKey(kty, raw);
    TextIsTheObject(k);
  }
}
