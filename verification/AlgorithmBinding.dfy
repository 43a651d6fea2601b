/**
 Binding a key to one algorithm (section 3.1 of RFC 8725): which algorithms a key can verify,
 and the loop that refuses a key without "alg" when the allowlist leaves the choice open.
 */
module AlgorithmBinding {
  import opened Wrappers
  import opened Bytes
  import opened Strings
  import opened Keys

  datatype Family = Unknown | Hmac | RsaPss | RsaPkcs1 | Ecdsa | EdDsa

  const ED25519 := "Ed25519"
  const EDDSA := "EdDSA"

  function FamilyOf(alg: string): Family {
    if alg == "HS256" || alg == "HS384" || alg == "HS512" then Hmac
    else if alg == "PS256" || alg == "PS384" || alg == "PS512" then RsaPss
    else if alg == "RS256" || alg == "RS384" || alg == "RS512" then RsaPkcs1
    else if alg == "ES256" || alg == "ES384" || alg == "ES512" then Ecdsa
    else if alg == ED25519 || alg == EDDSA then EdDsa
    else Unknown
  }

  /** The output size of the hash of an HS* algorithm, the least key length. */
  function MacSize(alg: string): nat {
    if alg == "HS256" then 32 else if alg == "HS384" then 48 else 64
  }

  /** ECDSAParams: the curve an ES* algorithm requires. */
  function CurveOf(alg: string): string {
    if alg == "ES256" then "P-256" else if alg == "ES384" then "P-384" else "P-521"
  }

  /** Identical, or the two names of Ed25519. */
  predicate SameAlgorithm(a: string, b: string) {
    a == b || ((a == ED25519 || a == EDDSA) && (b == ED25519 || b == EDDSA))
  }

  function Identity(alg: string): string {
    if alg == EDDSA then ED25519 else alg
  }

  predicate PermitsVerify(k: Key, alg: string) {
    && (k.use == "" || k.use == "sig")
    && (k.keyOps == [] || "verify" in k.keyOps)
    && (k.alg == "" || SameAlgorithm(k.alg, alg))
  }

  /** Whether the point (x, y) is on the curve: elliptic-curve arithmetic is not modelled. */
  type OnCurve = (string, seq<byte>, seq<byte>) -> bool

  /** PublicKey of an RSA key, then the strength checks of the RSA verifiers. */
  predicate RsaUsable(k: Key) {
    && k.kty == RSA && k.n != [] && k.e != [] && k.n[0] != 0 && k.e[0] != 0
    && var n, e := ToNat(k.n), ToNat(k.e);
       2048 <= BitLen(n) <= MAX_RSA_KEY_BITS && n % 2 == 1 && 3 <= e <= 0x7FFF_FFFF && e % 2 == 1
  }

  predicate EcUsable(onCurve: OnCurve, k: Key, alg: string) {
    var size := CurveSize(k.crv);
    && k.kty == EC && size.Some? && |k.x| == size.value && |k.y| == size.value
    && onCurve(k.crv, k.x, k.y) && k.crv == CurveOf(alg)
  }

  /** verifierForAlg returns a verifier. */
  predicate Usable(onCurve: OnCurve, k: Key, alg: string) {
    && PermitsVerify(k, alg)
    && match FamilyOf(alg)
       case Hmac => k.kty == OCT && |k.k| >= MacSize(alg)
       case RsaPss => RsaUsable(k)
       case RsaPkcs1 => RsaUsable(k)
       case Ecdsa => EcUsable(onCurve, k, alg)
       case EdDsa => k.kty == OKP && k.crv == ED25519_CURVE && |k.x| == 32
       case Unknown => false
  }

  function UsableBy(onCurve: OnCurve, k: Key): string -> bool {
    a => Usable(onCurve, k, a)
  }

  /** The algorithm identities in the allowlist that are usable. */
  function UsableIdentities(usable: string -> bool, allowed: seq<string>): set<string> {
    set a | a in allowed && usable(a) :: Identity(a)
  }

  /** Both names of Ed25519 are usable, or neither is. */
  ghost predicate RespectsIdentity(usable: string -> bool) {
    forall a, b :: Identity(a) == Identity(b) ==> usable(a) == usable(b)
  }

  lemma SameIdentity(a: string, b: string)
    requires Identity(a) == Identity(b) && a != b
    ensures FamilyOf(a) == FamilyOf(b) == EdDsa
  {
  }

  lemma BothNamesOrNeither(onCurve: OnCurve, k: Key)
    requires k.alg == ""
    ensures RespectsIdentity(UsableBy(onCurve, k))
  {
    forall a, b | Identity(a) == Identity(b)
      ensures UsableBy(onCurve, k)(a) == UsableBy(onCurve, k)(b)
    {
      if a != b {
        SameIdentity(a, b);
        assert PermitsVerify(k, a) == PermitsVerify(k, b);
      }
    }
  }

  lemma UsableIdentitiesAppend(usable: string -> bool, allowed: seq<string>, a: string)
    ensures UsableIdentities(usable, allowed + [a]) ==
      UsableIdentities(usable, allowed) + if usable(a) then {Identity(a)} else {}
  {
    assert a in allowed + [a];
    assert forall b :: b in allowed + [a] <==> b in allowed || b == a;
  }

  lemma UsableIdentitiesGrow(usable: string -> bool, allowed: seq<string>, i: nat)
    requires i <= |allowed|
    ensures UsableIdentities(usable, allowed[..i]) <= UsableIdentities(usable, allowed)
  {
    assert forall b :: b in allowed[..i] ==> b in allowed;
  }

  lemma SubsetSize<T>(a: set<T>, b: set<T>)
    requires a <= b
    ensures |a| <= |b|
  {
    assert b == a + (b - a);
  }

  /**
   requireUnambiguousKeyAlgorithm: a key without "alg" passes exactly when at most one
   identity in the allowlist could use it, whatever the order and the duplicates.
   */
  method RequireUnambiguous(onCurve: OnCurve, k: Key, allowed: seq<string>) returns (ok: bool)
    ensures ok <==> k.alg != "" || |UsableIdentities(UsableBy(onCurve, k), allowed)| <= 1
  {
    if k.alg != "" {
      return true;
    }
    BothNamesOrNeither(onCurve, k);
    ok := AtMostOneIdentity(UsableBy(onCurve, k), allowed);
  }

  function Identities(algs: seq<string>): set<string> {
    set a | a in algs :: Identity(a)
  }

  lemma IdentitiesAppend(algs: seq<string>, a: string)
    ensures Identities(algs + [a]) == Identities(algs) + {Identity(a)}
  {
    assert a in algs + [a];
    assert forall b :: b in algs + [a] <==> b in algs || b == a;
  }

  /** A name whose identity was seen adds nothing. */
  lemma SeenAddsNothing(usable: string -> bool, algs: seq<string>, a: string)
    requires RespectsIdentity(usable) && Identity(a) in Identities(algs)
    ensures UsableIdentities(usable, algs + [a]) == UsableIdentities(usable, algs)
  {
    UsableIdentitiesAppend(usable, algs, a);
    var b :| b in algs && Identity(b) == Identity(a);
    assert usable(b) == usable(a);
    assert usable(a) ==> Identity(b) in UsableIdentities(usable, algs);
  }

  /** Two different usable identities in a prefix are two in the whole. */
  lemma TwoAreTooMany(usable: string -> bool, allowed: seq<string>, i: nat, x: string, y: string)
    requires i <= |allowed| && x != y && UsableIdentities(usable, allowed[..i]) == {x, y}
    ensures |UsableIdentities(usable, allowed)| >= 2
  {
    UsableIdentitiesGrow(usable, allowed, i);
    SubsetSize({x, y}, UsableIdentities(usable, allowed));
    assert |{x, y}| == 2;
  }

  /** The loop of requireUnambiguousKeyAlgorithm, stopping at the second compatible algorithm. */
  method AtMostOneIdentity(usable: string -> bool, allowed: seq<string>) returns (ok: bool)
    requires RespectsIdentity(usable)
    ensures ok <==> |UsableIdentities(usable, allowed)| <= 1
  {
    var seen: set<string> := {};
    var compatible: seq<string> := [];
    for i := 0 to |allowed|
      invariant seen == Identities(allowed[..i])
      invariant compatible == [] || (|compatible| == 1 && Identity(compatible[0]) in seen)
      invariant UsableIdentities(usable, allowed[..i]) == if compatible == [] then {} else {Identity(compatible[0])}
    {
      var alg := allowed[i];
      assert allowed[..i + 1] == allowed[..i] + [alg];
      IdentitiesAppend(allowed[..i], alg);
      if Identity(alg) in seen {
        SeenAddsNothing(usable, allowed[..i], alg);
        continue;
      }
      UsableIdentitiesAppend(usable, allowed[..i], alg);
      seen := seen + {Identity(alg)};
      if usable(alg) {
        compatible := compatible + [alg];
        if |compatible| > 1 {
          TwoAreTooMany(usable, allowed, i + 1, Identity(compatible[0]), Identity(alg));
          return false;
        }
      }
    }
    assert allowed[..|allowed|] == allowed;
    ok := true;
  }

  // ---- The allowlist ---------------------------------------------------------------

  predicate IsNone(alg: string) {
    alg == "" || EqualFold(alg, "none")
  }

  function WithoutNone(algs: seq<string>): (r: seq<string>)
    ensures forall a :: a in r <==> a in algs && !IsNone(a)
  {
    if algs == [] then []
    else WithoutNone(algs[..|algs| - 1]) + if IsNone(algs[|algs| - 1]) then [] else [algs[|algs| - 1]]
  }

  method FilterNone(algs: seq<string>) returns (out: seq<string>)
    ensures out == WithoutNone(algs)
  {
    out := [];
    for i := 0 to |algs|
      invariant out == WithoutNone(algs[..i])
    {
      assert algs[..i + 1][..i] == algs[..i];
      if IsNone(algs[i]) {
        continue;
      }
      out := out + [algs[i]];
    }
    assert algs[..|algs|] == algs;
  }

  /** parseVerified's checks between the header's "alg" and the verifier, for a key that was found. */
  predicate Accepts(onCurve: OnCurve, k: Key, allowlist: seq<string>, alg: string) {
    var allowed := WithoutNone(allowlist);
    && allowed != [] && !IsNone(alg) && alg in allowed
    && (k.alg != "" || |UsableIdentities(UsableBy(onCurve, k), allowed)| <= 1)
    && Usable(onCurve, k, alg)
  }

  /** Under one allowlist a key verifies tokens of one algorithm identity only. */
  lemma OneKeyOneAlgorithm(onCurve: OnCurve, k: Key, allowlist: seq<string>, a: string, b: string)
    requires Accepts(onCurve, k, allowlist, a) && Accepts(onCurve, k, allowlist, b)
    ensures Identity(a) == Identity(b)
  {
    if k.alg == "" {
      TwoIdentities(UsableBy(onCurve, k), WithoutNone(allowlist), a, b);
    }
  }

  lemma TwoIdentities(usable: string -> bool, allowed: seq<string>, a: string, b: string)
    requires |UsableIdentities(usable, allowed)| <= 1
    requires a in allowed && b in allowed && usable(a) && usable(b)
    ensures Identity(a) == Identity(b)
  {
    var ids := UsableIdentities(usable, allowed);
    assert Identity(a) in ids && Identity(b) in ids;
    SubsetSize({Identity(a), Identity(b)}, ids);
  }

  /** Only the set of usable names in the allowlist matters, not their order or repetition. */
  lemma OrderDoesNotMatter(onCurve: OnCurve, k: Key, xs: seq<string>, ys: seq<string>, alg: string)
    requires forall a :: a in xs <==> a in ys
    ensures Accepts(onCurve, k, xs, alg) <==> Accepts(onCurve, k, ys, alg)
  {
    assert forall a :: a in WithoutNone(xs) <==> a in WithoutNone(ys);
    assert UsableIdentities(UsableBy(onCurve, k), WithoutNone(xs)) == UsableIdentities(UsableBy(onCurve, k), WithoutNone(ys));
    assert WithoutNone(xs) == [] <==> WithoutNone(ys) == [] by {
      if WithoutNone(xs) != [] {
        assert WithoutNone(xs)[0] in WithoutNone(ys);
      }
      if WithoutNone(ys) != [] {
        assert WithoutNone(ys)[0] in WithoutNone(xs);
      }
    }
  }

  /** The key type an algorithm needs; no algorithm needs two. */
  function TypeFor(alg: string): string {
    match FamilyOf(alg)
    case Hmac => OCT
    case RsaPss => RSA
    case RsaPkcs1 => RSA
    case Ecdsa => EC
    case EdDsa => OKP
    case Unknown => ""
  }

  lemma UsableType(onCurve: OnCurve, k: Key, alg: string)
    requires Usable(onCurve, k, alg)
    ensures k.kty == TypeFor(alg)
  {
  }

  /**
   Algorithm confusion is impossible: a key accepted under one allowlist and a key accepted under
   another verify the same algorithm only if they are of one type, so a public key never stands in
   for a secret.
   */
  lemma NoTypeConfusion(onCurve: OnCurve, k: Key, l: Key, xs: seq<string>, ys: seq<string>, a: string, b: string)
    requires Accepts(onCurve, k, xs, a) && Accepts(onCurve, l, ys, b) && Identity(a) == Identity(b)
    ensures k.kty == l.kty
  {
    AcceptedType(onCurve, k, xs, a);
    AcceptedType(onCurve, l, ys, b);
    SameIdentitySameType(a, b);
  }

  lemma AcceptedType(onCurve: OnCurve, k: Key, allowlist: seq<string>, alg: string)
    requires Accepts(onCurve, k, allowlist, alg)
    ensures k.kty == TypeFor(alg)
  {
    UsableType(onCurve, k, alg);
  }

  lemma SameIdentitySameType(a: string, b: string)
    requires Identity(a) == Identity(b)
    ensures TypeFor(a) == TypeFor(b)
  {
    if a != b {
      SameIdentity(a, b);
    }
  }
}
