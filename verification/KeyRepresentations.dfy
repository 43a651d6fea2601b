/**
 Which representations of keys are taken, told from the tables of RFC 7517 and RFC 7518: operations,
 octet widths, public keys, and the limits on documents.
 */
module KeyRepresentations {
  import opened Wrappers
  import opened Bytes
  import opened Keys
  import opened JsonTrees
  import opened KeyJson
  import opened KeySetDocuments
  import KeyUses

  // ---- Operations ------------------------------------------------------------------

  const SIGNATURE_OPS := {"sign", "verify"}
  const ENCRYPTION_OPS := {"encrypt", "decrypt", "wrapKey", "unwrapKey"}
  const DERIVATION_OPS := {"deriveKey", "deriveBits"}

  ghost function OpsOf(k: Key): set<string> {
    set i | 0 <= i < |k.keyOps| :: k.keyOps[i]
  }

  /** Section 4.3 of RFC 7517: no repetition, nothing "use" excludes, and one kind of operation. */
  ghost predicate OpsAllowed(k: Key) {
    && (forall i, j :: 0 <= i < j < |k.keyOps| ==> k.keyOps[i] != k.keyOps[j])
    && (k.use == "sig" ==> OpsOf(k) <= SIGNATURE_OPS)
    && (k.use == "enc" ==> OpsOf(k) <= ENCRYPTION_OPS + DERIVATION_OPS)
    && (OpsOf(k) !! SIGNATURE_OPS || OpsOf(k) !! ENCRYPTION_OPS)
    && (OpsOf(k) !! SIGNATURE_OPS || OpsOf(k) !! DERIVATION_OPS)
    && (OpsOf(k) !! ENCRYPTION_OPS || OpsOf(k) !! DERIVATION_OPS)
  }

  lemma ClassesExactly(op: string)
    ensures ClassOf(op) == Signing <==> op in SIGNATURE_OPS
    ensures ClassOf(op) == Encrypting <==> op in ENCRYPTION_OPS
    ensures ClassOf(op) == Deriving <==> op in DERIVATION_OPS
  {
  }

  lemma UseExactly(k: Key)
    ensures (forall i :: 0 <= i < |k.keyOps| ==> !Contradicts(k.use, k.keyOps[i])) <==>
      (k.use == "sig" ==> OpsOf(k) <= SIGNATURE_OPS) && (k.use == "enc" ==> OpsOf(k) <= ENCRYPTION_OPS + DERIVATION_OPS)
  {
    forall op
      ensures Contradicts(k.use, op) <==>
        (k.use == "sig" && op !in SIGNATURE_OPS) || (k.use == "enc" && op !in ENCRYPTION_OPS + DERIVATION_OPS)
    {
      ClassesExactly(op);
    }
    assert forall i :: 0 <= i < |k.keyOps| ==> k.keyOps[i] in OpsOf(k);
  }

  /** Two different kinds among the operations. */
  ghost predicate Mixes(k: Key, a: set<string>, b: set<string>) {
    exists i, j :: 0 <= i < |k.keyOps| && 0 <= j < |k.keyOps| && k.keyOps[i] in a && k.keyOps[j] in b
  }

  lemma MixesExactly(k: Key, a: set<string>, b: set<string>)
    ensures Mixes(k, a, b) <==> !(OpsOf(k) !! a) && !(OpsOf(k) !! b)
  {
    if !(OpsOf(k) !! a) && !(OpsOf(k) !! b) {
      var x :| x in OpsOf(k) && x in a;
      var y :| y in OpsOf(k) && y in b;
      var i :| 0 <= i < |k.keyOps| && k.keyOps[i] == x;
      var j :| 0 <= j < |k.keyOps| && k.keyOps[j] == y;
    }
    if i, j :| 0 <= i < |k.keyOps| && 0 <= j < |k.keyOps| && k.keyOps[i] in a && k.keyOps[j] in b {
      assert k.keyOps[i] in OpsOf(k) && k.keyOps[j] in OpsOf(k);
    }
  }

  lemma OneKindExactly(k: Key)
    ensures OneClass(k.keyOps) <==>
      !Mixes(k, SIGNATURE_OPS, ENCRYPTION_OPS) && !Mixes(k, SIGNATURE_OPS, DERIVATION_OPS) && !Mixes(k, ENCRYPTION_OPS, DERIVATION_OPS)
  {
    forall i | 0 <= i < |k.keyOps|
      ensures ClassOf(k.keyOps[i]) == Signing <==> k.keyOps[i] in SIGNATURE_OPS
      ensures ClassOf(k.keyOps[i]) == Encrypting <==> k.keyOps[i] in ENCRYPTION_OPS
      ensures ClassOf(k.keyOps[i]) == Deriving <==> k.keyOps[i] in DERIVATION_OPS
    {
      ClassesExactly(k.keyOps[i]);
    }
  }

  // ---- Octets ----------------------------------------------------------------------

  const MODULUS_BITS: nat := 8192

  predicate Minimal(b: seq<byte>) {
    b == [] || b[0] != 0
  }

  predicate WidthOrNone(b: seq<byte>, size: nat) {
    b == [] || |b| == size
  }

  /** Section 6.3.1.1 of RFC 7518 for RSA, section 6.2.1.2 for EC, section 2 of RFC 8037 for Ed25519. */
  ghost predicate OctetsAllowed(k: Key) {
    && (k.kty == "RSA" ==> Minimal(k.n) && Minimal(k.e) && ToNat(k.n) < Pow2(MODULUS_BITS))
    && (k.kty == "EC" && k.crv == "P-256" ==> WidthOrNone(k.x, 32) && WidthOrNone(k.y, 32))
    && (k.kty == "EC" && k.crv == "P-384" ==> WidthOrNone(k.x, 48) && WidthOrNone(k.y, 48))
    && (k.kty == "EC" && k.crv == "P-521" ==> WidthOrNone(k.x, 66) && WidthOrNone(k.y, 66))
    && (k.kty == "OKP" && k.crv == "Ed25519" ==> WidthOrNone(k.x, 32))
  }

  lemma OctetsExactly(k: Key)
    ensures CanonicalMaterial(k) <==> OctetsAllowed(k)
  {
    KeyUses.BitLenRange(ToNat(k.n), MODULUS_BITS);
  }

  /** A key is canonical exactly when its operations and its octets are allowed. */
  lemma CanonicalExactly(k: Key)
    ensures Canonical(k) <==> OpsAllowed(k) && OctetsAllowed(k)
  {
    OctetsExactly(k);
    UseExactly(k);
    OneKindExactly(k);
    MixesExactly(k, SIGNATURE_OPS, ENCRYPTION_OPS);
    MixesExactly(k, SIGNATURE_OPS, DERIVATION_OPS);
    MixesExactly(k, ENCRYPTION_OPS, DERIVATION_OPS);
  }

  // ---- Public keys -----------------------------------------------------------------

  /** A complete public key of a type and curve that is supported. */
  ghost predicate PublicMaterial(onCurve: OnCurve, k: Key) {
    || (k.kty == "RSA" && k.n != [] && Minimal(k.n) && k.e != [] && Minimal(k.e) && ToNat(k.n) < Pow2(MODULUS_BITS)
        && ToNat(k.n) % 2 == 1 && 3 <= ToNat(k.e) < 0x8000_0000 && ToNat(k.e) % 2 == 1)
    || (k.kty == "EC" && k.crv == "P-256" && |k.x| == |k.y| == 32 && onCurve("P-256", k.x, k.y))
    || (k.kty == "EC" && k.crv == "P-384" && |k.x| == |k.y| == 48 && onCurve("P-384", k.x, k.y))
    || (k.kty == "EC" && k.crv == "P-521" && |k.x| == |k.y| == 66 && onCurve("P-521", k.x, k.y))
    || (k.kty == "OKP" && k.crv == "Ed25519" && |k.x| == 32)
  }

  lemma PublicKeyExactly(onCurve: OnCurve, k: Key)
    ensures HasPublicKey(onCurve, k) <==> PublicMaterial(onCurve, k)
  {
    KeyUses.BitLenRange(ToNat(k.n), MODULUS_BITS);
  }

  ghost predicate Supported(k: Key) {
    || k.kty == "RSA" || k.kty == "oct" || (k.kty == "EC" && k.crv in {"P-256", "P-384", "P-521"})
    || (k.kty == "OKP" && k.crv == "Ed25519")
  }

  lemma UnderstoodExactly(k: Key)
    ensures Understood(k) <==> Supported(k)
  {
  }

  // ---- Members of documents --------------------------------------------------------

  lemma BoundedExactly(m: map<string, Json>)
    ensures Bounded(m) <==> forall name :: name in {"n", "e", "x", "y", "k"} ==>
      StringMember(m, name).Some? && |StringMember(m, name).value| <= 10923
  {
    assert MATERIAL[0] == "n" && MATERIAL[1] == "e" && MATERIAL[2] == "x" && MATERIAL[3] == "y" && MATERIAL[4] == "k";
    if Bounded(m) {
      forall name | name in {"n", "e", "x", "y", "k"}
        ensures StringMember(m, name).Some? && |StringMember(m, name).value| <= 10923
      {
        var i :| 0 <= i < |MATERIAL| && MATERIAL[i] == name;
      }
    }
  }

  /** A member is a key exactly within its limits, canonical, of a named type, and complete if supported. */
  lemma MemberExactly(limits: Limits, onCurve: OnCurve, j: Json, k: Key)
    ensures ParsedJwk(limits, onCurve, j) == Some(k) <==>
      && limits.member(j) && j.JObject? && Bounded(j.members) && KeyFrom(j.members) == Some(k)
      && k.kty != "" && OpsAllowed(k) && OctetsAllowed(k)
      && (Supported(k) && k.kty != "oct" ==> PublicMaterial(onCurve, k)) && (k.kty == "oct" ==> k.k != [])
  {
    CanonicalExactly(k);
    PublicKeyExactly(onCurve, k);
    UnderstoodExactly(k);
  }

  /** A document is read exactly when it is within its limit and holds an array of at most 128 members. */
  lemma DocumentExactly(limits: Limits, doc: Json, items: seq<Json>)
    ensures Items(limits, doc) == Some(items) <==>
      limits.document(doc) && doc.JObject? && At(doc.members, "keys") == Some(JArray(items)) && |items| <= 128
  {
  }
}
