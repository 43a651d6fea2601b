/**
 Which keys verify which algorithms, told from the tables of RFC 7518 and RFC 8037, from "use" and
 "key_ops" of section 4 of RFC 7517, and from the key's numbers.
 */
module KeyUses {
  import opened Wrappers
  import opened Bytes
  import opened Strings
  import opened Keys
  import opened AlgorithmBinding

  // ---- Sizes in bits ---------------------------------------------------------------

  lemma {:induction false} BitLenRange(n: nat, k: nat)
    ensures BitLen(n) <= k <==> n < Pow2(k)
    decreases k
  {
    PowerAtLeastOne(k);
    if k > 0 && n > 0 {
      BitLenRange(n / 2, k - 1);
    }
  }

  // ---- The tables ------------------------------------------------------------------

  /** The key may verify at all, and is not bound to another algorithm. */
  predicate MayVerify(k: Key, alg: string) {
    && (k.use == "" || k.use == "sig")
    && (k.keyOps == [] || exists i :: 0 <= i < |k.keyOps| && k.keyOps[i] == "verify")
    && (k.alg == "" || k.alg == alg || {k.alg, alg} == {"EdDSA", "Ed25519"})
  }

  predicate SecretOf(k: Key, size: nat) {
    k.kty == "oct" && |k.k| >= size
  }

  const RSA_MIN_BITS: nat := 2048
  const RSA_MAX_BITS: nat := 8192

  /** Minimal octets; an odd modulus of 2048 to 8192 bits; an odd exponent from 3 to 2^31 - 1. */
  predicate SoundRsa(k: Key) {
    && k.kty == "RSA" && k.n != [] && k.n[0] != 0 && k.e != [] && k.e[0] != 0
    && Pow2(RSA_MIN_BITS - 1) <= ToNat(k.n) < Pow2(RSA_MAX_BITS) && ToNat(k.n) % 2 == 1
    && 3 <= ToNat(k.e) < 0x8000_0000 && ToNat(k.e) % 2 == 1
  }

  predicate PointOn(onCurve: OnCurve, k: Key, crv: string, size: nat) {
    k.kty == "EC" && k.crv == crv && |k.x| == size && |k.y| == size && onCurve(crv, k.x, k.y)
  }

  predicate Suits(onCurve: OnCurve, k: Key, alg: string) {
    || (alg == "HS256" && SecretOf(k, 32)) || (alg == "HS384" && SecretOf(k, 48)) || (alg == "HS512" && SecretOf(k, 64))
    || (alg in {"RS256", "RS384", "RS512", "PS256", "PS384", "PS512"} && SoundRsa(k))
    || (alg == "ES256" && PointOn(onCurve, k, "P-256", 32))
    || (alg == "ES384" && PointOn(onCurve, k, "P-384", 48))
    || (alg == "ES512" && PointOn(onCurve, k, "P-521", 66))
    || (alg in {"EdDSA", "Ed25519"} && k.kty == "OKP" && k.crv == "Ed25519" && |k.x| == 32)
  }

  lemma RsaExactly(k: Key)
    ensures RsaUsable(k) <==> SoundRsa(k)
  {
    BitLenRange(ToNat(k.n), RSA_MIN_BITS - 1);
    BitLenRange(ToNat(k.n), RSA_MAX_BITS);
  }

  lemma PermitsExactly(k: Key, alg: string)
    ensures PermitsVerify(k, alg) <==> MayVerify(k, alg)
  {
    SameNames(k.alg, alg);
  }

  lemma SameNames(a: string, b: string)
    ensures SameAlgorithm(a, b) <==> a == b || {a, b} == {"EdDSA", "Ed25519"}
  {
    if {a, b} == {"EdDSA", "Ed25519"} {
      assert a in {a, b} && b in {a, b} && "EdDSA" in {a, b} && "Ed25519" in {a, b};
    }
  }

  lemma EcExactly(onCurve: OnCurve, k: Key, alg: string)
    requires alg in {"ES256", "ES384", "ES512"}
    ensures EcUsable(onCurve, k, alg) <==>
      || (alg == "ES256" && PointOn(onCurve, k, "P-256", 32))
      || (alg == "ES384" && PointOn(onCurve, k, "P-384", 48))
      || (alg == "ES512" && PointOn(onCurve, k, "P-521", 66))
  {
  }

  lemma FamiliesExactly(alg: string)
    ensures FamilyOf(alg).Hmac? <==> alg in {"HS256", "HS384", "HS512"}
    ensures FamilyOf(alg).RsaPss? <==> alg in {"PS256", "PS384", "PS512"}
    ensures FamilyOf(alg).RsaPkcs1? <==> alg in {"RS256", "RS384", "RS512"}
    ensures FamilyOf(alg).Ecdsa? <==> alg in {"ES256", "ES384", "ES512"}
    ensures FamilyOf(alg).EdDsa? <==> alg in {"EdDSA", "Ed25519"}
  {
  }

  /** A key verifies an algorithm exactly when it may verify and its material suits the algorithm. */
  lemma UsableExactly(onCurve: OnCurve, k: Key, alg: string)
    ensures Usable(onCurve, k, alg) <==> MayVerify(k, alg) && Suits(onCurve, k, alg)
  {
    PermitsExactly(k, alg);
    FamiliesExactly(alg);
    RsaExactly(k);
    match FamilyOf(alg)
    case Ecdsa => EcExactly(onCurve, k, alg);
    case _ =>
  }

  /** What the other members say about use is never overridden. */
  lemma UseIsRespected(onCurve: OnCurve, k: Key, alg: string)
    ensures Usable(onCurve, k, alg) ==>
      !Contradicts(k.use, "verify") && (k.keyOps == [] || "verify" in k.keyOps) && (k.use == "" || k.use == "sig")
    ensures Usable(onCurve, k.(use := "sig"), alg) <==> Usable(onCurve, k.(use := ""), alg)
    ensures k.use == "enc" ==> !Usable(onCurve, k, alg)
  {
    UsableExactly(onCurve, k, alg);
    UsableExactly(onCurve, k.(use := "sig"), alg);
    UsableExactly(onCurve, k.(use := ""), alg);
  }

  // ---- Witnesses -------------------------------------------------------------------

  function PlainKey(kty: string): Key {
    Key(kty, "", "", [], "", [], [], "", [], [], [])
  }

  function Octets(size: nat): seq<byte> {
    seq(size, _ => 1)
  }

  /** 2^2047 + 1, in 256 octets. */
  function LeastModulus(): seq<byte> {
    [128] + seq(254, _ => 0) + [1]
  }

  lemma {:induction false} ZerosAreZero(b: seq<byte>)
    requires forall i :: 0 <= i < |b| ==> b[i] == 0
    ensures ToNat(b) == 0
  {
    if b != [] {
      ZerosAreZero(b[..|b| - 1]);
    }
  }

  lemma {:induction false} PowersAdd(i: nat, j: nat)
    ensures Pow2(i + j) == Pow2(i) * Pow2(j)
    decreases j
  {
    if j > 0 {
      PowersAdd(i, j - 1);
      Doubled(Pow2(i), Pow2(j - 1));
    }
  }

  lemma Doubled(a: nat, b: nat)
    ensures a * (2 * b) == 2 * (a * b)
  {
  }

  lemma {:induction false} PowersGrowTwo(i: nat, j: nat)
    requires i < j
    ensures Pow2(i) + 1 <= Pow2(j)
    decreases j
  {
    if i < j - 1 {
      PowersGrowTwo(i, j - 1);
    } else {
      assert Pow2(i) >= 1 by {
        PowerAtLeastOne(i);
      }
    }
  }

  lemma {:induction false} PowerAtLeastOne(i: nat)
    ensures Pow2(i) >= 1
  {
    if i > 0 {
      PowerAtLeastOne(i - 1);
    }
  }

  lemma LeastModulusValue(zeros: seq<byte>, count: nat)
    requires |zeros| == count && forall i :: 0 <= i < count ==> zeros[i] == 0
    ensures ToNat([128] + zeros + [1]) == 128 * Pow256(count + 1) + 1
  {
    var b := [128] + zeros + [1];
    var low := zeros + [1];
    assert b == [128] + low;
    MostSignificantFirst(128, low);
    assert low[..|low| - 1] == zeros;
    ZerosAreZero(zeros);
  }

  lemma LeastModulusBits(count: nat)
    ensures 128 * Pow256(count + 1) == Pow2(8 * count + 15)
  {
    OctetsAreEightBits(count + 1);
    PowersAdd(8 * (count + 1), 7);
    assert Pow2(7) == 128;
  }

  lemma LeastModulusIsSound()
    ensures SoundRsa(PlainKey("RSA").(n := LeastModulus(), e := [1, 0, 1]))
  {
    var n := LeastModulus();
    LeastModulusValue(seq(254, _ => 0), 254);
    LeastModulusBits(254);
    PowersGrowTwo(RSA_MIN_BITS - 1, RSA_MAX_BITS - 1);
    PowersGrowTwo(RSA_MAX_BITS - 1, RSA_MAX_BITS);
    OddModulus(n);
    Exponent();
  }

  lemma OddModulus(n: seq<byte>)
    requires n != [] && n[|n| - 1] == 1
    ensures ToNat(n) % 2 == 1
  {
    OddDigit(ToNat(n[..|n| - 1]));
  }

  lemma OddDigit(q: nat)
    ensures (256 * q + 1) % 2 == 1
  {
    var n := 256 * q + 1;
    var half, rest := n / 2, n % 2;
    assert n == 2 * half + rest;
    if rest == 0 {
      assert false;
    }
  }

  lemma Exponent()
    ensures ToNat([1, 0, 1]) == 65537
  {
    assert [1, 0, 1][..2] == [1, 0] && [1, 0][..1] == [1] && [1][..0] == [];
    assert ToNat([1]) == 1 && ToNat([1, 0]) == 256;
  }

  /** Every algorithm has a key of its type, elliptic ones wherever the curve has a point. */
  lemma EveryAlgorithmHasAKey(onCurve: OnCurve, x: seq<byte>, y: seq<byte>)
    ensures forall alg :: alg in {"HS256", "HS384", "HS512"} ==> Usable(onCurve, PlainKey("oct").(k := Octets(64)), alg)
    ensures forall alg :: alg in {"RS256", "RS384", "RS512", "PS256", "PS384", "PS512"} ==>
      Usable(onCurve, PlainKey("RSA").(n := LeastModulus(), e := [1, 0, 1]), alg)
    ensures |x| == |y| == 32 && onCurve("P-256", x, y) ==> Usable(onCurve, PlainKey("EC").(crv := "P-256", x := x, y := y), "ES256")
    ensures |x| == |y| == 48 && onCurve("P-384", x, y) ==> Usable(onCurve, PlainKey("EC").(crv := "P-384", x := x, y := y), "ES384")
    ensures |x| == |y| == 66 && onCurve("P-521", x, y) ==> Usable(onCurve, PlainKey("EC").(crv := "P-521", x := x, y := y), "ES512")
    ensures forall alg :: alg in {"EdDSA", "Ed25519"} ==> Usable(onCurve, PlainKey("OKP").(crv := "Ed25519", x := Octets(32)), alg)
  {
    SecretServes(onCurve);
    ModulusServes(onCurve);
    PointServes(onCurve, x, y);
    OctetStringServes(onCurve);
  }

  lemma SecretServes(onCurve: OnCurve)
    ensures forall alg :: alg in {"HS256", "HS384", "HS512"} ==> Usable(onCurve, PlainKey("oct").(k := Octets(64)), alg)
  {
    forall alg | alg in {"HS256", "HS384", "HS512"}
      ensures Usable(onCurve, PlainKey("oct").(k := Octets(64)), alg)
    {
      UsableExactly(onCurve, PlainKey("oct").(k := Octets(64)), alg);
    }
  }

  lemma ModulusServes(onCurve: OnCurve)
    ensures forall alg :: alg in {"RS256", "RS384", "RS512", "PS256", "PS384", "PS512"} ==>
      Usable(onCurve, PlainKey("RSA").(n := LeastModulus(), e := [1, 0, 1]), alg)
  {
    LeastModulusIsSound();
    var k := PlainKey("RSA").(n := LeastModulus(), e := [1, 0, 1]);
    forall alg | alg in {"RS256", "RS384", "RS512", "PS256", "PS384", "PS512"}
      ensures Usable(onCurve, k, alg)
    {
      SoundRsaServes(onCurve, k, alg);
    }
  }

  lemma SoundRsaServes(onCurve: OnCurve, k: Key, alg: string)
    requires SoundRsa(k) && k.use == "" && k.keyOps == [] && k.alg == ""
    requires alg in {"RS256", "RS384", "RS512", "PS256", "PS384", "PS512"}
    ensures Usable(onCurve, k, alg)
  {
    UsableExactly(onCurve, k, alg);
  }

  lemma PointServes(onCurve: OnCurve, x: seq<byte>, y: seq<byte>)
    ensures |x| == |y| == 32 && onCurve("P-256", x, y) ==> Usable(onCurve, PlainKey("EC").(crv := "P-256", x := x, y := y), "ES256")
    ensures |x| == |y| == 48 && onCurve("P-384", x, y) ==> Usable(onCurve, PlainKey("EC").(crv := "P-384", x := x, y := y), "ES384")
    ensures |x| == |y| == 66 && onCurve("P-521", x, y) ==> Usable(onCurve, PlainKey("EC").(crv := "P-521", x := x, y := y), "ES512")
  {
    UsableExactly(onCurve, PlainKey("EC").(crv := "P-256", x := x, y := y), "ES256");
    UsableExactly(onCurve, PlainKey("EC").(crv := "P-384", x := x, y := y), "ES384");
    UsableExactly(onCurve, PlainKey("EC").(crv := "P-521", x := x, y := y), "ES512");
  }

  lemma OctetStringServes(onCurve: OnCurve)
    ensures forall alg :: alg in {"EdDSA", "Ed25519"} ==> Usable(onCurve, PlainKey("OKP").(crv := "Ed25519", x := Octets(32)), alg)
  {
    forall alg | alg in {"EdDSA", "Ed25519"}
      ensures Usable(onCurve, PlainKey("OKP").(crv := "Ed25519", x := Octets(32)), alg)
    {
      UsableExactly(onCurve, PlainKey("OKP").(crv := "Ed25519", x := Octets(32)), alg);
    }
  }

  // ---- Acceptance ------------------------------------------------------------------

  /** One algorithm under two names has one identity, and no two algorithms share one. */
  lemma IdentityIsSameness(a: string, b: string)
    ensures Identity(a) == Identity(b) <==> SameAlgorithm(a, b)
  {
  }

  /** At most one identity is usable exactly when all usable names are names of one algorithm. */
  lemma OneIdentityExactly(usable: string -> bool, allowed: seq<string>)
    ensures |UsableIdentities(usable, allowed)| <= 1 <==>
      forall a, b :: a in allowed && b in allowed && usable(a) && usable(b) ==> SameAlgorithm(a, b)
  {
    var ids := UsableIdentities(usable, allowed);
    if |ids| <= 1 {
      forall a, b | a in allowed && b in allowed && usable(a) && usable(b)
        ensures SameAlgorithm(a, b)
      {
        TwoIdentities(usable, allowed, a, b);
        IdentityIsSameness(a, b);
      }
    } else {
      var x :| x in ids;
      assert ids - {x} != {} by {
        assert ids - {x} == {} ==> ids == {x};
      }
      var y :| y in ids - {x};
      var a :| a in allowed && usable(a) && Identity(a) == x;
      var b :| b in allowed && usable(b) && Identity(b) == y;
      IdentityIsSameness(a, b);
    }
  }

  /**
   A token's algorithm is accepted for a key exactly when it is listed by a real name, the key can
   verify it, and a key without "alg" can verify no other listed algorithm.
   */
  lemma AcceptsExactly(onCurve: OnCurve, k: Key, allowlist: seq<string>, alg: string)
    ensures Accepts(onCurve, k, allowlist, alg) <==>
      && alg in allowlist && alg != "" && FoldCase(alg) != "none"
      && MayVerify(k, alg) && Suits(onCurve, k, alg)
      && (k.alg == "" ==> forall b :: b in allowlist && Usable(onCurve, k, b) ==> SameAlgorithm(alg, b))
  {
    UsableExactly(onCurve, k, alg);
    var allowed := WithoutNone(allowlist);
    OneIdentityExactly(UsableBy(onCurve, k), allowed);
    NoneIsUnusable(onCurve, k);
    if alg in allowed {
      assert allowed != [];
    }
    SamenessIsTransitive(alg);
  }

  lemma NoneIsUnusable(onCurve: OnCurve, k: Key)
    ensures forall b :: IsNone(b) ==> !Usable(onCurve, k, b)
  {
    forall b | IsNone(b)
      ensures !Usable(onCurve, k, b)
    {
      NoneIsNoFamily(b);
    }
  }

  lemma NoneIsNoFamily(b: string)
    requires IsNone(b)
    ensures FamilyOf(b).Unknown?
  {
    if b != "" {
      FoldedLength(b, "none");
    }
  }

  lemma SamenessIsTransitive(alg: string)
    ensures forall a, b :: SameAlgorithm(alg, a) && SameAlgorithm(alg, b) ==> SameAlgorithm(a, b)
  {
  }
}
