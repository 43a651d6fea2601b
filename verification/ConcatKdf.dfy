/** The one-round Concat KDF of section 4.6.2 of RFC 7518. */
module ConcatKdf {
  import opened Bytes

  type Digest = b: seq<byte> | |b| == 32 witness seq(32, _ => 0)

  const U32_RANGE: nat := 0x1_0000_0000

  /** A big-endian uint32, with Go's truncating conversion. */
  function U32Octets(n: nat): (b: seq<byte>)
    ensures |b| == 4
  {
    FromNat(n % U32_RANGE, 4)
  }

  function LenPrefixed(b: seq<byte>): seq<byte> {
    U32Octets(|b|) + b
  }

  function OtherInfo(algID: seq<byte>, apu: seq<byte>, apv: seq<byte>, keyBits: nat): seq<byte> {
    LenPrefixed(algID) + LenPrefixed(apu) + LenPrefixed(apv) + U32Octets(keyBits)
  }

  /** What the single round hashes. */
  function RoundInput(z: seq<byte>, other: seq<byte>): seq<byte> {
    U32Octets(1) + z + other
  }

  function Derived(sha256: seq<byte> -> Digest, z: seq<byte>, algID: seq<byte>, apu: seq<byte>, apv: seq<byte>, keyBits: nat): (key: seq<byte>)
    requires keyBits <= 256
    ensures |key| == keyBits / 8
  {
    sha256(RoundInput(z, OtherInfo(algID, apu, apv, keyBits)))[..keyBits / 8]
  }

  class Buffer {
    var data: seq<byte>

    constructor ()
      ensures data == []
    {
      data := [];
    }

    method Write(b: seq<byte>)
      modifies this
      ensures data == old(data) + b
    {
      data := data + b;
    }
  }

  method WriteLenPrefixed(buf: Buffer, b: seq<byte>)
    modifies buf
    ensures buf.data == old(buf.data) + LenPrefixed(b)
  {
    buf.Write(U32Octets(|b|));
    buf.Write(b);
  }

  method ConcatKDF(sha256: seq<byte> -> Digest, z: seq<byte>, algID: seq<byte>, apu: seq<byte>, apv: seq<byte>, keyBits: nat)
    returns (key: seq<byte>)
    requires keyBits <= 256
    ensures key == Derived(sha256, z, algID, apu, apv, keyBits)
  {
    var other := new Buffer();
    WriteLenPrefixed(other, algID);
    FromEmpty(LenPrefixed(algID));
    WriteLenPrefixed(other, apu);
    WriteLenPrefixed(other, apv);
    other.Write(U32Octets(keyBits));
    var h := new Buffer();
    h.Write(U32Octets(1));
    FromEmpty(U32Octets(1));
    h.Write(z);
    h.Write(other.data);
    key := sha256(h.data)[..keyBits / 8];
  }

  lemma FromEmpty(a: seq<byte>)
    ensures [] + a == a
  {
  }

  lemma U32OctetsInjective(m: nat, n: nat)
    requires m < U32_RANGE && n < U32_RANGE && U32Octets(m) == U32Octets(n)
    ensures m == n
  {
    U32OctetsDenote(m);
    U32OctetsDenote(n);
  }

  lemma U32OctetsDenote(n: nat)
    requires n < U32_RANGE
    ensures ToNat(U32Octets(n)) == n
  {
    FourOctetsRange();
    InRange(n);
    ToNatOfFromNat(n, 4);
  }

  lemma FourOctetsRange()
    ensures Pow256(4) == U32_RANGE
  {
    assert Pow256(2) == 0x1_0000;
  }

  lemma InRange(n: nat)
    requires n < U32_RANGE
    ensures n % U32_RANGE == n
  {
  }

  /** A length-prefixed field ends where its prefix says. */
  lemma FieldEnds(a: seq<byte>, x: seq<byte>, b: seq<byte>, y: seq<byte>)
    requires |a| < U32_RANGE && |b| < U32_RANGE && LenPrefixed(a) + x == LenPrefixed(b) + y
    ensures a == b && x == y
  {
    var s, t := LenPrefixed(a) + x, LenPrefixed(b) + y;
    assert s[..4] == U32Octets(|a|) && t[..4] == U32Octets(|b|);
    U32OctetsInjective(|a|, |b|);
    assert s[4..4 + |a|] == a && t[4..4 + |b|] == b;
    assert s[4 + |a|..] == x && t[4 + |b|..] == y;
  }

  lemma OtherInfoInjective(
    algID: seq<byte>, apu: seq<byte>, apv: seq<byte>, keyBits: nat,
    algID': seq<byte>, apu': seq<byte>, apv': seq<byte>, keyBits': nat)
    requires |algID| < U32_RANGE && |apu| < U32_RANGE && |apv| < U32_RANGE && keyBits <= 256
    requires |algID'| < U32_RANGE && |apu'| < U32_RANGE && |apv'| < U32_RANGE && keyBits' <= 256
    requires OtherInfo(algID, apu, apv, keyBits) == OtherInfo(algID', apu', apv', keyBits')
    ensures algID == algID' && apu == apu' && apv == apv' && keyBits == keyBits'
  {
    var b, b' := U32Octets(keyBits), U32Octets(keyBits');
    Regroup(LenPrefixed(algID), LenPrefixed(apu), LenPrefixed(apv), b);
    Regroup(LenPrefixed(algID'), LenPrefixed(apu'), LenPrefixed(apv'), b');
    FieldEnds(algID, LenPrefixed(apu) + (LenPrefixed(apv) + b), algID', LenPrefixed(apu') + (LenPrefixed(apv') + b'));
    FieldEnds(apu, LenPrefixed(apv) + b, apu', LenPrefixed(apv') + b');
    FieldEnds(apv, b, apv', b');
    U32OctetsInjective(keyBits, keyBits');
  }

  lemma Regroup(a: seq<byte>, b: seq<byte>, c: seq<byte>, d: seq<byte>)
    ensures a + b + c + d == a + (b + (c + d))
  {
  }

  lemma RoundInputInjective(z: seq<byte>, other: seq<byte>, z': seq<byte>, other': seq<byte>)
    requires |z| == |z'| && RoundInput(z, other) == RoundInput(z', other')
    ensures z == z' && other == other'
  {
    var s, t := RoundInput(z, other), RoundInput(z', other');
    assert s[4..4 + |z|] == z && t[4..4 + |z|] == z';
    assert s[4 + |z|..] == other && t[4 + |z|..] == other';
  }

  /**
   The hashed octets tell the derivations apart: on one curve, whose agreed values have one width,
   no two choices of secret, algorithm, parties and key length share them.
   */
  lemma DerivationsAreSeparated(
    z: seq<byte>, algID: seq<byte>, apu: seq<byte>, apv: seq<byte>, keyBits: nat,
    z': seq<byte>, algID': seq<byte>, apu': seq<byte>, apv': seq<byte>, keyBits': nat)
    requires |z| == |z'|
    requires |algID| < U32_RANGE && |apu| < U32_RANGE && |apv| < U32_RANGE && keyBits <= 256
    requires |algID'| < U32_RANGE && |apu'| < U32_RANGE && |apv'| < U32_RANGE && keyBits' <= 256
    ensures RoundInput(z, OtherInfo(algID, apu, apv, keyBits)) == RoundInput(z', OtherInfo(algID', apu', apv', keyBits')) <==>
      z == z' && algID == algID' && apu == apu' && apv == apv' && keyBits == keyBits'
  {
    var other, other' := OtherInfo(algID, apu, apv, keyBits), OtherInfo(algID', apu', apv', keyBits');
    if RoundInput(z, other) == RoundInput(z', other') {
      RoundInputInjective(z, other, z', other');
      OtherInfoInjective(algID, apu, apv, keyBits, algID', apu', apv', keyBits');
    }
  }
}
