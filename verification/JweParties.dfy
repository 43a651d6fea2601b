/**
 The recipient's side of key management for any sender: which derivation a header that names its
 parties selects (section 4.6.2 of RFC 7518), and what is refused.
 */
module JweParties {
  import opened Wrappers
  import opened Bytes
  import opened Keys
  import opened AesKeyWrap
  import opened ConcatKdf
  import opened JsonTrees
  import opened JweHeaders
  import opened JweKeys
  import B64

  // ---- The derivation --------------------------------------------------------------

  /** Big-endian 32 bits. */
  function FourOctets(n: nat): seq<byte>
    requires n < 0x1_0000_0000
  {
    [n / 0x100_0000, n / 0x1_0000 % 256, n / 256 % 256, n % 256]
  }

  lemma CounterOctets(n: nat)
    requires n < 0x1_0000_0000
    ensures U32Octets(n) == FourOctets(n)
  {
    var m := n % 0x1_0000_0000;
    assert m == n;
    FourDigits(n);
  }

  lemma FourDigits(n: nat)
    requires n < 0x1_0000_0000
    ensures FromNat(n, 4) == FourOctets(n)
  {
    var a, b, c := n / 256, n / 256 / 256, n / 256 / 256 / 256;
    assert FromNat(c, 1) == [c % 256];
    assert FromNat(b, 2) == FromNat(c, 1) + [b % 256];
    assert FromNat(a, 3) == FromNat(b, 2) + [a % 256];
    assert FromNat(n, 4) == FromNat(a, 3) + [n % 256];
    Quotients(n);
  }

  lemma Quotients(n: nat)
    requires n < 0x1_0000_0000
    ensures n / 256 / 256 == n / 0x1_0000 && n / 256 / 256 / 256 == n / 0x100_0000 < 256
  {
  }

  /** A field after its length. */
  function Field(b: seq<byte>): seq<byte>
    requires |b| < 0x1_0000_0000
  {
    FourOctets(|b|) + b
  }

  /** What the one round hashes: counter 1, Z, AlgorithmID, PartyUInfo, PartyVInfo, and the key's bits. */
  function Hashed(z: seq<byte>, algID: seq<byte>, partyU: seq<byte>, partyV: seq<byte>, keyBits: nat): seq<byte>
    requires |algID| < 0x1_0000_0000 && |partyU| < 0x1_0000_0000 && |partyV| < 0x1_0000_0000 && keyBits <= 256
  {
    [0, 0, 0, 1] + z + (Field(algID) + Field(partyU) + Field(partyV) + FourOctets(keyBits))
  }

  /** The derived key is the front of that digest. */
  lemma DerivedIsFront(sha256: seq<byte> -> Digest, z: seq<byte>, algID: seq<byte>, partyU: seq<byte>, partyV: seq<byte>, keyBits: nat)
    requires |algID| < 0x1_0000_0000 && |partyU| < 0x1_0000_0000 && |partyV| < 0x1_0000_0000 && keyBits <= 256
    ensures Derived(sha256, z, algID, partyU, partyV, keyBits) == sha256(Hashed(z, algID, partyU, partyV, keyBits))[..keyBits / 8]
  {
    InputIsHashed(z, algID, partyU, partyV, keyBits);
  }

  lemma PrefixIsField(b: seq<byte>)
    requires |b| < 0x1_0000_0000
    ensures LenPrefixed(b) == Field(b)
  {
    CounterOctets(|b|);
  }

  lemma FirstRound()
    ensures U32Octets(1) == [0, 0, 0, 1]
  {
    CounterOctets(1);
  }

  lemma InputIsHashed(z: seq<byte>, algID: seq<byte>, partyU: seq<byte>, partyV: seq<byte>, keyBits: nat)
    requires |algID| < 0x1_0000_0000 && |partyU| < 0x1_0000_0000 && |partyV| < 0x1_0000_0000 && keyBits <= 256
    ensures RoundInput(z, OtherInfo(algID, partyU, partyV, keyBits)) == Hashed(z, algID, partyU, partyV, keyBits)
  {
    FirstRound();
    PrefixIsField(algID);
    PrefixIsField(partyU);
    PrefixIsField(partyV);
    CounterOctets(keyBits);
  }

  // ---- Parties in the header -------------------------------------------------------

  /** The header names a party by the base64url of its octets, or not at all. */
  lemma PartyIsDecoded(s: string, party: seq<byte>)
    ensures PartyInfo(s) == Some(party) <==> s == B64.Encode(party)
  {
    B64.SextetCount(party);
    B64.SextetCount([]);
    B64.DecodeIsExactlyInverse(s, party);
  }

  /** The parties are refused exactly when a name is no base64url, or both are present and alike. */
  lemma PartiesExactly(h: Header, partyU: seq<byte>, partyV: seq<byte>)
    ensures PartyInfos(h) == Some((partyU, partyV)) <==>
      h.apu == B64.Encode(partyU) && h.apv == B64.Encode(partyV) && !(h.apuPresent && h.apvPresent && partyU == partyV)
  {
    PartyIsDecoded(h.apu, partyU);
    PartyIsDecoded(h.apv, partyV);
  }

  /** Presence is that of the member, even when it is empty. */
  lemma PresenceIsRead(m: map<string, Json>)
    ensures HeaderFrom(m).Some? ==>
      && (HeaderFrom(m).value.apuPresent <==> "apu" in m) && (HeaderFrom(m).value.apvPresent <==> "apv" in m)
  {
  }

  // ---- What a recipient demands ----------------------------------------------------

  /** The header's ephemeral key is a full-width point of the recipient's curve. */
  predicate EphemeralOn(cr: Crypto, crv: string, h: Header) {
    && h.epk.Some? && h.epk.value.kty == "EC" && h.epk.value.crv == crv
    && CurveSize(crv).Some? && |h.epk.value.x| == CurveSize(crv).value && |h.epk.value.y| == CurveSize(crv).value
    && cr.isOnCurve(crv, Point(h.epk.value.x, h.epk.value.y))
  }

  lemma SecretExactly(cr: Crypto, crv: string, scalar: nat, h: Header, z: seq<byte>)
    ensures AgreedSecret(cr, crv, scalar, h) == Some(z) <==>
      && EphemeralOn(cr, crv, h) && PartyInfos(h).Some?
      && cr.agree(crv, scalar, Point(h.epk.value.x, h.epk.value.y)) == Some(z)
  {
  }

  /** The algorithm, the encrypted key and the derived key of an accepted agreement. */
  ghost predicate AgreedKeyOf(cr: Crypto, h: Header, z: seq<byte>, partyU: seq<byte>, partyV: seq<byte>, encryptedKey: seq<byte>, cek: seq<byte>)
    requires |partyU| < 0x1_0000_0000 && |partyV| < 0x1_0000_0000 && |h.enc| < 0x1_0000_0000
  {
    var size := ContentKeyLen(h.enc);
    if h.alg == "ECDH-ES" then
      encryptedKey == [] && cek == cr.sha256(Hashed(z, OctetsOf(h.enc), partyU, partyV, size * 8))[..size]
    else
      && h.alg == "ECDH-ES+A256KW" && |encryptedKey| == size + 8 && |cek| == size
      && Unwrapped(cr.aes, cr.sha256(Hashed(z, OctetsOf("ECDH-ES+A256KW"), partyU, partyV, 256))[..32], encryptedKey) == Ok(cek)
  }

  /**
   A key is recovered through an agreement exactly from a header with an ephemeral key on the
   recipient's curve and acceptable parties, by the derivation that names those parties.
   */
  lemma AgreementExactly(cr: Crypto, crv: string, scalar: nat, h: Header, partyU: seq<byte>, partyV: seq<byte>, z: seq<byte>,
                         encryptedKey: seq<byte>, cek: seq<byte>)
    requires |partyU| < 0x1_0000_0000 && |partyV| < 0x1_0000_0000 && |h.enc| < 0x1_0000_0000
    requires h.apu == B64.Encode(partyU) && h.apv == B64.Encode(partyV) && !(h.apuPresent && h.apvPresent && partyU == partyV)
    requires EphemeralOn(cr, crv, h) && cr.agree(crv, scalar, Point(h.epk.value.x, h.epk.value.y)) == Some(z)
    ensures UnwrapKey(cr, EcdhUnwrapper(crv, scalar), h, encryptedKey) == Some(cek) <==>
      AgreedKeyOf(cr, h, z, partyU, partyV, encryptedKey, cek)
  {
    PartiesExactly(h, partyU, partyV);
    SecretExactly(cr, crv, scalar, h, z);
    if h.alg == "ECDH-ES" {
      DirectAgreement(cr, crv, scalar, h, partyU, partyV, z, encryptedKey);
    } else if h.alg == "ECDH-ES+A256KW" {
      WrappedAgreement(cr, crv, scalar, h, partyU, partyV, z, encryptedKey);
    } else {
      OtherAgreement(cr, crv, scalar, h, z, encryptedKey);
    }
  }

  lemma DirectAgreement(cr: Crypto, crv: string, scalar: nat, h: Header, partyU: seq<byte>, partyV: seq<byte>, z: seq<byte>,
                        encryptedKey: seq<byte>)
    requires |partyU| < 0x1_0000_0000 && |partyV| < 0x1_0000_0000 && |h.enc| < 0x1_0000_0000
    requires AgreedSecret(cr, crv, scalar, h) == Some(z) && PartyInfos(h) == Some((partyU, partyV)) && h.alg == "ECDH-ES"
    ensures
      var size := ContentKeyLen(h.enc);
      UnwrapKey(cr, EcdhUnwrapper(crv, scalar), h, encryptedKey) ==
        if encryptedKey == [] then Some(cr.sha256(Hashed(z, OctetsOf(h.enc), partyU, partyV, size * 8))[..size]) else None
  {
    DerivedIsFront(cr.sha256, z, OctetsOf(h.enc), partyU, partyV, ContentKeyLen(h.enc) * 8);
  }

  lemma WrappedAgreement(cr: Crypto, crv: string, scalar: nat, h: Header, partyU: seq<byte>, partyV: seq<byte>, z: seq<byte>,
                         encryptedKey: seq<byte>)
    requires |partyU| < 0x1_0000_0000 && |partyV| < 0x1_0000_0000
    requires AgreedSecret(cr, crv, scalar, h) == Some(z) && PartyInfos(h) == Some((partyU, partyV)) && h.alg == "ECDH-ES+A256KW"
    ensures
      var kek := cr.sha256(Hashed(z, OctetsOf("ECDH-ES+A256KW"), partyU, partyV, 256))[..32];
      UnwrapKey(cr, EcdhUnwrapper(crv, scalar), h, encryptedKey) ==
        if |encryptedKey| == ContentKeyLen(h.enc) + 8 then UnwrapUnder(cr, kek, encryptedKey, ContentKeyLen(h.enc)) else None
  {
    DerivedIsFront(cr.sha256, z, OctetsOf("ECDH-ES+A256KW"), partyU, partyV, 256);
  }

  lemma OtherAgreement(cr: Crypto, crv: string, scalar: nat, h: Header, z: seq<byte>, encryptedKey: seq<byte>)
    requires AgreedSecret(cr, crv, scalar, h) == Some(z) && h.alg != "ECDH-ES" && h.alg != "ECDH-ES+A256KW"
    ensures UnwrapKey(cr, EcdhUnwrapper(crv, scalar), h, encryptedKey) == None
  {
  }

  /** Without such a header nothing is recovered. */
  lemma AgreementRefused(cr: Crypto, crv: string, scalar: nat, h: Header, encryptedKey: seq<byte>)
    requires
      || !EphemeralOn(cr, crv, h)
      || cr.agree(crv, scalar, Point(h.epk.value.x, h.epk.value.y)) == None
      || (forall b :: B64.Encode(b) != h.apu) || (forall b :: B64.Encode(b) != h.apv)
      || (h.apuPresent && h.apvPresent && h.apu == h.apv)
    ensures UnwrapKey(cr, EcdhUnwrapper(crv, scalar), h, encryptedKey) == None
  {
    if AgreedSecret(cr, crv, scalar, h).Some? {
      SecretExactly(cr, crv, scalar, h, AgreedSecret(cr, crv, scalar, h).value);
      var (partyU, partyV) := PartyInfos(h).value;
      PartiesExactly(h, partyU, partyV);
      B64.EncodeIsInjective(partyU, partyV);
    }
  }

  /** A direct key is used as it is, and only where no encrypted key was sent. */
  lemma DirectExactly(cr: Crypto, key: seq<byte>, h: Header, encryptedKey: seq<byte>, cek: seq<byte>)
    ensures UnwrapKey(cr, DirectUnwrapper(key), h, encryptedKey) == Some(cek) <==>
      encryptedKey == [] && |key| == ContentKeyLen(h.enc) && cek == key
  {
  }

  /** Key wrapping accepts the wrapping of a key of the content algorithm's length. */
  lemma WrappingExactly(cr: Crypto, kek: seq<byte>, h: Header, encryptedKey: seq<byte>, cek: seq<byte>)
    requires AesLaw(cr) && |kek| == 32 && ContentKeyLen(h.enc) != 0
    ensures UnwrapKey(cr, KwUnwrapper(kek), h, encryptedKey) == Some(cek) <==>
      |cek| == ContentKeyLen(h.enc) && Wrapped(cr.aes, kek, cek) == Ok(encryptedKey)
  {
    KeySizes(h.enc);
    if Wrapped(cr.aes, kek, cek) == Ok(encryptedKey) {
      UnwrapInvertsWrap(cr.aes, kek, cek);
    }
    if UnwrapKey(cr, KwUnwrapper(kek), h, encryptedKey) == Some(cek) {
      OnlyWrappingsUnwrap(cr, kek, encryptedKey, ContentKeyLen(h.enc));
    }
  }

  lemma OaepExactly(cr: Crypto, key: seq<byte>, h: Header, encryptedKey: seq<byte>, cek: seq<byte>)
    ensures UnwrapKey(cr, OaepUnwrapper(key), h, encryptedKey) == Some(cek) <==>
      |cek| == ContentKeyLen(h.enc) && cr.oaepDecrypt(key, encryptedKey) == Some(cek)
  {
  }

  // ---- Names and sizes -------------------------------------------------------------

  /** Sections 4.1 and 5.1 of RFC 7518: which key serves which "alg", and the key sizes of each "enc". */
  lemma RegisteredNames(alg: string, enc: string, cek: seq<byte>, kek: seq<byte>, crv: string, d: nat, key: seq<byte>)
    ensures Supports(DirectUnwrapper(cek), alg) <==> alg == "dir"
    ensures Supports(KwUnwrapper(kek), alg) <==> alg == "A256KW"
    ensures Supports(EcdhUnwrapper(crv, d), alg) <==> alg == "ECDH-ES" || alg == "ECDH-ES+A256KW"
    ensures Supports(OaepUnwrapper(key), alg) <==> alg == "RSA-OAEP-256"
    ensures ContentKeyLen(enc) == 16 <==> enc == "A128GCM"
    ensures ContentKeyLen(enc) == 24 <==> enc == "A192GCM"
    ensures ContentKeyLen(enc) == 32 <==> enc == "A256GCM"
    ensures ContentKeyLen(enc) in {0, 16, 24, 32}
  {
  }
}
