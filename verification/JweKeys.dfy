/**
 Key management for JWE (section 4 of RFC 7518): how the content-encryption key is chosen, sent
 and recovered in each mode. Primitives are parameters, with the laws a caller relies on.
 */
module JweKeys {
  import opened Wrappers
  import opened Bytes
  import opened Keys
  import opened AesKeyWrap
  import opened ConcatKdf
  import opened JweHeaders
  import opened JsonTrees
  import opened Utf8
  import KeyJson
  import B64

  const TAG_SIZE: nat := 16
  const IV_SIZE: nat := 12

  /** A ciphertext with its tag. */
  type Sealed = b: seq<byte> | |b| >= TAG_SIZE witness seq(TAG_SIZE, _ => 0)

  datatype Point = Point(x: seq<byte>, y: seq<byte>)

  /**
   `agree` is raw ECDH with a private scalar; `publicPoint` its public half. RSA keys are named by
   octet strings. `writeJson` and `readJson` are the header codec.
   */
  datatype Crypto = Crypto(
    aes: Aes,
    gcmSeal: (seq<byte>, seq<byte>, seq<byte>, string) -> Sealed,
    gcmOpen: (seq<byte>, seq<byte>, seq<byte>, string) -> Option<seq<byte>>,
    sha256: seq<byte> -> Digest,
    isScalar: (string, nat) -> bool,
    isOnCurve: (string, Point) -> bool,
    publicPoint: (string, nat) -> Point,
    agree: (string, nat, Point) -> Option<seq<byte>>,
    isRsaKey: seq<byte> -> bool,
    rsaPublic: seq<byte> -> seq<byte>,
    oaepEncrypt: (seq<byte>, seq<byte>, seq<byte>) -> Option<seq<byte>>,
    oaepDecrypt: (seq<byte>, seq<byte>) -> Option<seq<byte>>,
    writeJson: map<string, Json> -> seq<byte>,
    readJson: seq<byte> -> Option<map<string, Json>>)

  /** AES is a permutation of blocks for each key. */
  ghost predicate AesLaw(cr: Crypto) {
    forall k :: ValidKeySize(k) ==> Permutation(cr.aes(k))
  }

  /** Opening takes back sealing, and opens nothing else. */
  ghost predicate AeadLaw(cr: Crypto) {
    && (forall k, iv, p, aad :: ValidKeySize(k) && |iv| == IV_SIZE ==>
          |cr.gcmSeal(k, iv, p, aad)| == |p| + TAG_SIZE && cr.gcmOpen(k, iv, cr.gcmSeal(k, iv, p, aad), aad) == Some(p))
    && (forall k, iv, c, aad :: ValidKeySize(k) && |iv| == IV_SIZE && cr.gcmOpen(k, iv, c, aad).Some? ==>
          c == cr.gcmSeal(k, iv, cr.gcmOpen(k, iv, c, aad).value, aad))
  }

  /** Both ends agree, and a public point is a full-width point of its curve. */
  ghost predicate AgreementLaw(cr: Crypto) {
    forall crv, d, e :: CurveSize(crv).Some? && cr.isScalar(crv, d) && cr.isScalar(crv, e) ==>
      && cr.agree(crv, d, cr.publicPoint(crv, e)).Some?
      && cr.agree(crv, d, cr.publicPoint(crv, e)) == cr.agree(crv, e, cr.publicPoint(crv, d))
      && cr.isOnCurve(crv, cr.publicPoint(crv, d))
      && |cr.publicPoint(crv, d).x| == CurveSize(crv).value && |cr.publicPoint(crv, d).y| == CurveSize(crv).value
  }

  /** A usable RSA key takes any content-encryption key, 32 octets at most. */
  ghost predicate OaepLaw(cr: Crypto) {
    forall d, seed, m :: cr.isRsaKey(d) && |m| <= 32 ==>
      && cr.oaepEncrypt(cr.rsaPublic(d), seed, m).Some?
      && cr.oaepDecrypt(d, cr.oaepEncrypt(cr.rsaPublic(d), seed, m).value) == Some(m)
  }

  /** Members made of texts read back with each text mended, and valid text as it was. */
  ghost predicate CodecLaw(cr: Crypto) {
    forall m :: IsTextTree(JObject(m)) ==> cr.readJson(cr.writeJson(m)) == Some(MendedMembers(m))
  }

  ghost predicate Laws(cr: Crypto) {
    AesLaw(cr) && AeadLaw(cr) && AgreementLaw(cr) && OaepLaw(cr) && CodecLaw(cr)
  }

  const DIRECT := "dir"
  const A256KW := "A256KW"
  const ECDH_ES := "ECDH-ES"
  const ECDH_ES_A256KW := "ECDH-ES+A256KW"
  const RSA_OAEP_256 := "RSA-OAEP-256"

  function ContentKeyLen(enc: string): nat {
    if enc == "A128GCM" then 16
    else if enc == "A192GCM" then 24
    else if enc == "A256GCM" then 32
    else 0
  }

  datatype JweError = MalformedKey | UnsupportedAlgorithm | UnsupportedCritical | KeyAgreement | KeyWrap(e: KeyWrapError)
    | OaepFailed | NotServable | BadKeySize | DecryptionFailed

  datatype KeyWrapper =
    | DirectWrapper(cek: seq<byte>)
    | KwWrapper(kek: seq<byte>)
    | EcdhWrapper(crv: string, pub: Point, alg: string)
    | OaepWrapper(rsaPub: seq<byte>)

  datatype KeyUnwrapper =
    | DirectUnwrapper(cek: seq<byte>)
    | KwUnwrapper(kek: seq<byte>)
    | EcdhUnwrapper(crv: string, scalar: nat)
    | OaepUnwrapper(rsaKey: seq<byte>)

  /** What crypto/rand yields during one encryption. */
  datatype Coins = Coins(cek: seq<byte>, ephemeral: nat, seed: seq<byte>, iv: seq<byte>)

  function KeyAlg(w: KeyWrapper): string {
    match w
    case DirectWrapper(_) => DIRECT
    case KwWrapper(_) => A256KW
    case EcdhWrapper(_, _, alg) => alg
    case OaepWrapper(_) => RSA_OAEP_256
  }

  predicate Supports(u: KeyUnwrapper, alg: string) {
    match u
    case DirectUnwrapper(_) => alg == DIRECT
    case KwUnwrapper(_) => alg == A256KW
    case EcdhUnwrapper(_, _) => alg == ECDH_ES || alg == ECDH_ES_A256KW
    case OaepUnwrapper(_) => alg == RSA_OAEP_256
  }

  /** FromECDSAPublicKey without a key ID. */
  function EcKey(crv: string, p: Point): Key {
    Key(EC, "", "", [], "", [], [], crv, p.x, p.y, [])
  }

  /** PublicKey, as far as it yields an ECDSA key. */
  function EcPoint(cr: Crypto, k: Key): Option<(string, Point)> {
    if k.kty != EC || CurveSize(k.crv).None? then None
    else if |k.x| != CurveSize(k.crv).value || |k.y| != CurveSize(k.crv).value then None
    else if !cr.isOnCurve(k.crv, Point(k.x, k.y)) then None
    else Some((k.crv, Point(k.x, k.y)))
  }

  datatype KeyParts = KeyParts(epk: Option<Key>, cek: seq<byte>, encryptedKey: seq<byte>)

  function WrapUnder(cr: Crypto, kek: seq<byte>, cek: seq<byte>, epk: Option<Key>): Result<KeyParts, JweError> {
    match Wrapped(cr.aes, kek, cek)
    case Err(e) => Err(KeyWrap(e))
    case Ok(encryptedKey) => Ok(KeyParts(epk, cek, encryptedKey))
  }

  /** The agreed secret of one side, as a key. */
  function AgreedKey(cr: Crypto, z: seq<byte>, alg: string, apu: seq<byte>, apv: seq<byte>, size: nat): (key: seq<byte>)
    requires size <= 32
    ensures |key| == size
  {
    Derived(cr.sha256, z, OctetsOf(alg), apu, apv, size * 8)
  }

  function WrapKey(cr: Crypto, w: KeyWrapper, enc: string, coins: Coins): Result<KeyParts, JweError> {
    var cekLen := ContentKeyLen(enc);
    match w
    case DirectWrapper(cek) => if |cek| != cekLen then Err(JweError.MalformedKey) else Ok(KeyParts(None, cek, []))
    case KwWrapper(kek) => WrapUnder(cr, kek, coins.cek, None)
    case EcdhWrapper(crv, pub, alg) =>
      (match cr.agree(crv, coins.ephemeral, pub)
       case None => Err(KeyAgreement)
       case Some(z) =>
         var epk := Some(EcKey(crv, cr.publicPoint(crv, coins.ephemeral)));
         if alg == ECDH_ES then Ok(KeyParts(epk, AgreedKey(cr, z, enc, [], [], cekLen), []))
         else if alg == ECDH_ES_A256KW then WrapUnder(cr, AgreedKey(cr, z, alg, [], [], 32), coins.cek, epk)
         else Err(UnsupportedAlgorithm))
    case OaepWrapper(pub) =>
      (match cr.oaepEncrypt(pub, coins.seed, coins.cek)
       case None => Err(OaepFailed)
       case Some(encryptedKey) => Ok(KeyParts(None, coins.cek, encryptedKey)))
  }

  function PartyInfo(s: string): Option<seq<byte>> {
    if s == "" then Some([]) else B64.Decode(s)
  }

  /** decodePartyInfo: both parties may be named, but not alike. */
  function PartyInfos(h: Header): Option<(seq<byte>, seq<byte>)> {
    var apu, apv := PartyInfo(h.apu), PartyInfo(h.apv);
    if apu.None? || apv.None? then None
    else if h.apuPresent && h.apvPresent && apu.value == apv.value then None
    else Some((apu.value, apv.value))
  }

  function UnwrapUnder(cr: Crypto, kek: seq<byte>, encryptedKey: seq<byte>, cekLen: nat): Option<seq<byte>> {
    match Unwrapped(cr.aes, kek, encryptedKey)
    case Err(_) => None
    case Ok(cek) => if |cek| != cekLen then None else Some(cek)
  }

  /** The recipient's side of the agreement with the header's ephemeral key. */
  function AgreedSecret(cr: Crypto, crv: string, scalar: nat, h: Header): Option<seq<byte>> {
    if h.epk.None? || PartyInfos(h).None? then None
    else
      match EcPoint(cr, h.epk.value)
      case None => None
      case Some((epkCrv, point)) => if epkCrv != crv then None else cr.agree(crv, scalar, point)
  }

  function UnwrapKey(cr: Crypto, u: KeyUnwrapper, h: Header, encryptedKey: seq<byte>): Option<seq<byte>> {
    var cekLen := ContentKeyLen(h.enc);
    match u
    case DirectUnwrapper(cek) => if encryptedKey != [] || |cek| != cekLen then None else Some(cek)
    case KwUnwrapper(kek) => if |encryptedKey| != cekLen + 8 then None else UnwrapUnder(cr, kek, encryptedKey, cekLen)
    case EcdhUnwrapper(crv, scalar) =>
      if h.alg == ECDH_ES_A256KW && |encryptedKey| != cekLen + 8 then None
      else
        (match AgreedSecret(cr, crv, scalar, h)
         case None => None
         case Some(z) =>
           var (apu, apv) := PartyInfos(h).value;
           if h.alg == ECDH_ES then
             if encryptedKey != [] then None else Some(AgreedKey(cr, z, h.enc, apu, apv, cekLen))
           else if h.alg == ECDH_ES_A256KW then
             UnwrapUnder(cr, AgreedKey(cr, z, h.alg, apu, apv, 32), encryptedKey, cekLen)
           else None)
    case OaepUnwrapper(key) =>
      (match cr.oaepDecrypt(key, encryptedKey)
       case None => None
       case Some(cek) => if |cek| != cekLen then None else Some(cek))
  }

  // ---- The two sides of one key ----------------------------------------------------

  /** The wrapper was given the public or shared half of the unwrapper's key. */
  predicate Matching(cr: Crypto, w: KeyWrapper, u: KeyUnwrapper) {
    match (w, u)
    case (DirectWrapper(a), DirectUnwrapper(b)) => a == b
    case (KwWrapper(a), KwUnwrapper(b)) => a == b
    case (EcdhWrapper(crv, pub, _), EcdhUnwrapper(crv', d)) => crv == crv' && cr.isScalar(crv, d) && pub == cr.publicPoint(crv, d)
    case (OaepWrapper(pub), OaepUnwrapper(key)) => cr.isRsaKey(key) && pub == cr.rsaPublic(key)
    case _ => false
  }

  /** What the constructors of the four encrypters accept; the point and RSA checks are in Matching. */
  predicate Constructed(w: KeyWrapper, enc: string) {
    && ContentKeyLen(enc) != 0
    && match w
       case DirectWrapper(cek) => |cek| == ContentKeyLen(enc)
       case KwWrapper(kek) => |kek| == 32
       case EcdhWrapper(crv, _, alg) => CurveSize(crv).Some? && (alg == ECDH_ES || alg == ECDH_ES_A256KW)
       case OaepWrapper(_) => true
  }

  /** Randomness of the right shape. */
  predicate Fits(cr: Crypto, coins: Coins, w: KeyWrapper, enc: string) {
    && |coins.cek| == ContentKeyLen(enc) && |coins.iv| == IV_SIZE
    && (w.EcdhWrapper? ==> cr.isScalar(w.crv, coins.ephemeral))
  }

  lemma KeySizes(enc: string)
    requires ContentKeyLen(enc) != 0
    ensures 16 <= ContentKeyLen(enc) <= 32 && ContentKeyLen(enc) % 8 == 0
  {
  }

  lemma WrappedUnderUnwraps(cr: Crypto, kek: seq<byte>, cek: seq<byte>, epk: Option<Key>)
    requires AesLaw(cr) && |kek| == 32 && 16 <= |cek| && |cek| % 8 == 0
    ensures
      var r := WrapUnder(cr, kek, cek, epk);
      && r.Ok? && r.value.epk == epk && r.value.cek == cek
      && |r.value.encryptedKey| == |cek| + 8 && UnwrapUnder(cr, kek, r.value.encryptedKey, |cek|) == Some(cek)
  {
    assert ValidKeySize(kek);
    UnwrapInvertsWrap(cr.aes, kek, cek);
  }

  /** The header fields a wrapper's key parts complete. */
  predicate Carries(h: Header, w: KeyWrapper, enc: string, parts: KeyParts) {
    h.alg == KeyAlg(w) && h.enc == enc && h.epk == parts.epk && h.apu == "" && h.apv == "" && !h.apuPresent && !h.apvPresent
  }

  lemma EpkIsUsable(cr: Crypto, crv: string, e: nat)
    requires AgreementLaw(cr) && CurveSize(crv).Some? && cr.isScalar(crv, e)
    ensures
      var k := EcKey(crv, cr.publicPoint(crv, e));
      EcPoint(cr, k) == Some((crv, cr.publicPoint(crv, e))) && WritableKey(k)
  {
    assert cr.isOnCurve(crv, cr.publicPoint(crv, e));
  }

  /** An EC key from a point is written in ASCII. */
  lemma EcKeyIsAscii(crv: string, p: Point)
    requires CurveSize(crv).Some?
    ensures IsAsciiTree(JObject(KeyJson.KeyMembers(EcKey(crv, p)).value))
  {
    var k := EcKey(crv, p);
    var m := KeyJson.KeyMembers(k).value;
    forall name | name in m
      ensures Ascii(name) && IsAsciiTree(m[name])
    {
      assert At(m, name) == if name in KeyJson.NAMES then KeyJson.MemberOf(k, name) else None;
      KeyNameIsAscii(name);
      EcMemberIsAscii(crv, p, name);
    }
  }

  lemma KeyNameIsAscii(name: string)
    requires name in KeyJson.NAMES
    ensures Ascii(name)
  {
  }

  lemma EcMemberIsAscii(crv: string, p: Point, name: string)
    requires CurveSize(crv).Some?
    ensures var j := KeyJson.MemberOf(EcKey(crv, p), name); j.Some? ==> IsAsciiTree(j.value)
  {
    CurveIsAscii(crv);
    EncodedIsAscii(p.x);
    EncodedIsAscii(p.y);
    B64.SextetCount([]);
  }

  lemma CurveIsAscii(crv: string)
    requires CurveSize(crv).Some?
    ensures Ascii(EC) && Ascii(crv)
  {
  }

  lemma EncodedIsAscii(b: seq<byte>)
    ensures Ascii(B64.Encode(b))
  {
    B64.DecodeTextOfEncode(true, b);
  }

  lemma SecretsAgree(cr: Crypto, crv: string, d: nat, e: nat, h: Header)
    requires AgreementLaw(cr) && CurveSize(crv).Some? && cr.isScalar(crv, d) && cr.isScalar(crv, e)
    requires h.epk == Some(EcKey(crv, cr.publicPoint(crv, e)))
    requires h.apu == "" && h.apv == "" && !h.apuPresent
    ensures cr.agree(crv, e, cr.publicPoint(crv, d)).Some?
    ensures AgreedSecret(cr, crv, d, h) == cr.agree(crv, e, cr.publicPoint(crv, d))
    ensures PartyInfos(h) == Some(([], []))
  {
    EpkIsUsable(cr, crv, e);
    assert cr.agree(crv, d, cr.publicPoint(crv, e)).Some?;
  }

  /** What EcdhWrapper writes: the ephemeral key, and the key parts of its algorithm. */
  lemma EcdhParts(cr: Crypto, w: KeyWrapper, enc: string, coins: Coins, z: seq<byte>)
    requires w.EcdhWrapper? && Constructed(w, enc) && cr.agree(w.crv, coins.ephemeral, w.pub) == Some(z)
    ensures
      var epk := Some(EcKey(w.crv, cr.publicPoint(w.crv, coins.ephemeral)));
      WrapKey(cr, w, enc, coins) ==
        if w.alg == ECDH_ES then Ok(KeyParts(epk, AgreedKey(cr, z, enc, [], [], ContentKeyLen(enc)), []))
        else WrapUnder(cr, AgreedKey(cr, z, ECDH_ES_A256KW, [], [], 32), coins.cek, epk)
  {
  }

  lemma EcdhDirectUnwraps(cr: Crypto, u: KeyUnwrapper, h: Header, z: seq<byte>)
    requires u.EcdhUnwrapper? && AgreedSecret(cr, u.crv, u.scalar, h) == Some(z) && PartyInfos(h) == Some(([], []))
    requires h.alg == ECDH_ES
    ensures UnwrapKey(cr, u, h, []) == Some(AgreedKey(cr, z, h.enc, [], [], ContentKeyLen(h.enc)))
  {
  }

  lemma EcdhWrappedUnwraps(cr: Crypto, u: KeyUnwrapper, h: Header, z: seq<byte>, encryptedKey: seq<byte>)
    requires u.EcdhUnwrapper? && AgreedSecret(cr, u.crv, u.scalar, h) == Some(z) && PartyInfos(h) == Some(([], []))
    requires h.alg == ECDH_ES_A256KW && |encryptedKey| == ContentKeyLen(h.enc) + 8
    ensures UnwrapKey(cr, u, h, encryptedKey) ==
      UnwrapUnder(cr, AgreedKey(cr, z, h.alg, [], [], 32), encryptedKey, ContentKeyLen(h.enc))
  {
  }

  lemma EcdhUndone(cr: Crypto, w: KeyWrapper, u: KeyUnwrapper, enc: string, coins: Coins, h: Header)
    requires AesLaw(cr) && AgreementLaw(cr) && Constructed(w, enc) && Matching(cr, w, u) && Fits(cr, coins, w, enc) && w.EcdhWrapper?
    ensures
      var r := WrapKey(cr, w, enc, coins);
      && r.Ok? && |r.value.cek| == ContentKeyLen(enc)
      && r.value.epk == Some(EcKey(w.crv, cr.publicPoint(w.crv, coins.ephemeral)))
      && (Carries(h, w, enc, r.value) ==> UnwrapKey(cr, u, h, r.value.encryptedKey) == Some(r.value.cek))
  {
    KeySizes(enc);
    var epk := Some(EcKey(w.crv, cr.publicPoint(w.crv, coins.ephemeral)));
    SecretsAgree(cr, w.crv, u.scalar, coins.ephemeral, Header(w.alg, enc, "", "", "", epk, "", "", false, false));
    var z := cr.agree(w.crv, coins.ephemeral, w.pub).value;
    EcdhParts(cr, w, enc, coins, z);
    WrappedUnderUnwraps(cr, AgreedKey(cr, z, ECDH_ES_A256KW, [], [], 32), coins.cek, epk);
    var r := WrapKey(cr, w, enc, coins);
    if Carries(h, w, enc, r.value) {
      SecretsAgree(cr, w.crv, u.scalar, coins.ephemeral, h);
      if w.alg == ECDH_ES {
        EcdhDirectUnwraps(cr, u, h, z);
      } else {
        EcdhWrappedUnwraps(cr, u, h, z, r.value.encryptedKey);
      }
    }
  }

  /** In every mode, the recipient recovers the sender's content-encryption key. */
  lemma UnwrapUndoesWrap(cr: Crypto, w: KeyWrapper, u: KeyUnwrapper, enc: string, coins: Coins, h: Header)
    requires Laws(cr) && Constructed(w, enc) && Matching(cr, w, u) && Fits(cr, coins, w, enc)
    ensures
      var r := WrapKey(cr, w, enc, coins);
      && r.Ok? && |r.value.cek| == ContentKeyLen(enc)
      && (r.value.epk.Some? ==>
            WritableKey(r.value.epk.value) && IsAsciiTree(JObject(KeyJson.KeyMembers(r.value.epk.value).value)))
      && (Carries(h, w, enc, r.value) ==> UnwrapKey(cr, u, h, r.value.encryptedKey) == Some(r.value.cek))
  {
    KeySizes(enc);
    match w
    case DirectWrapper(_) =>
    case KwWrapper(kek) => WrappedUnderUnwraps(cr, kek, coins.cek, None);
    case EcdhWrapper(crv, _, _) =>
      EcdhUndone(cr, w, u, enc, coins, h);
      EpkIsUsable(cr, crv, coins.ephemeral);
      EcKeyIsAscii(crv, cr.publicPoint(crv, coins.ephemeral));
    case OaepWrapper(_) =>
  }

  /** Where a key is wrapped, the recipient accepts no octets but the wrapping of the key it recovers. */
  lemma OnlyWrappingsUnwrap(cr: Crypto, kek: seq<byte>, encryptedKey: seq<byte>, cekLen: nat)
    requires AesLaw(cr) && |kek| == 32 && UnwrapUnder(cr, kek, encryptedKey, cekLen).Some?
    ensures Wrapped(cr.aes, kek, UnwrapUnder(cr, kek, encryptedKey, cekLen).value) == Ok(encryptedKey)
  {
    assert ValidKeySize(kek);
    WrapInvertsUnwrap(cr.aes, kek, encryptedKey);
  }
}
