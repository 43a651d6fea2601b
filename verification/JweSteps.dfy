/**
 The JWE code as it runs: a header variable that wrap and the header check fill in through a
 pointer, and the key-wrap loops and KDF buffers underneath.
 */
module JweSteps {
  import opened Wrappers
  import opened Bytes
  import opened Strings
  import opened JsonTrees
  import opened JweHeaders
  import opened JweKeys
  import opened Jwe
  import AesKeyWrap
  import Keys
  import ConcatKdf
  import B64

  class HeaderVar {
    var value: Header

    constructor (h: Header)
      ensures value == h
    {
      value := h;
    }
  }

  method DeriveKey(cr: Crypto, z: seq<byte>, alg: string, apu: seq<byte>, apv: seq<byte>, size: nat) returns (key: seq<byte>)
    requires size <= 32
    ensures key == AgreedKey(cr, z, alg, apu, apv, size)
  {
    key := ConcatKdf.ConcatKDF(cr.sha256, z, OctetsOf(alg), apu, apv, size * 8);
  }

  method WrapCek(cr: Crypto, kek: seq<byte>, cek: seq<byte>, ghost epk: Option<Keys.Key>) returns (r: Result<(seq<byte>, seq<byte>), JweError>)
    ensures match WrapUnder(cr, kek, cek, epk)
            case Err(e) => r == Err(e)
            case Ok(parts) => r == Ok((parts.cek, parts.encryptedKey)) && parts.epk == epk
  {
    var wrapped := AesKeyWrap.Wrap(cr.aes, kek, cek);
    match wrapped {
      case Err(e) => r := Err(KeyWrap(e));
      case Ok(encryptedKey) => r := Ok((cek, encryptedKey));
    }
  }

  ghost function WithEpk(h: Header, epk: Option<Keys.Key>): Header {
    if epk.Some? then h.(epk := epk) else h
  }

  /** wrap of each key-management mode: the ephemeral key, if any, is put into the header. */
  method WrapInto(cr: Crypto, w: KeyWrapper, hdr: HeaderVar, coins: Coins) returns (r: Result<(seq<byte>, seq<byte>), JweError>)
    modifies hdr
    ensures match WrapKey(cr, w, old(hdr.value.enc), coins)
            case Err(e) => r == Err(e)
            case Ok(parts) => r == Ok((parts.cek, parts.encryptedKey)) && hdr.value == WithEpk(old(hdr.value), parts.epk)
  {
    var cekLen := ContentKeyLen(hdr.value.enc);
    match w {
      case DirectWrapper(cek) =>
        if |cek| != cekLen {
          return Err(JweError.MalformedKey);
        }
        return Ok((cek, []));
      case KwWrapper(kek) =>
        r := WrapCek(cr, kek, coins.cek, None);
      case EcdhWrapper(crv, pub, alg) =>
        var z := cr.agree(crv, coins.ephemeral, pub);
        if z.None? {
          return Err(KeyAgreement);
        }
        hdr.value := hdr.value.(epk := Some(EcKey(crv, cr.publicPoint(crv, coins.ephemeral))));
        if alg == ECDH_ES {
          var cek := DeriveKey(cr, z.value, hdr.value.enc, [], [], cekLen);
          return Ok((cek, []));
        } else if alg == ECDH_ES_A256KW {
          var kek := DeriveKey(cr, z.value, alg, [], [], 32);
          r := WrapCek(cr, kek, coins.cek, hdr.value.epk);
        } else {
          return Err(UnsupportedAlgorithm);
        }
      case OaepWrapper(pub) =>
        match cr.oaepEncrypt(pub, coins.seed, coins.cek) {
          case None => r := Err(OaepFailed);
          case Some(encryptedKey) => r := Ok((coins.cek, encryptedKey));
        }
    }
  }

  method UnwrapCek(cr: Crypto, kek: seq<byte>, encryptedKey: seq<byte>, cekLen: nat) returns (r: Option<seq<byte>>)
    ensures r == UnwrapUnder(cr, kek, encryptedKey, cekLen)
  {
    var cek := AesKeyWrap.Unwrap(cr.aes, kek, encryptedKey);
    if cek.Err? || |cek.value| != cekLen {
      return None;
    }
    r := Some(cek.value);
  }

  method UnwrapAgreed(cr: Crypto, u: KeyUnwrapper, h: Header, encryptedKey: seq<byte>) returns (r: Option<seq<byte>>)
    requires u.EcdhUnwrapper?
    ensures r == UnwrapKey(cr, u, h, encryptedKey)
  {
    var cekLen := ContentKeyLen(h.enc);
    if h.alg == ECDH_ES_A256KW && |encryptedKey| != cekLen + 8 {
      return None;
    }
    var z := AgreedSecret(cr, u.crv, u.scalar, h);
    if z.None? {
      return None;
    }
    var (apu, apv) := PartyInfos(h).value;
    if h.alg == ECDH_ES {
      if encryptedKey != [] {
        return None;
      }
      var cek := DeriveKey(cr, z.value, h.enc, apu, apv, cekLen);
      r := Some(cek);
    } else if h.alg == ECDH_ES_A256KW {
      var kek := DeriveKey(cr, z.value, h.alg, apu, apv, 32);
      r := UnwrapCek(cr, kek, encryptedKey, cekLen);
    } else {
      r := None;
    }
  }

  method Unwrap(cr: Crypto, u: KeyUnwrapper, h: Header, encryptedKey: seq<byte>) returns (r: Option<seq<byte>>)
    ensures r == UnwrapKey(cr, u, h, encryptedKey)
  {
    var cekLen := ContentKeyLen(h.enc);
    match u {
      case DirectUnwrapper(cek) =>
        if |encryptedKey| != 0 || |cek| != cekLen {
          return None;
        }
        r := Some(cek);
      case KwUnwrapper(kek) =>
        if |encryptedKey| != cekLen + 8 {
          return None;
        }
        r := UnwrapCek(cr, kek, encryptedKey, cekLen);
      case EcdhUnwrapper(_, _) =>
        r := UnwrapAgreed(cr, u, h, encryptedKey);
      case OaepUnwrapper(key) =>
        var cek := cr.oaepDecrypt(key, encryptedKey);
        if cek.None? || |cek.value| != cekLen {
          return None;
        }
        r := cek;
    }
  }

  method Encrypt(cr: Crypto, e: Encrypter, cfg: EncryptConfig, coins: Coins, plaintext: seq<byte>) returns (r: Result<string, JweError>)
    ensures r == Encrypted(cr, e, cfg, coins, plaintext)
  {
    var hdr := new HeaderVar(HeaderOf(e, cfg, None));
    var keys := WrapInto(cr, e.wrapper, hdr, coins);
    if keys.Err? {
      return Err(keys.error);
    }
    var (cek, encryptedKey) := keys.value;
    var m := HeaderMembers(hdr.value);
    if m.None? {
      return Err(NotServable);
    }
    var protected := B64.Encode(cr.writeJson(m.value));
    if !AesKeyWrap.ValidKeySize(cek) {
      return Err(JweError.BadKeySize);
    }
    var sealed := cr.gcmSeal(cek, coins.iv, plaintext, protected);
    r := Ok(Framed(protected, encryptedKey, coins.iv, sealed));
  }

  /** The loop over the private member names. */
  method PrivatePart(members: map<string, Json>) returns (found: bool)
    ensures found == NamesPrivatePart(members)
  {
    for i := 0 to |PRIVATE_NAMES|
      invariant forall j :: 0 <= j < i ==> PRIVATE_NAMES[j] !in members
    {
      if PRIVATE_NAMES[i] in members {
        return true;
      }
    }
    found := false;
  }

  method VetMembers(m: map<string, Json>, hdr: HeaderVar) returns (r: Option<JweError>)
    modifies hdr
    ensures match Vetted(m)
            case Err(e) => r == Some(e)
            case Ok(h) => r == None && hdr.value == h
  {
    var h := HeaderFrom(m);
    if h.None? || h.value.alg == "" || h.value.enc == "" || "zip" in m {
      return Some(JweError.DecryptionFailed);
    }
    hdr.value := h.value;
    if "epk" in m {
      if !m["epk"].JObject? {
        return Some(JweError.DecryptionFailed);
      }
      var private := PrivatePart(m["epk"].members);
      if private {
        return Some(JweError.DecryptionFailed);
      }
    }
    if "crit" in m {
      return Some(UnsupportedCritical);
    }
    r := None;
  }

  method ParseJweProtected(cr: Crypto, compact: string, hdr: HeaderVar) returns (r: Result<Parts, JweError>)
    modifies hdr
    ensures match ParseProtected(cr, compact)
            case Err(e) => r == Err(e)
            case Ok((parts, h)) => r == Ok(parts) && hdr.value == h
  {
    var parts := SplitOn(compact, '.');
    if |compact| > MAX_TOKEN_BYTES || |parts| != 5 {
      return Err(JweError.DecryptionFailed);
    }
    var protectedJson := B64.Decode(parts[0]);
    if protectedJson.None? {
      return Err(JweError.DecryptionFailed);
    }
    var m := cr.readJson(protectedJson.value);
    if m.None? {
      return Err(JweError.DecryptionFailed);
    }
    var bad := VetMembers(m.value, hdr);
    if bad.Some? {
      return Err(bad.value);
    }
    r := Ok(Parts(parts[0], parts[1], parts[2], parts[3], parts[4]));
  }

  method Decrypt(cr: Crypto, d: Decrypter, compact: string) returns (r: Option<seq<byte>>)
    ensures r == Decrypted(cr, d, compact)
  {
    var hdr := new HeaderVar(Header("", "", "", "", "", None, "", "", false, false));
    var parsed := ParseJweProtected(cr, compact, hdr);
    if parsed.Err? {
      return None;
    }
    var h, parts := hdr.value, parsed.value;
    if d.kid != "" && h.kid != "" && d.kid != h.kid {
      return None;
    }
    if ContentKeyLen(h.enc) == 0 || !Supports(d.unwrapper, h.alg) {
      return None;
    }
    var encryptedKey, iv := B64.Decode(parts.encryptedKey), B64.Decode(parts.iv);
    var ciphertext, tag := B64.Decode(parts.ciphertext), B64.Decode(parts.tag);
    if encryptedKey.None? || iv.None? || ciphertext.None? || tag.None? {
      return None;
    }
    var cek := Unwrap(cr, d.unwrapper, h, encryptedKey.value);
    if cek.None? {
      return None;
    }
    r := Opened(cr, cek.value, iv.value, ciphertext.value, tag.value, parts.protected);
  }
}
