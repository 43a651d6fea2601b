/** Compact JWE (section 7.1 of RFC 7516): encryption, the vetting of the header, and decryption. */
module Jwe {
  import opened Wrappers
  import opened Bytes
  import opened Strings
  import opened JsonTrees
  import opened JweHeaders
  import opened JweKeys
  import opened Utf8
  import AesKeyWrap
  import Keys
  import Compact
  import B64

  const MAX_TOKEN_BYTES: nat := 0x10_0000

  datatype Encrypter = Encrypter(enc: string, kid: string, wrapper: KeyWrapper)
  datatype Decrypter = Decrypter(kid: string, unwrapper: KeyUnwrapper)
  datatype EncryptConfig = EncryptConfig(typ: string, cty: string)

  // ---- Encryption ------------------------------------------------------------------

  function HeaderOf(e: Encrypter, cfg: EncryptConfig, epk: Option<Keys.Key>): Header {
    Header(KeyAlg(e.wrapper), e.enc, e.kid, cfg.typ, cfg.cty, epk, "", "", false, false)
  }

  /** The five segments joined: ciphertext and tag are cut apart. */
  function Framed(protected: string, encryptedKey: seq<byte>, iv: seq<byte>, sealed: Sealed): string {
    var n := |sealed| - TAG_SIZE;
    JoinWith([protected, B64.Encode(encryptedKey), B64.Encode(iv), B64.Encode(sealed[..n]), B64.Encode(sealed[n..])], '.')
  }

  function SealedToken(cr: Crypto, h: Header, parts: KeyParts, iv: seq<byte>, plaintext: seq<byte>): Result<string, JweError> {
    match HeaderMembers(h)
    case None => Err(NotServable)
    case Some(m) =>
      var protected := B64.Encode(cr.writeJson(m));
      if !AesKeyWrap.ValidKeySize(parts.cek) then Err(JweError.BadKeySize)
      else Ok(Framed(protected, parts.encryptedKey, iv, cr.gcmSeal(parts.cek, iv, plaintext, protected)))
  }

  function Encrypted(cr: Crypto, e: Encrypter, cfg: EncryptConfig, coins: Coins, plaintext: seq<byte>): Result<string, JweError> {
    match WrapKey(cr, e.wrapper, e.enc, coins)
    case Err(error) => Err(error)
    case Ok(parts) => SealedToken(cr, HeaderOf(e, cfg, parts.epk), parts, coins.iv, plaintext)
  }

  // ---- Decryption ------------------------------------------------------------------

  /** The checks on the decoded header's members, in order. */
  function Vetted(m: map<string, Json>): Result<Header, JweError> {
    match HeaderFrom(m)
    case None => Err(JweError.DecryptionFailed)
    case Some(h) =>
      if h.alg == "" || h.enc == "" || "zip" in m || !EpkIsPublic(m) then Err(JweError.DecryptionFailed)
      else if "crit" in m then Err(UnsupportedCritical)
      else Ok(h)
  }

  datatype Parts = Parts(protected: string, encryptedKey: string, iv: string, ciphertext: string, tag: string)

  /** The header in the first segment. */
  function HeaderIn(cr: Crypto, protected: string): Result<Header, JweError> {
    match B64.Decode(protected)
    case None => Err(JweError.DecryptionFailed)
    case Some(protectedJson) =>
      match cr.readJson(protectedJson)
      case None => Err(JweError.DecryptionFailed)
      case Some(m) => Vetted(m)
  }

  function ParseProtected(cr: Crypto, compact: string): Result<(Parts, Header), JweError> {
    var parts := SplitOn(compact, '.');
    if |compact| > MAX_TOKEN_BYTES || |parts| != 5 then Err(JweError.DecryptionFailed)
    else
      match HeaderIn(cr, parts[0])
      case Err(e) => Err(e)
      case Ok(h) => Ok((Parts(parts[0], parts[1], parts[2], parts[3], parts[4]), h))
  }

  /** Two key IDs conflict only when both are given. */
  predicate KidsAgree(a: string, b: string) {
    a == "" || b == "" || a == b
  }

  function Opened(cr: Crypto, cek: seq<byte>, iv: seq<byte>, ciphertext: seq<byte>, tag: seq<byte>, aad: string): Option<seq<byte>> {
    if !AesKeyWrap.ValidKeySize(cek) || |iv| != IV_SIZE || |tag| != TAG_SIZE then None
    else cr.gcmOpen(cek, iv, ciphertext + tag, aad)
  }

  /** Every failure is the same one, so there is only a plaintext or none. */
  function Decrypted(cr: Crypto, d: Decrypter, compact: string): Option<seq<byte>> {
    match ParseProtected(cr, compact)
    case Err(_) => None
    case Ok((parts, h)) =>
      if !KidsAgree(d.kid, h.kid) || ContentKeyLen(h.enc) == 0 || !Supports(d.unwrapper, h.alg) then None
      else
        match (B64.Decode(parts.encryptedKey), B64.Decode(parts.iv), B64.Decode(parts.ciphertext), B64.Decode(parts.tag))
        case (Some(encryptedKey), Some(iv), Some(ciphertext), Some(tag)) =>
          (match UnwrapKey(cr, d.unwrapper, h, encryptedKey)
           case None => None
           case Some(cek) => Opened(cr, cek, iv, ciphertext, tag, parts.protected))
        case _ => None
  }

  // ---- Framing ---------------------------------------------------------------------

  lemma FramedSplits(protected: string, encryptedKey: seq<byte>, iv: seq<byte>, sealed: Sealed)
    requires Lacks(protected, '.')
    ensures
      var n := |sealed| - TAG_SIZE;
      SplitOn(Framed(protected, encryptedKey, iv, sealed), '.') ==
        [protected, B64.Encode(encryptedKey), B64.Encode(iv), B64.Encode(sealed[..n]), B64.Encode(sealed[n..])]
  {
    var n := |sealed| - TAG_SIZE;
    var parts := [protected, B64.Encode(encryptedKey), B64.Encode(iv), B64.Encode(sealed[..n]), B64.Encode(sealed[n..])];
    Compact.EncodedLacksDot(encryptedKey);
    Compact.EncodedLacksDot(iv);
    Compact.EncodedLacksDot(sealed[..n]);
    Compact.EncodedLacksDot(sealed[n..]);
    forall p | p in parts
      ensures Lacks(p, '.')
    {
    }
    SplitOfJoin(parts, '.');
  }

  lemma EncodedDecodes(b: seq<byte>)
    ensures B64.Decode(B64.Encode(b)) == Some(b)
  {
    B64.DecodeIsExactlyInverse(B64.Encode(b), b);
  }

  lemma VettedWriting(h: Header)
    requires Writable(h) && h.alg != "" && h.enc != ""
    ensures HeaderMembers(h).Some? && Vetted(HeaderMembers(h).value) == Ok(h)
  {
    HeaderRoundTrip(h);
    OtherMembersAbsent(h);
  }

  /** No member that would make the header mean something else, and no private part in the ephemeral key. */
  ghost predicate HarmlessMembers(m: map<string, Json>) {
    && "zip" !in m
    && ("epk" in m ==> m["epk"].JObject?)
    && ("epk" in m ==> forall name :: name in {"d", "k", "p", "q", "dp", "dq", "qi", "oth"} ==> name !in m["epk"].members)
  }

  lemma PrivateNamesExactly(members: map<string, Json>)
    ensures NamesPrivatePart(members) <==> exists name :: name in {"d", "k", "p", "q", "dp", "dq", "qi", "oth"} && name in members
  {
    if name :| name in {"d", "k", "p", "q", "dp", "dq", "qi", "oth"} && name in members {
      assert PRIVATE_NAMES[0] == "d" && PRIVATE_NAMES[1] == "k" && PRIVATE_NAMES[2] == "p" && PRIVATE_NAMES[3] == "q";
      assert PRIVATE_NAMES[4] == "dp" && PRIVATE_NAMES[5] == "dq" && PRIVATE_NAMES[6] == "qi" && PRIVATE_NAMES[7] == "oth";
    }
    if i :| 0 <= i < |PRIVATE_NAMES| && PRIVATE_NAMES[i] in members {
      assert PRIVATE_NAMES[i] in {"d", "k", "p", "q", "dp", "dq", "qi", "oth"};
    }
  }

  lemma EpkExactly(m: map<string, Json>)
    ensures EpkIsPublic(m) && "zip" !in m <==> HarmlessMembers(m)
  {
    if "epk" in m && m["epk"].JObject? {
      PrivateNamesExactly(m["epk"].members);
    }
  }

  /**
   A header is taken exactly when it decodes with "alg" and "enc" given, asks for no compression
   and no extension, and keeps private parts out of its ephemeral key. An extension is told apart.
   */
  lemma VettedExactly(m: map<string, Json>, h: Header)
    ensures Vetted(m) == Ok(h) <==>
      HeaderFrom(m) == Some(h) && h.alg != "" && h.enc != "" && HarmlessMembers(m) && "crit" !in m
    ensures Vetted(m) == Err(UnsupportedCritical) <==>
      HeaderFrom(m).Some? && HeaderFrom(m).value.alg != "" && HeaderFrom(m).value.enc != "" && HarmlessMembers(m) && "crit" in m
  {
    EpkExactly(m);
  }

  lemma HeaderInExactly(cr: Crypto, protected: string, h: Header)
    ensures HeaderIn(cr, protected) == Ok(h) <==>
      && B64.Decode(protected).Some?
      && var m := cr.readJson(B64.Decode(protected).value);
      m.Some? && HeaderFrom(m.value) == Some(h) && h.alg != "" && h.enc != "" && HarmlessMembers(m.value) && "crit" !in m.value
  {
    var json := B64.Decode(protected);
    if json.Some? && cr.readJson(json.value).Some? {
      VettedExactly(cr.readJson(json.value).value, h);
    }
  }

  predicate Segments(split: seq<string>, parts: Parts) {
    && |split| == 5 && split[0] == parts.protected && split[1] == parts.encryptedKey && split[2] == parts.iv
    && split[3] == parts.ciphertext && split[4] == parts.tag
  }

  lemma SegmentsListed(split: seq<string>, parts: Parts)
    ensures Segments(split, parts) <==> split == [parts.protected, parts.encryptedKey, parts.iv, parts.ciphertext, parts.tag]
  {
  }

  lemma ParsedSegments(cr: Crypto, compact: string, parts: Parts, h: Header)
    ensures ParseProtected(cr, compact) == Ok((parts, h)) <==>
      |compact| <= MAX_TOKEN_BYTES && Segments(SplitOn(compact, '.'), parts) && HeaderIn(cr, parts.protected) == Ok(h)
  {
  }

  /** So is a token: five segments within the limit, the first a canonical text of such a header. */
  lemma ParsedExactly(cr: Crypto, compact: string, parts: Parts, h: Header)
    ensures ParseProtected(cr, compact) == Ok((parts, h)) <==>
      && |compact| <= 1_048_576
      && SplitOn(compact, '.') == [parts.protected, parts.encryptedKey, parts.iv, parts.ciphertext, parts.tag]
      && HeaderIn(cr, parts.protected) == Ok(h)
  {
    ParsedSegments(cr, compact, parts, h);
    SegmentsListed(SplitOn(compact, '.'), parts);
  }

  /** What is read from the JSON text of a header is the mended header, and it passes the checks. */
  lemma VettedReading(cr: Crypto, h: Header)
    requires CodecLaw(cr) && Writable(h) && PlainEpk(h) && h.alg != "" && h.enc != ""
    ensures HeaderMembers(h).Some?
    ensures
      var m := cr.readJson(cr.writeJson(HeaderMembers(h).value));
      m.Some? && Vetted(m.value) == Ok(MendedHeader(h))
  {
    MendedHeaderMembers(h);
    MendedHeaderIsWritable(h);
    MendedIsEmpty(h.alg);
    MendedIsEmpty(h.enc);
    VettedWriting(MendedHeader(h));
  }

  /** A written header passes the checks and comes back mended, exactly when the token is within the limit. */
  lemma ParseOfFramed(cr: Crypto, h: Header, encryptedKey: seq<byte>, iv: seq<byte>, sealed: Sealed)
    requires CodecLaw(cr) && Writable(h) && PlainEpk(h) && h.alg != "" && h.enc != ""
    ensures HeaderMembers(h).Some?
    ensures
      var protected := B64.Encode(cr.writeJson(HeaderMembers(h).value));
      var token := Framed(protected, encryptedKey, iv, sealed);
      var n := |sealed| - TAG_SIZE;
      ParseProtected(cr, token) ==
        if |token| > MAX_TOKEN_BYTES then Err(JweError.DecryptionFailed)
        else Ok((Parts(protected, B64.Encode(encryptedKey), B64.Encode(iv), B64.Encode(sealed[..n]), B64.Encode(sealed[n..])),
                 MendedHeader(h)))
  {
    VettedReading(cr, h);
    var json := cr.writeJson(HeaderMembers(h).value);
    Compact.EncodedLacksDot(json);
    FramedSplits(B64.Encode(json), encryptedKey, iv, sealed);
    EncodedDecodes(json);
  }

  /** Decryption of a framed token comes down to its key and its seal. */
  lemma DecryptionOfFramed(cr: Crypto, d: Decrypter, h: Header, encryptedKey: seq<byte>, iv: seq<byte>, sealed: Sealed)
    requires CodecLaw(cr) && Writable(h) && PlainEpk(h) && h.alg != "" && h.enc != "" && |iv| == IV_SIZE
    requires ContentKeyLen(MendedHeader(h).enc) != 0 && Supports(d.unwrapper, MendedHeader(h).alg)
    ensures HeaderMembers(h).Some?
    ensures
      var protected := B64.Encode(cr.writeJson(HeaderMembers(h).value));
      var token := Framed(protected, encryptedKey, iv, sealed);
      Decrypted(cr, d, token) ==
        if |token| > MAX_TOKEN_BYTES || !KidsAgree(d.kid, MendedHeader(h).kid) then None
        else match UnwrapKey(cr, d.unwrapper, MendedHeader(h), encryptedKey)
             case None => None
             case Some(cek) => if AesKeyWrap.ValidKeySize(cek) then cr.gcmOpen(cek, iv, sealed, protected) else None
  {
    ParseOfFramed(cr, h, encryptedKey, iv, sealed);
    var protected := B64.Encode(cr.writeJson(HeaderMembers(h).value));
    var token := Framed(protected, encryptedKey, iv, sealed);
    if |token| <= MAX_TOKEN_BYTES {
      DecryptionOfParts(cr, d, token, protected, MendedHeader(h), encryptedKey, iv, sealed);
    }
  }

  lemma DecryptionOfParts(
    cr: Crypto, d: Decrypter, token: string, protected: string, h: Header, encryptedKey: seq<byte>, iv: seq<byte>, sealed: Sealed)
    requires
      var n := |sealed| - TAG_SIZE;
      ParseProtected(cr, token) ==
        Ok((Parts(protected, B64.Encode(encryptedKey), B64.Encode(iv), B64.Encode(sealed[..n]), B64.Encode(sealed[n..])), h))
    requires |iv| == IV_SIZE && ContentKeyLen(h.enc) != 0 && Supports(d.unwrapper, h.alg)
    ensures Decrypted(cr, d, token) ==
      if !KidsAgree(d.kid, h.kid) then None
      else match UnwrapKey(cr, d.unwrapper, h, encryptedKey)
           case None => None
           case Some(cek) => if AesKeyWrap.ValidKeySize(cek) then cr.gcmOpen(cek, iv, sealed, protected) else None
  {
    var n := |sealed| - TAG_SIZE;
    EncodedDecodes(encryptedKey);
    EncodedDecodes(iv);
    EncodedDecodes(sealed[..n]);
    EncodedDecodes(sealed[n..]);
    CutSeal(sealed[..n], sealed[n..], sealed);
  }

  // ---- Main results ----------------------------------------------------------------

  predicate CanTalk(cr: Crypto, e: Encrypter, d: Decrypter, coins: Coins) {
    Constructed(e.wrapper, e.enc) && Matching(cr, e.wrapper, d.unwrapper) && Fits(cr, coins, e.wrapper, e.enc)
  }

  lemma AlgIsSupported(cr: Crypto, e: Encrypter, d: Decrypter, coins: Coins)
    requires CanTalk(cr, e, d, coins)
    ensures Supports(d.unwrapper, KeyAlg(e.wrapper)) && KeyAlg(e.wrapper) != ""
  {
  }

  lemma NamesAreKept(w: KeyWrapper, enc: string)
    requires Constructed(w, enc)
    ensures Mended(KeyAlg(w)) == KeyAlg(w) && Mended(enc) == enc
  {
    AlgIsAscii(w, enc);
    AsciiIsValid(KeyAlg(w));
    AsciiIsValid(enc);
  }

  lemma AlgIsAscii(w: KeyWrapper, enc: string)
    requires Constructed(w, enc)
    ensures Ascii(KeyAlg(w)) && Ascii(enc)
  {
  }

  /** The header the recipient reads: the sender's, with kid, typ and cty mended to valid text. */
  function Received(e: Encrypter, cfg: EncryptConfig, epk: Option<Keys.Key>): Header {
    HeaderOf(e.(kid := Mended(e.kid)), EncryptConfig(Mended(cfg.typ), Mended(cfg.cty)), epk)
  }

  lemma ReceivedIsMended(e: Encrypter, cfg: EncryptConfig, epk: Option<Keys.Key>)
    requires Constructed(e.wrapper, e.enc)
    ensures MendedHeader(HeaderOf(e, cfg, epk)) == Received(e, cfg, epk)
  {
    NamesAreKept(e.wrapper, e.enc);
    MendedIsEmpty("");
  }

  /** What encryption produces for two matching ends. */
  lemma EncryptionSucceeds(cr: Crypto, e: Encrypter, d: Decrypter, cfg: EncryptConfig, coins: Coins, plaintext: seq<byte>)
    requires Laws(cr) && CanTalk(cr, e, d, coins)
    ensures
      var parts := WrapKey(cr, e.wrapper, e.enc, coins);
      && parts.Ok? && AesKeyWrap.ValidKeySize(parts.value.cek)
      && var h := HeaderOf(e, cfg, parts.value.epk);
      && Writable(h) && PlainEpk(h) && HeaderMembers(h).Some?
      && UnwrapKey(cr, d.unwrapper, Received(e, cfg, parts.value.epk), parts.value.encryptedKey) == Some(parts.value.cek)
      && var protected := B64.Encode(cr.writeJson(HeaderMembers(h).value));
      Encrypted(cr, e, cfg, coins, plaintext) ==
        Ok(Framed(protected, parts.value.encryptedKey, coins.iv, cr.gcmSeal(parts.value.cek, coins.iv, plaintext, protected)))
  {
    var parts := WrapKey(cr, e.wrapper, e.enc, coins);
    UnwrapUndoesWrap(cr, e.wrapper, d.unwrapper, e.enc, coins, Received(e, cfg, if parts.Ok? then parts.value.epk else None));
    HeaderRoundTrip(HeaderOf(e, cfg, parts.value.epk));
  }

  /**
   In every key-management mode and for every content algorithm, a matching recipient recovers the
   plaintext exactly when the token is within the size limit and the key IDs do not conflict, the
   sender's read as the JSON codec writes it. The sender checks neither.
   */
  lemma JweRoundTrip(cr: Crypto, e: Encrypter, d: Decrypter, cfg: EncryptConfig, coins: Coins, plaintext: seq<byte>)
    requires Laws(cr) && CanTalk(cr, e, d, coins)
    ensures Encrypted(cr, e, cfg, coins, plaintext).Ok?
    ensures
      var token := Encrypted(cr, e, cfg, coins, plaintext).value;
      Decrypted(cr, d, token) ==
        if |token| <= 1_048_576 && (d.kid == "" || e.kid == "" || d.kid == Mended(e.kid)) then Some(plaintext) else None
  {
    EncryptionSucceeds(cr, e, d, cfg, coins, plaintext);
    AlgIsSupported(cr, e, d, coins);
    MendedIsEmpty(e.kid);
    var parts := WrapKey(cr, e.wrapper, e.enc, coins).value;
    var h := HeaderOf(e, cfg, parts.epk);
    ReceivedIsMended(e, cfg, parts.epk);
    var protected := B64.Encode(cr.writeJson(HeaderMembers(h).value));
    DecryptionOfFramed(cr, d, h, parts.encryptedKey, coins.iv, cr.gcmSeal(parts.cek, coins.iv, plaintext, protected));
  }

  /** With one key ID at both ends, only the size and the validity of its text matter. */
  lemma SameKidRoundTrip(cr: Crypto, e: Encrypter, d: Decrypter, cfg: EncryptConfig, coins: Coins, plaintext: seq<byte>)
    requires Laws(cr) && CanTalk(cr, e, d, coins) && d.kid == e.kid
    ensures Encrypted(cr, e, cfg, coins, plaintext).Ok?
    ensures
      var token := Encrypted(cr, e, cfg, coins, plaintext).value;
      Decrypted(cr, d, token) == Some(plaintext) <==> |token| <= 1_048_576 && ValidText(e.kid)
  {
    MendedIfInvalid(e.kid);
    MendedIsEmpty(e.kid);
    JweRoundTrip(cr, e, d, cfg, coins, plaintext);
  }

  /** The recipient reads the header the sender wrote, "typ" and "cty" included, in valid text. */
  lemma HeaderArrives(cr: Crypto, e: Encrypter, d: Decrypter, cfg: EncryptConfig, coins: Coins, plaintext: seq<byte>)
    requires Laws(cr) && CanTalk(cr, e, d, coins)
    ensures Encrypted(cr, e, cfg, coins, plaintext).Ok?
    ensures
      var token := Encrypted(cr, e, cfg, coins, plaintext).value;
      if |token| > 1_048_576 then ParseProtected(cr, token) == Err(JweError.DecryptionFailed)
      else
        && ParseProtected(cr, token).Ok?
        && ParseProtected(cr, token).value.1 == Received(e, cfg, WrapKey(cr, e.wrapper, e.enc, coins).value.epk)
  {
    EncryptionSucceeds(cr, e, d, cfg, coins, plaintext);
    AlgIsSupported(cr, e, d, coins);
    var parts := WrapKey(cr, e.wrapper, e.enc, coins).value;
    var h := HeaderOf(e, cfg, parts.epk);
    ReceivedIsMended(e, cfg, parts.epk);
    var protected := B64.Encode(cr.writeJson(HeaderMembers(h).value));
    ParseOfFramed(cr, h, parts.encryptedKey, coins.iv, cr.gcmSeal(parts.cek, coins.iv, plaintext, protected));
  }

  lemma DecodedIsEncoded(s: string)
    requires B64.Decode(s).Some?
    ensures s == B64.Encode(B64.Decode(s).value)
  {
    B64.DecodeIsExactlyInverse(s, B64.Decode(s).value);
  }

  lemma CutSeal(a: seq<byte>, b: seq<byte>, s: Sealed)
    requires |b| == TAG_SIZE
    ensures s == a + b <==> s[..|s| - TAG_SIZE] == a && s[|s| - TAG_SIZE..] == b
  {
    assert s == s[..|s| - TAG_SIZE] + s[|s| - TAG_SIZE..];
  }

  lemma PartsJoin(cr: Crypto, compact: string)
    requires ParseProtected(cr, compact).Ok?
    ensures
      var p := ParseProtected(cr, compact).value.0;
      compact == JoinWith([p.protected, p.encryptedKey, p.iv, p.ciphertext, p.tag], '.')
  {
    var parts := SplitOn(compact, '.');
    JoinOfSplit(compact, '.');
    assert parts == [parts[0], parts[1], parts[2], parts[3], parts[4]];
  }

  /**
   Nothing is accepted but a sealed token in its one spelling: its protected text, the octets its
   key unwraps from, and the seal of the returned plaintext under that text and key.
   */
  lemma AcceptedIsSealed(cr: Crypto, d: Decrypter, compact: string) returns (encryptedKey: seq<byte>, iv: seq<byte>, cek: seq<byte>)
    requires AeadLaw(cr) && Decrypted(cr, d, compact).Some?
    ensures
      var (parts, h) := ParseProtected(cr, compact).value;
      && |compact| <= MAX_TOKEN_BYTES && KidsAgree(d.kid, h.kid) && Supports(d.unwrapper, h.alg)
      && UnwrapKey(cr, d.unwrapper, h, encryptedKey) == Some(cek)
      && compact == Framed(parts.protected, encryptedKey, iv, cr.gcmSeal(cek, iv, Decrypted(cr, d, compact).value, parts.protected))
  {
    var (parts, h) := ParseProtected(cr, compact).value;
    PartsJoin(cr, compact);
    encryptedKey, iv := B64.Decode(parts.encryptedKey).value, B64.Decode(parts.iv).value;
    var ciphertext, tag := B64.Decode(parts.ciphertext).value, B64.Decode(parts.tag).value;
    DecodedIsEncoded(parts.encryptedKey);
    DecodedIsEncoded(parts.iv);
    DecodedIsEncoded(parts.ciphertext);
    DecodedIsEncoded(parts.tag);
    cek := UnwrapKey(cr, d.unwrapper, h, encryptedKey).value;
    CutSeal(ciphertext, tag, cr.gcmSeal(cek, iv, Decrypted(cr, d, compact).value, parts.protected));
  }
}
