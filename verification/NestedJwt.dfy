/** A signed token inside an encrypted one (section 5.2 of RFC 7519), and the policy of the outer layer. */
module NestedJwt {
  import opened Wrappers
  import opened Bytes
  import opened Strings
  import opened JweHeaders
  import opened JweKeys
  import opened Jwe
  import opened Utf8
  import AlgorithmBinding
  import Compact
  import B64

  /** The inner layer: JSON objects, the "alg" of a decoded header, and Parse's verification. */
  datatype Inner = Inner(isObject: seq<byte> -> bool, headerAlg: seq<byte> -> Option<string>, verify: string -> Option<seq<byte>>)

  datatype Policy = Policy(keyAlgs: seq<string>, contentAlgs: seq<string>, requiredType: string)

  datatype NestedError = NoAllowedAlgorithms | AlgorithmNotAllowed | Outer(e: JweError) | NotNested | TypeMismatch | InnerRefused

  /** strings.ToLower on ASCII. */
  function ToLower(s: string): string {
    seq(|s|, i requires 0 <= i < |s| => if 'A' <= s[i] <= 'Z' then s[i] - 'A' + 'a' else s[i])
  }

  function MediaType(s: string): string {
    ToLower(if '/' in s then s else "application/" + s)
  }

  predicate TypeMatches(got: string, want: string) {
    got != "" && want != "" && MediaType(got) == MediaType(want)
  }

  /** validateNestedJWS: three canonical segments, a real algorithm, an object, a signature. */
  predicate NestableJws(inner: Inner, compact: string) {
    && |compact| <= MAX_TOKEN_BYTES
    && match Compact.Decoded(compact)
       case None => false
       case Some((header, payload, signature)) =>
         && inner.headerAlg(header).Some? && inner.headerAlg(header).value != ""
         && !EqualFold(inner.headerAlg(header).value, "none")
         && inner.isObject(payload) && signature != []
  }

  const JWT := "JWT"

  function EncryptedNested(cr: Crypto, inner: Inner, e: Encrypter, cfg: EncryptConfig, coins: Coins, jws: string): Result<string, NestedError> {
    if !NestableJws(inner, jws) then Err(NotNested)
    else
      match Encrypted(cr, e, cfg.(cty := JWT), coins, OctetsOf(jws))
      case Err(error) => Err(Outer(error))
      case Ok(token) => Ok(token)
  }

  /** decryptJWEWithPolicy: the allowlists are checked on the header before the key is touched. */
  function PolicyDecrypted(cr: Crypto, d: Decrypter, policy: Policy, compact: string): Result<(seq<byte>, Header), NestedError> {
    var algs, encs := AlgorithmBinding.WithoutNone(policy.keyAlgs), AlgorithmBinding.WithoutNone(policy.contentAlgs);
    if algs == [] || encs == [] then Err(NoAllowedAlgorithms)
    else
      match ParseProtected(cr, compact)
      case Err(error) => Err(Outer(error))
      case Ok((_, h)) =>
        if h.alg !in algs || h.enc !in encs then Err(AlgorithmNotAllowed)
        else if !KidsAgree(d.kid, h.kid) then Err(Outer(JweError.DecryptionFailed))
        else
          match Decrypted(cr, d, compact)
          case None => Err(Outer(JweError.DecryptionFailed))
          case Some(plaintext) => Ok((plaintext, h))
  }

  function DecryptedNested(cr: Crypto, inner: Inner, d: Decrypter, policy: Policy, compact: string): Result<seq<byte>, NestedError> {
    match PolicyDecrypted(cr, d, policy, compact)
    case Err(error) => Err(error)
    case Ok((plaintext, h)) =>
      if !TypeMatches(h.cty, JWT) then Err(NotNested)
      else if policy.requiredType != "" && !TypeMatches(h.typ, policy.requiredType) then Err(TypeMismatch)
      else
        match inner.verify(TextOf(plaintext))
        case None => Err(InnerRefused)
        case Some(payload) => Ok(payload)
  }

  // ---- What a recipient answers ----------------------------------------------------

  predicate SameLetter(a: char, b: char) {
    a == b || ('A' <= a <= 'Z' && b == a - 'A' + 'a') || ('A' <= b <= 'Z' && a == b - 'A' + 'a')
  }

  /** Equal up to the case of ASCII letters. */
  predicate SameText(a: string, b: string) {
    |a| == |b| && forall i :: 0 <= i < |a| ==> SameLetter(a[i], b[i])
  }

  /** Two types agree as written, or when the one without a slash is put under "application/". */
  predicate SameType(a: string, b: string) {
    && a != "" && b != ""
    && if '/' in a && '/' !in b then SameText(a, "application/" + b)
       else if '/' !in a && '/' in b then SameText("application/" + a, b)
       else SameText(a, b)
  }

  lemma LowerIsSame(a: string, b: string)
    ensures ToLower(a) == ToLower(b) <==> SameText(a, b)
  {
    if ToLower(a) == ToLower(b) {
      assert |ToLower(a)| == |a| && |ToLower(b)| == |b|;
      forall i | 0 <= i < |a|
        ensures SameLetter(a[i], b[i])
      {
        assert ToLower(a)[i] == ToLower(b)[i];
      }
    }
    if SameText(a, b) {
      forall i | 0 <= i < |a|
        ensures ToLower(a)[i] == ToLower(b)[i]
      {
        assert SameLetter(a[i], b[i]);
      }
    }
  }

  lemma SamePrefixed(a: string, b: string)
    ensures SameText("application/" + a, "application/" + b) <==> SameText(a, b)
  {
    var p := "application/";
    if SameText(p + a, p + b) {
      forall i | 0 <= i < |a|
        ensures SameLetter(a[i], b[i])
      {
        assert (p + a)[|p| + i] == a[i] && (p + b)[|p| + i] == b[i];
      }
    }
    if SameText(a, b) {
      forall i | 0 <= i < |p + a|
        ensures SameLetter((p + a)[i], (p + b)[i])
      {
        if i >= |p| {
          assert (p + a)[i] == a[i - |p|] && (p + b)[i] == b[i - |p|];
        }
      }
    }
  }

  /** Media types compare without regard to case, "application/" being understood. */
  lemma TypeMatchesExactly(a: string, b: string)
    ensures TypeMatches(a, b) <==> SameType(a, b)
  {
    LowerIsSame(if '/' in a then a else "application/" + a, if '/' in b then b else "application/" + b);
    SamePrefixed(a, b);
  }

  /** A list without a single real name. */
  predicate NamesNothing(names: seq<string>) {
    forall n :: n in names ==> n == "" || FoldCase(n) == "none"
  }

  lemma NamesNothingExactly(names: seq<string>)
    ensures AlgorithmBinding.WithoutNone(names) == [] <==> NamesNothing(names)
  {
    var kept := AlgorithmBinding.WithoutNone(names);
    if kept != [] {
      assert kept[0] in kept;
    }
  }

  /** What the recipient answers to a token of a matching sender, told from what the sender did. */
  function Answer(inner: Inner, e: Encrypter, d: Decrypter, policy: Policy, cfg: EncryptConfig, token: string, text: string): Result<seq<byte>, NestedError> {
    if NamesNothing(policy.keyAlgs) || NamesNothing(policy.contentAlgs) then Err(NoAllowedAlgorithms)
    else if |token| > 1_048_576 then Err(Outer(JweError.DecryptionFailed))
    else if KeyAlg(e.wrapper) !in policy.keyAlgs || e.enc !in policy.contentAlgs then Err(AlgorithmNotAllowed)
    else if d.kid != "" && e.kid != "" && d.kid != Mended(e.kid) then Err(Outer(JweError.DecryptionFailed))
    else if !SameType(Mended(cfg.cty), "JWT") then Err(NotNested)
    else if policy.requiredType != "" && !SameType(Mended(cfg.typ), policy.requiredType) then Err(TypeMismatch)
    else if inner.verify(text).None? then Err(InnerRefused)
    else Ok(inner.verify(text).value)
  }

  /** The name begins with an ASCII letter other than that of "none". */
  predicate BeginsOtherwise(name: string) {
    name != "" && name[0] < '\U{80}' && name[0] != 'n' && name[0] != 'N'
  }

  lemma NotNone(name: string)
    requires BeginsOtherwise(name)
    ensures !AlgorithmBinding.IsNone(name)
  {
    FoldedFirst(name);
  }

  lemma NamesBeginOtherwise(w: KeyWrapper, enc: string, alg: string)
    requires Constructed(w, enc) && alg == KeyAlg(w)
    ensures BeginsOtherwise(alg) && BeginsOtherwise(enc)
  {
  }

  /** No built-in algorithm is called "none". */
  lemma RealNames(w: KeyWrapper, enc: string, alg: string)
    requires Constructed(w, enc) && alg == KeyAlg(w)
    ensures !AlgorithmBinding.IsNone(alg) && !AlgorithmBinding.IsNone(enc)
  {
    NamesBeginOtherwise(w, enc, alg);
    NotNone(alg);
    NotNone(enc);
  }

  /** How the policy layer answers, given the header and what the decrypter makes of the token. */
  lemma PolicyAnswers(cr: Crypto, e: Encrypter, d: Decrypter, policy: Policy, token: string, h: Header)
    requires ParseProtected(cr, token).Ok? && ParseProtected(cr, token).value.1 == h && Constructed(e.wrapper, e.enc)
    requires h.alg == KeyAlg(e.wrapper) && h.enc == e.enc
    ensures PolicyDecrypted(cr, d, policy, token) ==
      if NamesNothing(policy.keyAlgs) || NamesNothing(policy.contentAlgs) then Err(NoAllowedAlgorithms)
      else if h.alg !in policy.keyAlgs || h.enc !in policy.contentAlgs then Err(AlgorithmNotAllowed)
      else if !KidsAgree(d.kid, h.kid) || Decrypted(cr, d, token).None? then Err(Outer(JweError.DecryptionFailed))
      else Ok((Decrypted(cr, d, token).value, h))
  {
    NamesNothingExactly(policy.keyAlgs);
    NamesNothingExactly(policy.contentAlgs);
    RealNames(e.wrapper, e.enc, KeyAlg(e.wrapper));
  }

  lemma PolicyOfUnparsed(cr: Crypto, d: Decrypter, policy: Policy, token: string)
    requires ParseProtected(cr, token) == Err(JweError.DecryptionFailed)
    ensures PolicyDecrypted(cr, d, policy, token) ==
      if NamesNothing(policy.keyAlgs) || NamesNothing(policy.contentAlgs) then Err(NoAllowedAlgorithms)
      else Err(Outer(JweError.DecryptionFailed))
  {
    NamesNothingExactly(policy.keyAlgs);
    NamesNothingExactly(policy.contentAlgs);
  }

  /**
   Any token of a matching sender gets exactly the answer its algorithms, its options and its
   content deserve under the policy.
   */
  lemma NestedAnswers(
    cr: Crypto, inner: Inner, e: Encrypter, d: Decrypter, policy: Policy, cfg: EncryptConfig, coins: Coins, plaintext: seq<byte>)
    requires Laws(cr) && CanTalk(cr, e, d, coins)
    ensures Encrypted(cr, e, cfg, coins, plaintext).Ok?
    ensures
      var token := Encrypted(cr, e, cfg, coins, plaintext).value;
      DecryptedNested(cr, inner, d, policy, token) == Answer(inner, e, d, policy, cfg, token, TextOf(plaintext))
  {
    JweRoundTrip(cr, e, d, cfg, coins, plaintext);
    HeaderArrives(cr, e, d, cfg, coins, plaintext);
    var token := Encrypted(cr, e, cfg, coins, plaintext).value;
    if |token| > MAX_TOKEN_BYTES {
      PolicyOfUnparsed(cr, d, policy, token);
    } else {
      var h := ParseProtected(cr, token).value.1;
      PolicyAnswers(cr, e, d, policy, token, h);
      MendedIsEmpty(e.kid);
      AnswerToPlaintext(cr, inner, e, d, policy, cfg, token, plaintext);
    }
  }

  lemma AnswerToPlaintext(
    cr: Crypto, inner: Inner, e: Encrypter, d: Decrypter, policy: Policy, cfg: EncryptConfig, token: string, plaintext: seq<byte>)
    requires |token| <= MAX_TOKEN_BYTES && (Mended(e.kid) == "" <==> e.kid == "")
    requires ParseProtected(cr, token).Ok?
    requires
      var h := ParseProtected(cr, token).value.1;
      && h.alg == KeyAlg(e.wrapper) && h.enc == e.enc && h.kid == Mended(e.kid)
      && h.cty == Mended(cfg.cty) && h.typ == Mended(cfg.typ)
      && PolicyDecrypted(cr, d, policy, token) ==
           if NamesNothing(policy.keyAlgs) || NamesNothing(policy.contentAlgs) then Err(NoAllowedAlgorithms)
           else if h.alg !in policy.keyAlgs || h.enc !in policy.contentAlgs then Err(AlgorithmNotAllowed)
           else if !KidsAgree(d.kid, h.kid) then Err(Outer(JweError.DecryptionFailed))
           else Ok((plaintext, h))
    ensures DecryptedNested(cr, inner, d, policy, token) == Answer(inner, e, d, policy, cfg, token, TextOf(plaintext))
  {
    TypeMatchesExactly(Mended(cfg.cty), JWT);
    TypeMatchesExactly(Mended(cfg.typ), policy.requiredType);
  }

  /** Whoever made it, an accepted token names only listed algorithms, neither of them "none", and says it is nested. */
  lemma AcceptedIsListed(cr: Crypto, inner: Inner, d: Decrypter, policy: Policy, compact: string)
    requires DecryptedNested(cr, inner, d, policy, compact).Ok?
    ensures ParseProtected(cr, compact).Ok?
    ensures
      var h := ParseProtected(cr, compact).value.1;
      && h.alg in policy.keyAlgs && h.alg != "" && FoldCase(h.alg) != "none"
      && h.enc in policy.contentAlgs && h.enc != "" && FoldCase(h.enc) != "none"
      && SameType(h.cty, "JWT") && (policy.requiredType != "" ==> SameType(h.typ, policy.requiredType))
      && Decrypted(cr, d, compact).Some?
      && inner.verify(TextOf(Decrypted(cr, d, compact).value)) == Some(DecryptedNested(cr, inner, d, policy, compact).value)
  {
    var h := ParseProtected(cr, compact).value.1;
    TypeMatchesExactly(h.cty, JWT);
    TypeMatchesExactly(h.typ, policy.requiredType);
  }

  /** Exactly these texts can be nested: a named algorithm, an object, a signature, within the limit. */
  lemma NestableExactly(inner: Inner, header: seq<byte>, payload: seq<byte>, signature: seq<byte>)
    ensures
      var jws := Compact.Join3(B64.Encode(header), B64.Encode(payload), B64.Encode(signature));
      NestableJws(inner, jws) <==>
        && |jws| <= 1_048_576 && inner.isObject(payload) && signature != []
        && inner.headerAlg(header).Some? && inner.headerAlg(header).value != "" && FoldCase(inner.headerAlg(header).value) != "none"
  {
    Compact.OneTokenPerContent(Compact.Join3(B64.Encode(header), B64.Encode(payload), B64.Encode(signature)), header, payload, signature);
  }

  /** And what can be nested has that form. */
  lemma NestableHasParts(inner: Inner, jws: string) returns (header: seq<byte>, payload: seq<byte>, signature: seq<byte>)
    requires NestableJws(inner, jws)
    ensures jws == Compact.Join3(B64.Encode(header), B64.Encode(payload), B64.Encode(signature))
  {
    header, payload, signature := Compact.Decoded(jws).value.0, Compact.Decoded(jws).value.1, Compact.Decoded(jws).value.2;
    Compact.OneTokenPerContent(jws, header, payload, signature);
  }

  lemma EncodedIsOctetText(b: seq<byte>)
    ensures IsOctetText(B64.Encode(b))
  {
    B64.DecodeTextOfEncode(true, b);
  }

  lemma JoinedOctetText(a: string, b: string, c: string)
    requires IsOctetText(a) && IsOctetText(b) && IsOctetText(c)
    ensures IsOctetText(Compact.Join3(a, b, c))
  {
  }

  lemma NestableIsOctetText(inner: Inner, jws: string)
    requires NestableJws(inner, jws)
    ensures IsOctetText(jws)
  {
    var (h, p, s) := Compact.Decoded(jws).value;
    Compact.OneTokenPerContent(jws, h, p, s);
    EncodedIsOctetText(h);
    EncodedIsOctetText(p);
    EncodedIsOctetText(s);
    JoinedOctetText(B64.Encode(h), B64.Encode(p), B64.Encode(s));
  }

  /**
   A nested token reaches the recipient's verifier unchanged: where the policy lists the sender's
   algorithms, decryption answers what verifying the inner token directly would have, whatever
   "cty" the sender's options asked for.
   */
  lemma NestedTokenArrives(
    cr: Crypto, inner: Inner, e: Encrypter, d: Decrypter, policy: Policy, cfg: EncryptConfig, coins: Coins, jws: string)
    requires Laws(cr) && CanTalk(cr, e, d, coins) && NestableJws(inner, jws)
    requires KeyAlg(e.wrapper) in policy.keyAlgs && e.enc in policy.contentAlgs
    requires policy.requiredType == "" || SameType(Mended(cfg.typ), policy.requiredType)
    requires d.kid == "" || e.kid == "" || d.kid == Mended(e.kid)
    ensures EncryptedNested(cr, inner, e, cfg, coins, jws).Ok?
    ensures
      var token := EncryptedNested(cr, inner, e, cfg, coins, jws).value;
      |token| <= 1_048_576 ==>
        DecryptedNested(cr, inner, d, policy, token) == match inner.verify(jws) case None => Err(InnerRefused) case Some(p) => Ok(p)
  {
    var nested := cfg.(cty := JWT);
    NestedAnswers(cr, inner, e, d, policy, nested, coins, OctetsOf(jws));
    NestableIsOctetText(inner, jws);
    TextOfOctets(jws);
    RealNames(e.wrapper, e.enc, KeyAlg(e.wrapper));
    ListedIsSomething(policy.keyAlgs, KeyAlg(e.wrapper));
    ListedIsSomething(policy.contentAlgs, e.enc);
    NestedVerdict(inner, e, d, policy, nested, Encrypted(cr, e, nested, coins, OctetsOf(jws)).value, jws);
  }

  lemma ListedIsSomething(names: seq<string>, name: string)
    requires name in names && !AlgorithmBinding.IsNone(name)
    ensures !NamesNothing(names)
  {
  }

  lemma NestedVerdict(inner: Inner, e: Encrypter, d: Decrypter, policy: Policy, cfg: EncryptConfig, token: string, jws: string)
    requires !NamesNothing(policy.keyAlgs) && !NamesNothing(policy.contentAlgs) && cfg.cty == JWT
    requires KeyAlg(e.wrapper) in policy.keyAlgs && e.enc in policy.contentAlgs
    requires policy.requiredType == "" || SameType(Mended(cfg.typ), policy.requiredType)
    requires d.kid == "" || e.kid == "" || d.kid == Mended(e.kid)
    ensures |token| <= 1_048_576 ==>
      Answer(inner, e, d, policy, cfg, token, jws) == match inner.verify(jws) case None => Err(InnerRefused) case Some(p) => Ok(p)
  {
    AsciiIsValid(JWT);
    assert SameType(JWT, "JWT");
  }
}
