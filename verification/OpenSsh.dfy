/**
 The openssh-key-v1 framing (section 5 of RFC 4251): a cursor that latches its first short
 read, the outer blob, and the private section inside it.
 */
module OpenSsh {
  import opened Wrappers
  import opened Bytes

  /** sshBuf: the octets left to read, and whether a short read has been latched. */
  datatype Cursor = Cursor(rest: seq<byte>, short: bool)

  function ReadU32(c: Cursor): (nat, Cursor) {
    if c.short then (0, c)
    else if |c.rest| < 4 then (0, c.(short := true))
    else (ToNat(c.rest[..4]), c.(rest := c.rest[4..]))
  }

  function ReadStr(c: Cursor): (seq<byte>, Cursor) {
    var (n, d) := ReadU32(c);
    if d.short then ([], d)
    else if n > |d.rest| then ([], d.(short := true))
    else (d.rest[..n], d.(rest := d.rest[n..]))
  }

  /** Multiple-precision integers are read unsigned. */
  function ReadMpint(c: Cursor): (nat, Cursor) {
    var (s, d) := ReadStr(c);
    (ToNat(s), d)
  }

  class SshBuf {
    var b: seq<byte>
    var err: bool

    ghost function Model(): Cursor
      reads this
    {
      Cursor(b, err)
    }

    constructor (b: seq<byte>)
      ensures Model() == Cursor(b, false)
    {
      this.b, err := b, false;
    }

    method U32() returns (v: nat)
      modifies this
      ensures (v, Model()) == ReadU32(old(Model()))
      ensures old(err) ==> err && b == old(b)
    {
      if err {
        return 0;
      }
      if |b| < 4 {
        err := true;
        return 0;
      }
      v := ToNat(b[..4]);
      b := b[4..];
    }

    method Str() returns (s: seq<byte>)
      modifies this
      ensures (s, Model()) == ReadStr(old(Model()))
      ensures old(err) ==> err && b == old(b)
    {
      var n := U32();
      if err {
        return [];
      }
      if n > |b| {
        err := true;
        return [];
      }
      s := b[..n];
      b := b[n..];
    }

    method Mpint() returns (v: nat)
      modifies this
      ensures (v, Model()) == ReadMpint(old(Model()))
      ensures old(err) ==> err && b == old(b)
    {
      var s := Str();
      v := ToNat(s);
    }
  }

  // ---- The outer blob --------------------------------------------------------------

  const MAGIC: seq<byte> := [111, 112, 101, 110, 115, 115, 104, 45, 107, 101, 121, 45, 118, 49, 0]
  const NONE: seq<byte> := [110, 111, 110, 101]

  datatype Outer = Outer(cipher: seq<byte>, kdf: seq<byte>, kdfOptions: seq<byte>, count: nat, publicKey: seq<byte>, priv: seq<byte>)

  /** The reads of ParseOpenSSHPrivateKey after the magic, and the cursor they leave. */
  function ReadOuter(c: Cursor): (Outer, Cursor) {
    var (cipher, c1) := ReadStr(c);
    var (kdf, c2) := ReadStr(c1);
    var (options, c3) := ReadStr(c2);
    var (count, c4) := ReadU32(c3);
    var (publicKey, c5) := ReadStr(c4);
    var (priv, c6) := ReadStr(c5);
    (Outer(cipher, kdf, options, count, publicKey, priv), c6)
  }

  function WriteU32(n: nat): seq<byte> {
    FromNat(n, 4)
  }

  function WriteStr(s: seq<byte>): seq<byte> {
    WriteU32(|s|) + s
  }

  /** The blob these fields are written as, without the magic. */
  function WriteOuter(o: Outer): seq<byte> {
    WriteStr(o.cipher) + (WriteStr(o.kdf) + (WriteStr(o.kdfOptions) +
      (WriteU32(o.count) + (WriteStr(o.publicKey) + WriteStr(o.priv)))))
  }

  /** Lengths and counts fit 32 bits. */
  ghost predicate Writable(o: Outer) {
    && Short(o.cipher) && Short(o.kdf) && Short(o.kdfOptions) && Short(o.publicKey) && Short(o.priv)
    && o.count < Pow256(4)
  }

  ghost predicate Short(s: seq<byte>) {
    |s| < Pow256(4)
  }

  /** A latched cursor never moves and never recovers. */
  lemma LatchedStays(c: Cursor)
    requires c.short
    ensures ReadU32(c) == (0, c) && ReadStr(c) == ([], c) && ReadMpint(c) == (0, c)
  {
  }

  datatype Read = U32Read | StrRead | MpintRead

  /** The cursor after a sequence of reads. */
  function AfterReads(c: Cursor, ops: seq<Read>): Cursor {
    if ops == [] then c else AfterRead(AfterReads(c, ops[..|ops| - 1]), ops[|ops| - 1])
  }

  function AfterRead(c: Cursor, op: Read): Cursor {
    match op
    case U32Read => ReadU32(c).1
    case StrRead => ReadStr(c).1
    case MpintRead => ReadMpint(c).1
  }

  lemma LatchedByOne(c: Cursor, op: Read)
    requires c.short
    ensures AfterRead(c, op) == c
  {
    LatchedStays(c);
  }

  /** Once a read has fallen short, no later read of any kind consumes an octet or clears the error. */
  lemma {:induction false} LatchIsForever(c: Cursor, ops: seq<Read>, more: seq<Read>)
    requires AfterReads(c, ops).short
    ensures AfterReads(c, ops + more) == AfterReads(c, ops)
    decreases |more|
  {
    if more == [] {
      assert ops + more == ops;
    } else {
      var init := more[..|more| - 1];
      LatchIsForever(c, ops, init);
      LatchedByOne(AfterReads(c, ops), more[|more| - 1]);
      var all := ops + more;
      assert all[..|all| - 1] == ops + init && all[|all| - 1] == more[|more| - 1];
    }
  }

  lemma U32RoundTrip(n: nat, rest: seq<byte>)
    requires n < Pow256(4)
    ensures ReadU32(Cursor(WriteU32(n) + rest, false)) == (n, Cursor(rest, false))
  {
    ToNatOfFromNat(n, 4);
    assert (WriteU32(n) + rest)[..4] == WriteU32(n) && (WriteU32(n) + rest)[4..] == rest;
  }

  lemma StrRoundTrip(s: seq<byte>, rest: seq<byte>)
    requires Short(s)
    ensures ReadStr(Cursor(WriteStr(s) + rest, false)) == (s, Cursor(rest, false))
  {
    assert WriteStr(s) + rest == WriteU32(|s|) + (s + rest);
    U32RoundTrip(|s|, s + rest);
  }

  /** Reading what was written returns the fields and leaves exactly what follows. */
  lemma OuterRoundTrip(o: Outer, rest: seq<byte>)
    requires Writable(o)
    ensures ReadOuter(Cursor(WriteOuter(o) + rest, false)) == (o, Cursor(rest, false))
  {
    var b6 := WriteStr(o.priv) + rest;
    var b5 := WriteStr(o.publicKey) + b6;
    var b4 := WriteU32(o.count) + b5;
    var b3 := WriteStr(o.kdfOptions) + b4;
    var b2 := WriteStr(o.kdf) + b3;
    assert WriteOuter(o) + rest == WriteStr(o.cipher) + b2;
    StrRoundTrip(o.cipher, b2);
    StrRoundTrip(o.kdf, b3);
    StrRoundTrip(o.kdfOptions, b4);
    U32RoundTrip(o.count, b5);
    StrRoundTrip(o.publicKey, b6);
    StrRoundTrip(o.priv, rest);
  }

  /** What a read that succeeds consumed, it consumes whatever follows; and it consumed from the front. */
  ghost predicate Consumes(c: Cursor, d: Cursor, used: seq<byte>) {
    !c.short && !d.short && c.rest == used + d.rest
  }

  lemma U32Consumes(c: Cursor, more: seq<byte>) returns (used: seq<byte>)
    requires !ReadU32(c).1.short
    ensures Consumes(c, ReadU32(c).1, used) && |used| == 4
    ensures var (n, d) := ReadU32(c); ReadU32(c.(rest := c.rest + more)) == (n, d.(rest := d.rest + more))
  {
    used := c.rest[..4];
    assert (c.rest + more)[..4] == used && (c.rest + more)[4..] == c.rest[4..] + more;
  }

  lemma StrConsumes(c: Cursor, more: seq<byte>) returns (used: seq<byte>)
    requires !ReadStr(c).1.short
    ensures Consumes(c, ReadStr(c).1, used)
    ensures var (s, d) := ReadStr(c); ReadStr(c.(rest := c.rest + more)) == (s, d.(rest := d.rest + more))
  {
    var head := U32Consumes(c, more);
    var (n, d) := ReadU32(c);
    used := head + d.rest[..n];
    assert (d.rest + more)[..n] == d.rest[..n] && (d.rest + more)[n..] == d.rest[n..] + more;
  }

  /** A blob that reads without falling short reads the same, octets left over, when more follows. */
  lemma OuterExtends(c: Cursor, more: seq<byte>)
    requires !ReadOuter(c).1.short
    ensures var (o, d) := ReadOuter(c); ReadOuter(c.(rest := c.rest + more)) == (o, d.(rest := d.rest + more))
  {
    var c1 := ReadStr(c).1;
    var c2 := ReadStr(c1).1;
    var c3 := ReadStr(c2).1;
    var c4 := ReadU32(c3).1;
    var c5 := ReadStr(c4).1;
    var _ := StrConsumes(c5, more);
    var _ := StrConsumes(c4, more);
    var _ := U32Consumes(c3, more);
    var _ := StrConsumes(c2, more);
    var _ := StrConsumes(c1, more);
    var _ := StrConsumes(c, more);
  }

  lemma PrefixOfExactRead(whole: seq<byte>, o: Outer, n: nat)
    requires ReadOuter(Cursor(whole, false)) == (o, Cursor([], false)) && n < |whole|
    ensures ReadOuter(Cursor(whole[..n], false)).1.short
  {
    CutRejoins(whole, n);
    if !ReadOuter(Cursor(whole[..n], false)).1.short {
      MoreIsLeft(whole[..n], whole[n..]);
    }
  }

  lemma CutRejoins(whole: seq<byte>, n: nat)
    requires n <= |whole|
    ensures whole[..n] + whole[n..] == whole
  {
  }

  /** What a blob does not need to be read is left over. */
  lemma MoreIsLeft(part: seq<byte>, more: seq<byte>)
    requires !ReadOuter(Cursor(part, false)).1.short
    ensures |ReadOuter(Cursor(part + more, false)).1.rest| >= |more|
  {
    OuterExtends(Cursor(part, false), more);
  }

  /** The framing is prefix-free: every proper prefix of a written blob falls short. */
  lemma ProperPrefixIsShort(o: Outer, n: nat)
    requires Writable(o) && n < |WriteOuter(o)|
    ensures ReadOuter(Cursor(WriteOuter(o)[..n], false)).1.short
  {
    OuterRoundTrip(o, []);
    var whole := WriteOuter(o) + [];
    assert whole == WriteOuter(o);
    PrefixOfExactRead(whole, o, n);
  }

  // ---- ParseOpenSSHPrivateKey ------------------------------------------------------

  datatype SshError = NotOpenSsh | Truncated | Encrypted | WrongCount | CheckMismatch | BadBody

  /** The key types parseOpenSSHKeyBody reads. */
  datatype Body =
    | Ed25519Body(publicKey: seq<byte>, priv: seq<byte>)
    | RsaBody(n: nat, e: nat, d: nat, iqmp: nat, p: nat, q: nat)
    | EcdsaBody(curve: seq<byte>, point: seq<byte>, d: nat)

  const SSH_ED25519: seq<byte> := [115, 115, 104, 45, 101, 100, 50, 53, 53, 49, 57]
  const SSH_RSA: seq<byte> := [115, 115, 104, 45, 114, 115, 97]
  const ECDSA_PREFIX: seq<byte> := [101, 99, 100, 115, 97, 45, 115, 104, 97, 50, 45, 110, 105, 115, 116, 112]

  /** ecdsa-sha2-nistp followed by 256, 384 or 521. */
  predicate IsEcdsa(keyType: seq<byte>) {
    || keyType == ECDSA_PREFIX + [50, 53, 54]
    || keyType == ECDSA_PREFIX + [51, 56, 52]
    || keyType == ECDSA_PREFIX + [53, 50, 49]
  }

  function ReadEd25519(c: Cursor): (Body, Cursor) {
    var (publicKey, c1) := ReadStr(c);
    var (priv, c2) := ReadStr(c1);
    (Ed25519Body(publicKey, priv), c2)
  }

  function ReadRsa(c: Cursor): (Body, Cursor) {
    var (n, c1) := ReadMpint(c);
    var (e, c2) := ReadMpint(c1);
    var (d, c3) := ReadMpint(c2);
    var (iqmp, c4) := ReadMpint(c3);
    var (p, c5) := ReadMpint(c4);
    var (q, c6) := ReadMpint(c5);
    (RsaBody(n, e, d, iqmp, p, q), c6)
  }

  function ReadEcdsa(c: Cursor): (Body, Cursor) {
    var (curve, c1) := ReadStr(c);
    var (point, c2) := ReadStr(c1);
    var (d, c3) := ReadMpint(c2);
    (EcdsaBody(curve, point, d), c3)
  }

  /** What the crypto libraries decide: rsa.PrivateKey.Validate, and the uncompressed public point of a raw scalar. */
  datatype KeyLibrary = KeyLibrary(
    rsaValid: (nat, nat, nat, nat, nat) -> bool,
    ecPublic: (seq<byte>, seq<byte>) -> Option<seq<byte>>)

  const NISTP: seq<byte> := [110, 105, 115, 116, 112]

  /** sshCurve, as the coordinate size in octets. */
  function SshCurveSize(id: seq<byte>): Option<nat> {
    if id == NISTP + [50, 53, 54] then Some(32)
    else if id == NISTP + [51, 56, 52] then Some(48)
    else if id == NISTP + [53, 50, 49] then Some(66)
    else None
  }

  /** The checks on the fields read; a scalar too long for its curve is no raw private key. */
  predicate Accepted(lib: KeyLibrary, body: Body) {
    match body
    case Ed25519Body(_, priv) => |priv| == 64
    case RsaBody(n, e, d, _, p, q) => lib.rsaValid(n, e, d, p, q)
    case EcdsaBody(curve, point, d) =>
      var size := SshCurveSize(curve);
      && size.Some? && |point| == 1 + 2 * size.value && point[0] == 4
      && d < Pow256(size.value) && lib.ecPublic(curve, FromNat(d, size.value)) == Some(point)
  }

  /** A short read is reported before any other fault. */
  function Judged(lib: KeyLibrary, read: (Body, Cursor)): Result<Body, SshError> {
    if read.1.short then Err(Truncated) else if !Accepted(lib, read.0) then Err(BadBody) else Ok(read.0)
  }

  /** parseOpenSSHKeyBody; an unknown key type is refused unread. */
  function BodyResult(lib: KeyLibrary, keyType: seq<byte>, c: Cursor): Result<Body, SshError> {
    if keyType == SSH_ED25519 then Judged(lib, ReadEd25519(c))
    else if keyType == SSH_RSA then Judged(lib, ReadRsa(c))
    else if IsEcdsa(keyType) then Judged(lib, ReadEcdsa(c))
    else Err(BadBody)
  }

  /** The outer framing and its checks, in the order of the code. */
  function OuterResult(raw: seq<byte>): Result<seq<byte>, SshError> {
    if !(MAGIC <= raw) then Err(NotOpenSsh)
    else
      var (o, c) := ReadOuter(Cursor(raw[|MAGIC|..], false));
      if c.short then Err(Truncated)
      else if o.cipher != NONE || o.kdf != NONE then Err(Encrypted)
      else if o.count != 1 then Err(WrongCount)
      else Ok(o.priv)
  }

  /** The private section. */
  function InnerResult(lib: KeyLibrary, section: seq<byte>): Result<Body, SshError> {
    var (check1, p1) := ReadU32(Cursor(section, false));
    var (check2, p2) := ReadU32(p1);
    if check1 != check2 then Err(CheckMismatch)
    else
      var (keyType, p3) := ReadStr(p2);
      BodyResult(lib, keyType, p3)
  }

  function Parsed(lib: KeyLibrary, raw: seq<byte>): Result<Body, SshError> {
    match OuterResult(raw)
    case Err(e) => Err(e)
    case Ok(section) => InnerResult(lib, section)
  }

  /** parseOpenSSHKeyBody: the reads on the shared cursor, then the checks. */
  method ParseBody(lib: KeyLibrary, keyType: seq<byte>, p: SshBuf) returns (body: Result<Body, SshError>)
    modifies p
    ensures body == BodyResult(lib, keyType, old(p.Model()))
    ensures body.Ok? ==> !p.err
  {
    if keyType == SSH_ED25519 {
      body := ParseEd25519(lib, p);
    } else if keyType == SSH_RSA {
      body := ParseRsa(lib, p);
    } else if IsEcdsa(keyType) {
      body := ParseEcdsa(lib, p);
    } else {
      body := Err(BadBody);
    }
  }

  method ParseEd25519(lib: KeyLibrary, p: SshBuf) returns (body: Result<Body, SshError>)
    modifies p
    ensures body == Judged(lib, ReadEd25519(old(p.Model())))
    ensures body.Ok? ==> !p.err
  {
    var publicKey := p.Str();
    var priv := p.Str();
    if p.err {
      return Err(Truncated);
    }
    if |priv| != 64 {
      return Err(BadBody);
    }
    body := Ok(Ed25519Body(publicKey, priv));
  }

  method ParseRsa(lib: KeyLibrary, p: SshBuf) returns (body: Result<Body, SshError>)
    modifies p
    ensures body == Judged(lib, ReadRsa(old(p.Model())))
    ensures body.Ok? ==> !p.err
  {
    var n := p.Mpint();
    var e := p.Mpint();
    var d := p.Mpint();
    var iqmp := p.Mpint();
    var primeP := p.Mpint();
    var primeQ := p.Mpint();
    if p.err {
      return Err(Truncated);
    }
    if !lib.rsaValid(n, e, d, primeP, primeQ) {
      return Err(BadBody);
    }
    body := Ok(RsaBody(n, e, d, iqmp, primeP, primeQ));
  }

  method ParseEcdsa(lib: KeyLibrary, p: SshBuf) returns (body: Result<Body, SshError>)
    modifies p
    ensures body == Judged(lib, ReadEcdsa(old(p.Model())))
    ensures body.Ok? ==> !p.err
  {
    var curve := p.Str();
    var point := p.Str();
    var d := p.Mpint();
    if p.err {
      return Err(Truncated);
    }
    var size := SshCurveSize(curve);
    if size.None? {
      return Err(BadBody);
    }
    if |point| != 1 + 2 * size.value || point[0] != 4 {
      return Err(BadBody);
    }
    if d >= Pow256(size.value) || lib.ecPublic(curve, FromNat(d, size.value)) != Some(point) {
      return Err(BadBody);
    }
    body := Ok(EcdsaBody(curve, point, d));
  }

  method ParsePrivateKey(lib: KeyLibrary, raw: seq<byte>) returns (result: Result<Body, SshError>)
    ensures result == Parsed(lib, raw)
  {
    if !(MAGIC <= raw) {
      return Err(NotOpenSsh);
    }
    var r := new SshBuf(raw[|MAGIC|..]);
    var cipher := r.Str();
    var kdf := r.Str();
    var _ := r.Str();
    var count := r.U32();
    var _ := r.Str();
    var priv := r.Str();
    if r.err {
      return Err(Truncated);
    }
    if cipher != NONE || kdf != NONE {
      return Err(Encrypted);
    }
    if count != 1 {
      return Err(WrongCount);
    }
    var p := new SshBuf(priv);
    var check1 := p.U32();
    var check2 := p.U32();
    if check1 != check2 {
      return Err(CheckMismatch);
    }
    var keyType := p.Str();
    result := ParseBody(lib, keyType, p);
  }

  /** No proper prefix of an unencrypted key's blob gets past the outer framing. */
  lemma TruncatedBlobIsRefused(o: Outer, n: nat)
    requires Writable(o) && n < |MAGIC + WriteOuter(o)|
    ensures OuterResult((MAGIC + WriteOuter(o))[..n]) == if n < |MAGIC| then Err(NotOpenSsh) else Err(Truncated)
  {
    var body := WriteOuter(o);
    forall i | 0 <= i < |body|
      ensures ReadOuter(Cursor(body[..i], false)).1.short
    {
      ProperPrefixIsShort(o, i);
    }
    CutIsRefused(body, n);
  }

  lemma CutIsRefused(body: seq<byte>, n: nat)
    requires n < |MAGIC + body|
    requires forall i :: 0 <= i < |body| ==> ReadOuter(Cursor(body[..i], false)).1.short
    ensures OuterResult((MAGIC + body)[..n]) == if n < |MAGIC| then Err(NotOpenSsh) else Err(Truncated)
  {
    CutConcat(MAGIC, body, n);
    if n < |MAGIC| {
      NotOpenSshWithoutMagic((MAGIC + body)[..n]);
    } else {
      ShortAfterMagic((MAGIC + body)[..n]);
    }
  }

  lemma NotOpenSshWithoutMagic(raw: seq<byte>)
    requires !(MAGIC <= raw)
    ensures OuterResult(raw) == Err(NotOpenSsh)
  {
  }

  lemma ShortAfterMagic(raw: seq<byte>)
    requires MAGIC <= raw && ReadOuter(Cursor(raw[|MAGIC|..], false)).1.short
    ensures OuterResult(raw) == Err(Truncated)
  {
  }

  lemma CutConcat(a: seq<byte>, b: seq<byte>, n: nat)
    requires n <= |a + b|
    ensures
      var cut := (a + b)[..n];
      if n < |a| then !(a <= cut) else a <= cut && cut[|a|..] == b[..n - |a|]
  {
  }

  /** An accepted blob may carry anything after the private section: trailing octets are ignored. */
  lemma OuterFieldsDecide(o: Outer, rest: seq<byte>)
    requires Writable(o)
    ensures OuterResult(MAGIC + WriteOuter(o) + rest) ==
      if o.cipher != NONE || o.kdf != NONE then Err(Encrypted) else if o.count != 1 then Err(WrongCount) else Ok(o.priv)
  {
    var body := WriteOuter(o) + rest;
    var raw := MAGIC + body;
    assert MAGIC + WriteOuter(o) + rest == raw;
    assert MAGIC <= raw && raw[|MAGIC|..] == body;
    assert ReadOuter(Cursor(body, false)) == (o, Cursor(rest, false)) by {
      OuterRoundTrip(o, rest);
    }
  }

  // ---- Written keys ----------------------------------------------------------------

  function WriteStrs(fields: seq<seq<byte>>): seq<byte> {
    if fields == [] then [] else WriteStr(fields[0]) + WriteStrs(fields[1..])
  }

  /** The private section: two check integers, the key type, its fields, and padding. */
  function WriteSection(check1: nat, check2: nat, keyType: seq<byte>, fields: seq<seq<byte>>, padding: seq<byte>): seq<byte> {
    WriteU32(check1) + (WriteU32(check2) + (WriteStr(keyType) + (WriteStrs(fields) + padding)))
  }

  /** The key these fields are; numbers may be written with any leading zeros. */
  function BodyOf(keyType: seq<byte>, fields: seq<seq<byte>>): Option<Body> {
    if keyType == SSH_ED25519 then
      if |fields| == 2 then Some(Ed25519Body(fields[0], fields[1])) else None
    else if keyType == SSH_RSA then
      if |fields| == 6 then
        Some(RsaBody(ToNat(fields[0]), ToNat(fields[1]), ToNat(fields[2]), ToNat(fields[3]), ToNat(fields[4]), ToNat(fields[5])))
      else None
    else if IsEcdsa(keyType) then
      if |fields| == 3 then Some(EcdsaBody(fields[0], fields[1], ToNat(fields[2]))) else None
    else None
  }

  ghost predicate AllFit(fields: seq<seq<byte>>) {
    forall i :: 0 <= i < |fields| ==> |fields[i]| < Pow256(4)
  }

  /** The cursor before field `i`. */
  function FieldsFrom(fields: seq<seq<byte>>, i: nat, rest: seq<byte>): Cursor
    requires i <= |fields|
  {
    Cursor(WriteStrs(fields[i..]) + rest, false)
  }

  lemma FieldReads(fields: seq<seq<byte>>, i: nat, rest: seq<byte>)
    requires i < |fields| && AllFit(fields)
    ensures ReadStr(FieldsFrom(fields, i, rest)) == (fields[i], FieldsFrom(fields, i + 1, rest))
  {
    StrRoundTrip(fields[i], WriteStrs(fields[i + 1..]) + rest);
    FieldThenOthers(fields, i, rest);
  }

  lemma FieldThenOthers(fields: seq<seq<byte>>, i: nat, rest: seq<byte>)
    requires i < |fields|
    ensures WriteStrs(fields[i..]) + rest == WriteStr(fields[i]) + (WriteStrs(fields[i + 1..]) + rest)
  {
    var tail := fields[i..];
    assert tail[0] == fields[i] && tail[1..] == fields[i + 1..];
    Regroup(WriteStr(fields[i]), WriteStrs(fields[i + 1..]), rest);
  }

  lemma Regroup(a: seq<byte>, b: seq<byte>, c: seq<byte>)
    ensures a + b + c == a + (b + c)
  {
  }

  lemma FieldsEnds(fields: seq<seq<byte>>, rest: seq<byte>)
    ensures FieldsFrom(fields, 0, rest) == Cursor(WriteStrs(fields) + rest, false)
    ensures FieldsFrom(fields, |fields|, rest) == Cursor(rest, false)
  {
    assert fields[0..] == fields && fields[|fields|..] == [];
    assert [] + rest == rest;
  }

  /** `at(i)` is the cursor before field `i`: reading there gives the field and moves on. */
  ghost predicate ReadsOn(at: nat -> Cursor, fields: seq<seq<byte>>) {
    forall i: nat | i < |fields| :: ReadStr(at(i)) == (fields[i], at(i + 1))
  }

  function CursorAt(fields: seq<seq<byte>>, rest: seq<byte>): nat -> Cursor {
    (i: nat) => if i <= |fields| then FieldsFrom(fields, i, rest) else Cursor([], true)
  }

  lemma FieldsReadOn(fields: seq<seq<byte>>, rest: seq<byte>)
    requires AllFit(fields)
    ensures ReadsOn(CursorAt(fields, rest), fields)
    ensures CursorAt(fields, rest)(0) == Cursor(WriteStrs(fields) + rest, false)
    ensures CursorAt(fields, rest)(|fields|) == Cursor(rest, false)
  {
    var at := CursorAt(fields, rest);
    forall i: nat | i < |fields|
      ensures ReadStr(at(i)) == (fields[i], at(i + 1))
    {
      FieldReads(fields, i, rest);
    }
    FieldsEnds(fields, rest);
  }

  lemma Ed25519Reads(at: nat -> Cursor, fields: seq<seq<byte>>)
    requires |fields| == 2 && ReadsOn(at, fields)
    ensures ReadEd25519(at(0)) == (Ed25519Body(fields[0], fields[1]), at(2))
  {
    assert ReadStr(at(0)).1 == at(1) && ReadStr(at(1)).1 == at(2);
  }

  lemma RsaReads(at: nat -> Cursor, fields: seq<seq<byte>>)
    requires |fields| == 6 && ReadsOn(at, fields)
    ensures ReadRsa(at(0)) ==
      (RsaBody(ToNat(fields[0]), ToNat(fields[1]), ToNat(fields[2]), ToNat(fields[3]), ToNat(fields[4]), ToNat(fields[5])), at(6))
  {
    assert ReadMpint(at(0)) == (ToNat(fields[0]), at(1));
    assert ReadMpint(at(1)) == (ToNat(fields[1]), at(2));
    assert ReadMpint(at(2)) == (ToNat(fields[2]), at(3));
    assert ReadMpint(at(3)) == (ToNat(fields[3]), at(4));
    assert ReadMpint(at(4)) == (ToNat(fields[4]), at(5));
    assert ReadMpint(at(5)) == (ToNat(fields[5]), at(6));
  }

  lemma EcdsaReads(at: nat -> Cursor, fields: seq<seq<byte>>)
    requires |fields| == 3 && ReadsOn(at, fields)
    ensures ReadEcdsa(at(0)) == (EcdsaBody(fields[0], fields[1], ToNat(fields[2])), at(3))
  {
    assert ReadStr(at(0)).1 == at(1) && ReadStr(at(1)).1 == at(2);
    assert ReadMpint(at(2)) == (ToNat(fields[2]), at(3));
  }

  lemma FieldsJudged(lib: KeyLibrary, keyType: seq<byte>, fields: seq<seq<byte>>, padding: seq<byte>)
    requires AllFit(fields) && BodyOf(keyType, fields).Some?
    ensures
      var body := BodyOf(keyType, fields).value;
      BodyResult(lib, keyType, Cursor(WriteStrs(fields) + padding, false)) == if Accepted(lib, body) then Ok(body) else Err(BadBody)
  {
    var at := CursorAt(fields, padding);
    FieldsReadOn(fields, padding);
    if keyType == SSH_ED25519 {
      Ed25519Reads(at, fields);
    } else if keyType == SSH_RSA {
      RsaReads(at, fields);
    } else {
      EcdsaReads(at, fields);
    }
  }

  lemma SectionReads(lib: KeyLibrary, check1: nat, check2: nat, keyType: seq<byte>, fields: seq<seq<byte>>, padding: seq<byte>)
    requires check1 < Pow256(4) && check2 < Pow256(4) && |keyType| < Pow256(4)
    ensures InnerResult(lib, WriteSection(check1, check2, keyType, fields, padding)) ==
      if check1 != check2 then Err(CheckMismatch)
      else BodyResult(lib, keyType, Cursor(WriteStrs(fields) + padding, false))
  {
    var after := WriteStrs(fields) + padding;
    StrRoundTrip(keyType, after);
    U32RoundTrip(check2, WriteStr(keyType) + after);
    U32RoundTrip(check1, WriteU32(check2) + (WriteStr(keyType) + after));
  }

  /**
   A written key of each type reads back as its fields, exactly when its two check integers are
   equal and the libraries accept the fields.
   */
  lemma WrittenKeyParses(lib: KeyLibrary, o: Outer, check1: nat, check2: nat, keyType: seq<byte>, fields: seq<seq<byte>>,
                         padding: seq<byte>, trailing: seq<byte>)
    requires Writable(o) && o.cipher == NONE && o.kdf == NONE && o.count == 1
    requires o.priv == WriteSection(check1, check2, keyType, fields, padding)
    requires check1 < Pow256(4) && check2 < Pow256(4) && |keyType| < Pow256(4) && AllFit(fields) && BodyOf(keyType, fields).Some?
    ensures
      var body := BodyOf(keyType, fields).value;
      Parsed(lib, MAGIC + WriteOuter(o) + trailing) ==
        if check1 != check2 then Err(CheckMismatch) else if Accepted(lib, body) then Ok(body) else Err(BadBody)
  {
    OuterFieldsDecide(o, trailing);
    SectionReads(lib, check1, check2, keyType, fields, padding);
    FieldsJudged(lib, keyType, fields, padding);
  }

  /** A key of any other type is refused, whatever its fields. */
  lemma UnknownTypeIsRefused(lib: KeyLibrary, o: Outer, check: nat, keyType: seq<byte>, fields: seq<seq<byte>>,
                             padding: seq<byte>, trailing: seq<byte>)
    requires Writable(o) && o.cipher == NONE && o.kdf == NONE && o.count == 1
    requires o.priv == WriteSection(check, check, keyType, fields, padding)
    requires check < Pow256(4) && |keyType| < Pow256(4)
    requires keyType != SSH_ED25519 && keyType != SSH_RSA && !IsEcdsa(keyType)
    ensures Parsed(lib, MAGIC + WriteOuter(o) + trailing) == Err(BadBody)
  {
    OuterFieldsDecide(o, trailing);
    SectionReads(lib, check, check, keyType, fields, padding);
  }

  // ---- Names and shapes on the wire ------------------------------------------------

  lemma MarkersOnTheWire()
    ensures MAGIC == OctetsOf("openssh-key-v1\0") && NONE == OctetsOf("none")
    ensures SSH_ED25519 == OctetsOf("ssh-ed25519") && SSH_RSA == OctetsOf("ssh-rsa")
  {
  }

  lemma EcdsaNames()
    ensures ECDSA_PREFIX == OctetsOf("ecdsa-sha2-nistp") && NISTP == OctetsOf("nistp")
    ensures OctetsOf("256") == [50, 53, 54] && OctetsOf("384") == [51, 56, 52] && OctetsOf("521") == [53, 50, 49]
  {
  }

  lemma OctetsOfConcat(s: string, t: string)
    ensures OctetsOf(s + t) == OctetsOf(s) + OctetsOf(t)
  {
  }

  lemma EcdsaTypesOnTheWire(keyType: seq<byte>)
    ensures IsEcdsa(keyType) <==>
      exists bits :: bits in {"256", "384", "521"} && keyType == OctetsOf("ecdsa-sha2-nistp" + bits)
  {
    EcdsaNames();
    OctetsOfConcat("ecdsa-sha2-nistp", "256");
    OctetsOfConcat("ecdsa-sha2-nistp", "384");
    OctetsOfConcat("ecdsa-sha2-nistp", "521");
  }

  lemma CurvesOnTheWire()
    ensures SshCurveSize(OctetsOf("nistp" + "256")) == Some(32)
    ensures SshCurveSize(OctetsOf("nistp" + "384")) == Some(48)
    ensures SshCurveSize(OctetsOf("nistp" + "521")) == Some(66)
  {
    EcdsaNames();
    OctetsOfConcat("nistp", "256");
    OctetsOfConcat("nistp", "384");
    OctetsOfConcat("nistp", "521");
    assert (NISTP + [50, 53, 54])[5] == 50 && (NISTP + [51, 56, 52])[5] == 51 && (NISTP + [53, 50, 49])[5] == 53;
  }

  lemma NoOtherCurve(id: seq<byte>)
    requires SshCurveSize(id).Some?
    ensures exists bits :: bits in {"256", "384", "521"} && id == OctetsOf("nistp" + bits)
  {
    EcdsaNames();
    OctetsOfConcat("nistp", "256");
    OctetsOfConcat("nistp", "384");
    OctetsOfConcat("nistp", "521");
  }

  /** An uncompressed point of full-width coordinates, of the scalar written beside it. */
  lemma PointsAccepted(lib: KeyLibrary, curve: seq<byte>, x: seq<byte>, y: seq<byte>, d: nat, size: nat)
    requires SshCurveSize(curve) == Some(size)
    ensures Accepted(lib, EcdsaBody(curve, [4] + x + y, d)) && |x| == |y| <==>
      |x| == |y| == size && d < Pow256(size) && lib.ecPublic(curve, FromNat(d, size)) == Some([4] + x + y)
  {
    assert ([4] + x + y)[0] == 4;
  }

  lemma AcceptedHasForm(lib: KeyLibrary, body: Body)
    requires Accepted(lib, body)
    ensures body.Ed25519Body? ==> |body.priv| == 64
    ensures body.RsaBody? ==> lib.rsaValid(body.n, body.e, body.d, body.p, body.q)
    ensures body.EcdsaBody? ==>
      && SshCurveSize(body.curve).Some?
      && var size := SshCurveSize(body.curve).value;
      && |body.point| == 1 + 2 * size && body.point[0] == 4 && body.d < Pow256(size)
      && lib.ecPublic(body.curve, FromNat(body.d, size)) == Some(body.point)
  {
  }

  lemma FormsAccepted(lib: KeyLibrary, publicKey: seq<byte>, priv: seq<byte>, n: nat, e: nat, d: nat, iqmp: nat, p: nat, q: nat)
    ensures Accepted(lib, Ed25519Body(publicKey, priv)) <==> |priv| == 64
    ensures Accepted(lib, RsaBody(n, e, d, iqmp, p, q)) <==> lib.rsaValid(n, e, d, p, q)
  {
  }
}
