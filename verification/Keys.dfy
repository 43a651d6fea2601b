/**
 JSON Web Keys: the canonical-representation check, and the thumbprint text of section 3 of
 RFC 7638, which names one key's material in exactly one way.
 */
module Keys {
  import opened Wrappers
  import opened Bytes
  import opened Strings
  import B64

  datatype Key = Key(
    kty: string, kid: string, use: string, keyOps: seq<string>, alg: string,
    n: seq<byte>, e: seq<byte>, crv: string, x: seq<byte>, y: seq<byte>, k: seq<byte>)

  const RSA := "RSA"
  const EC := "EC"
  const OKP := "OKP"
  const OCT := "oct"
  const ED25519_CURVE := "Ed25519"
  const MAX_RSA_KEY_BITS: nat := 8192

  /** curveByName, as the coordinate size in octets. */
  function CurveSize(crv: string): Option<nat> {
    if crv == "P-256" then Some(32)
    else if crv == "P-384" then Some(48)
    else if crv == "P-521" then Some(66)
    else None
  }

  function BitLen(n: nat): nat {
    if n == 0 then 0 else 1 + BitLen(n / 2)
  }

  // ---- Key operations and representation -------------------------------------------

  datatype OpClass = Signing | Encrypting | Deriving | OtherOp

  function ClassOf(op: string): OpClass {
    if op == "sign" || op == "verify" then Signing
    else if op == "encrypt" || op == "decrypt" || op == "wrapKey" || op == "unwrapKey" then Encrypting
    else if op == "deriveKey" || op == "deriveBits" then Deriving
    else OtherOp
  }

  /** Section 4.3 of RFC 7517: an operation that `use` does not allow. */
  predicate Contradicts(use: string, op: string) {
    || (use == "sig" && !ClassOf(op).Signing?)
    || (use == "enc" && !ClassOf(op).Encrypting? && !ClassOf(op).Deriving?)
  }

  predicate NoRepeats(ops: seq<string>) {
    forall i, j :: 0 <= i < j < |ops| ==> ops[i] != ops[j]
  }

  predicate OneClass(ops: seq<string>) {
    forall i, j :: 0 <= i < |ops| && 0 <= j < |ops| && ClassOf(ops[i]) != ClassOf(ops[j]) ==>
      ClassOf(ops[i]).OtherOp? || ClassOf(ops[j]).OtherOp?
  }

  /** No leading zero octets in RSA numbers, fixed width for coordinates; absent members pass. */
  predicate CanonicalMaterial(k: Key) {
    if k.kty == RSA then
      && (k.n != [] ==> k.n[0] != 0) && (k.e != [] ==> k.e[0] != 0)
      && BitLen(ToNat(k.n)) <= MAX_RSA_KEY_BITS
    else if k.kty == EC then
      var size := CurveSize(k.crv);
      size.Some? ==> (k.x != [] ==> |k.x| == size.value) && (k.y != [] ==> |k.y| == size.value)
    else if k.kty == OKP then
      k.crv == ED25519_CURVE && k.x != [] ==> |k.x| == 32
    else
      true
  }

  predicate Canonical(k: Key) {
    && NoRepeats(k.keyOps)
    && (forall i :: 0 <= i < |k.keyOps| ==> !Contradicts(k.use, k.keyOps[i]))
    && OneClass(k.keyOps)
    && CanonicalMaterial(k)
  }

  /** The bit mask checkCanonical accumulates, from the classes seen. */
  function Mask(signing: bool, encrypting: bool, deriving: bool): bv8 {
    (if signing then 1 else 0) | (if encrypting then 2 else 0) | (if deriving then 4 else 0)
  }

  ghost predicate Seen(ops: seq<string>, c: OpClass) {
    exists i :: 0 <= i < |ops| && ClassOf(ops[i]) == c
  }

  ghost function MaskOf(ops: seq<string>): bv8 {
    Mask(Seen(ops, Signing), Seen(ops, Encrypting), Seen(ops, Deriving))
  }

  lemma SeenAppend(ops: seq<string>, op: string, c: OpClass)
    ensures Seen(ops + [op], c) <==> Seen(ops, c) || ClassOf(op) == c
  {
    if Seen(ops, c) {
      var i :| 0 <= i < |ops| && ClassOf(ops[i]) == c;
      assert ClassOf((ops + [op])[i]) == c;
    }
    if ClassOf(op) == c {
      assert ClassOf((ops + [op])[|ops|]) == c;
    }
  }

  lemma MaskMixed(a: bool, b: bool, c: bool)
    ensures
      var m := Mask(a, b, c);
      (m != 0 && m & (m - 1) != 0) <==> (a && b) || (a && c) || (b && c)
  {
  }

  lemma MixedIsNotOneClass(ops: seq<string>)
    ensures var m := MaskOf(ops); (m != 0 && m & (m - 1) != 0) <==> !OneClass(ops)
  {
    MaskMixed(Seen(ops, Signing), Seen(ops, Encrypting), Seen(ops, Deriving));
    if !OneClass(ops) {
      var i, j :| 0 <= i < |ops| && 0 <= j < |ops| && ClassOf(ops[i]) != ClassOf(ops[j])
        && !ClassOf(ops[i]).OtherOp? && !ClassOf(ops[j]).OtherOp?;
      assert Seen(ops, ClassOf(ops[i])) && Seen(ops, ClassOf(ops[j]));
    }
  }

  /** checkCanonical: the loop over key_ops with its `seen` map and class mask, then the material. */
  method CheckCanonical(k: Key) returns (ok: bool)
    ensures ok <==> Canonical(k)
  {
    var seen: set<string> := {};
    var classes: bv8 := 0;
    for i := 0 to |k.keyOps|
      invariant seen == set j | 0 <= j < i :: k.keyOps[j]
      invariant classes == MaskOf(k.keyOps[..i])
      invariant NoRepeats(k.keyOps[..i])
      invariant forall j :: 0 <= j < i ==> !Contradicts(k.use, k.keyOps[j])
    {
      var op := k.keyOps[i];
      if op in seen {
        return false;
      }
      seen := seen + {op};
      assert k.keyOps[..i + 1] == k.keyOps[..i] + [op];
      SeenAppend(k.keyOps[..i], op, Signing);
      SeenAppend(k.keyOps[..i], op, Encrypting);
      SeenAppend(k.keyOps[..i], op, Deriving);
      match ClassOf(op) {
        case Signing => classes := classes | 1;
        case Encrypting => classes := classes | 2;
        case Deriving => classes := classes | 4;
        case OtherOp =>
      }
      if Contradicts(k.use, op) {
        return false;
      }
    }
    assert k.keyOps[..|k.keyOps|] == k.keyOps;
    MixedIsNotOneClass(k.keyOps);
    if classes != 0 && classes & (classes - 1) != 0 {
      return false;
    }
    ok := CanonicalMaterial(k);
  }

  // ---- Thumbprints -----------------------------------------------------------------

  /** fmt's %q on printable text: quotes and backslashes are escaped. */
  function Escape(s: string): string {
    if s == "" then ""
    else (if s[0] == '"' then "\\\"" else if s[0] == '\\' then "\\\\" else [s[0]]) + Escape(s[1..])
  }

  /** One member of the canonical object: both name and value are strings. */
  function Member(m: (string, string)): string {
    "\"" + Escape(m.0) + "\":\"" + Escape(m.1) + "\""
  }

  /** The members, the commas between them, and the closing brace. */
  function MembersText(ms: seq<(string, string)>): string
    requires ms != []
    decreases |ms|, 0
  {
    Member(ms[0]) + RestText(ms[1..])
  }

  function RestText(ms: seq<(string, string)>): string
    decreases |ms|, 1
  {
    if ms == [] then "}" else "," + MembersText(ms)
  }

  /** The required members, in lexicographic order of their names. */
  function RequiredMembers(k: Key): Option<seq<(string, string)>> {
    if k.kty == RSA then
      if k.n == [] || k.e == [] then None
      else Some([("e", B64.Encode(k.e)), ("kty", RSA), ("n", B64.Encode(k.n))])
    else if k.kty == EC then
      if k.crv == "" || k.x == [] || k.y == [] then None
      else Some([("crv", k.crv), ("kty", EC), ("x", B64.Encode(k.x)), ("y", B64.Encode(k.y))])
    else if k.kty == OKP then
      if k.crv == "" || k.x == [] then None else Some([("crv", k.crv), ("kty", OKP), ("x", B64.Encode(k.x))])
    else if k.kty == OCT then
      if k.k == [] then None else Some([("k", B64.Encode(k.k)), ("kty", OCT)])
    else None
  }

  /** thumbprintInput: the canonical object, without whitespace. */
  function ThumbprintInput(k: Key): Option<string> {
    match RequiredMembers(k)
    case None => None
    case Some(ms) => Some("{" + MembersText(ms))
  }

  /** A complete key of a supported type in its canonical representation. */
  ghost predicate Supported(k: Key) {
    && Canonical(k)
    && (k.kty == RSA ==> k.n != [] && k.e != [])
    && (k.kty == EC ==> CurveSize(k.crv).Some? && k.x != [] && k.y != [])
    && (k.kty == OKP ==> k.crv == ED25519_CURVE && k.x != [])
    && (k.kty == OCT ==> k.k != [])
    && (k.kty == RSA || k.kty == EC || k.kty == OKP || k.kty == OCT)
  }

  /** What the key is, apart from how it is written down. */
  datatype Material =
    | RsaMaterial(n: nat, e: nat)
    | EcMaterial(crv: string, x: nat, y: nat)
    | OkpMaterial(publicKey: seq<byte>)
    | OctMaterial(secret: seq<byte>)

  ghost function MaterialOf(k: Key): Material
    requires Supported(k)
  {
    if k.kty == RSA then RsaMaterial(ToNat(k.n), ToNat(k.e))
    else if k.kty == EC then EcMaterial(k.crv, ToNat(k.x), ToNat(k.y))
    else if k.kty == OKP then OkpMaterial(k.x)
    else OctMaterial(k.k)
  }

  predicate Plain(s: string) {
    Lacks(s, '"') && Lacks(s, '\\')
  }

  lemma {:induction false} PlainEscape(s: string)
    requires Plain(s)
    ensures Escape(s) == s
  {
    if s != "" {
      assert s[0] != '"' && s[0] != '\\';
      assert forall i :: 0 <= i < |s| - 1 ==> s[1..][i] == s[i + 1];
      PlainEscape(s[1..]);
    }
  }

  ghost predicate PlainMembers(ms: seq<(string, string)>) {
    forall i :: 0 <= i < |ms| ==> Plain(ms[i].0) && Plain(ms[i].1)
  }

  /** A quoted text ends at its closing quote. */
  lemma QuotedPrefix(a: string, x: string, b: string, y: string)
    requires Lacks(a, '"') && Lacks(b, '"')
    requires a + ['"'] + x == b + ['"'] + y
    ensures a == b && x == y
  {
    FirstPart(a, '"', x);
    FirstPart(b, '"', y);
  }

  lemma TailsEqual(head: string, a: string, b: string)
    requires head + a == head + b
    ensures a == b
  {
    assert (head + a)[|head|..] == a && (head + b)[|head|..] == b;
  }

  lemma MemberAsParts(m: (string, string), rest: string)
    requires Plain(m.0) && Plain(m.1)
    ensures Member(m) + rest == "\"" + (m.0 + ['"'] + (":\"" + (m.1 + ['"'] + rest)))
  {
    PlainEscape(m.0);
    PlainEscape(m.1);
  }

  lemma SameMember(m: (string, string), x: string, l: (string, string), y: string)
    requires Plain(m.0) && Plain(m.1) && Plain(l.0) && Plain(l.1)
    requires Member(m) + x == Member(l) + y
    ensures m == l && x == y
  {
    MemberAsParts(m, x);
    MemberAsParts(l, y);
    var mv, lv := m.1 + ['"'] + x, l.1 + ['"'] + y;
    TailsEqual("\"", m.0 + ['"'] + (":\"" + mv), l.0 + ['"'] + (":\"" + lv));
    QuotedPrefix(m.0, ":\"" + mv, l.0, ":\"" + lv);
    TailsEqual(":\"", mv, lv);
    QuotedPrefix(m.1, x, l.1, y);
  }

  /** The text of an object determines its members. */
  lemma {:induction false} SameMembers(ms: seq<(string, string)>, ls: seq<(string, string)>)
    requires ms != [] && ls != [] && PlainMembers(ms) && PlainMembers(ls)
    requires MembersText(ms) == MembersText(ls)
    ensures ms == ls
    decreases |ms|
  {
    var rest, rest' := RestText(ms[1..]), RestText(ls[1..]);
    SameMember(ms[0], rest, ls[0], rest');
    assert rest[0] == (if |ms| == 1 then '}' else ',') && rest'[0] == (if |ls| == 1 then '}' else ',');
    if |ms| > 1 {
      TailsEqual(",", MembersText(ms[1..]), MembersText(ls[1..]));
      SameMembers(ms[1..], ls[1..]);
      assert ms == [ms[0]] + ms[1..] && ls == [ls[0]] + ls[1..];
    }
  }

  lemma EncodedIsPlain(b: seq<byte>)
    ensures Plain(B64.Encode(b))
  {
    B64.DecodeTextOfEncode(true, b);
  }

  lemma PlainNames()
    ensures Plain("e") && Plain("kty") && Plain("n") && Plain("crv") && Plain("x") && Plain("y") && Plain("k")
    ensures Plain(RSA) && Plain(EC) && Plain(OKP) && Plain(OCT) && Plain(ED25519_CURVE)
    ensures forall crv :: CurveSize(crv).Some? ==> Plain(crv)
  {
  }

  lemma SupportedMembers(k: Key)
    requires Supported(k)
    ensures RequiredMembers(k).Some? && RequiredMembers(k).value != [] && PlainMembers(RequiredMembers(k).value)
  {
    PlainNames();
    EncodedIsPlain(k.n);
    EncodedIsPlain(k.e);
    EncodedIsPlain(k.x);
    EncodedIsPlain(k.y);
    EncodedIsPlain(k.k);
    var ms := RequiredMembers(k).value;
    assert Plain(ms[0].0) && Plain(ms[0].1) && Plain(ms[1].0) && Plain(ms[1].1);
    assert |ms| > 2 ==> Plain(ms[2].0) && Plain(ms[2].1);
    assert |ms| > 3 ==> Plain(ms[3].0) && Plain(ms[3].1);
  }

  lemma SameText(k: Key, l: Key)
    requires Supported(k) && Supported(l)
    ensures ThumbprintInput(k) == ThumbprintInput(l) <==> RequiredMembers(k) == RequiredMembers(l)
  {
    SupportedMembers(k);
    SupportedMembers(l);
    var ms, ls := RequiredMembers(k).value, RequiredMembers(l).value;
    if ThumbprintInput(k) == ThumbprintInput(l) {
      TailsEqual("{", MembersText(ms), MembersText(ls));
      SameMembers(ms, ls);
    }
  }

  /** Without leading zeros a number has one octet string. */
  lemma MinimalOctets(a: seq<byte>, b: seq<byte>)
    requires a != [] && b != [] && a[0] != 0 && b[0] != 0
    ensures ToNat(a) == ToNat(b) <==> a == b
  {
    if |a| < |b| {
      ShorterIsLess(a, b);
    } else if |b| < |a| {
      ShorterIsLess(b, a);
    } else {
      SameWidth(a, b);
    }
  }

  lemma ShorterIsLess(a: seq<byte>, b: seq<byte>)
    requires |a| < |b| && b[0] != 0
    ensures ToNat(a) < ToNat(b)
  {
    ToNatBound(a);
    PowersGrow(|a|, |b| - 1);
    NonzeroLead(b);
  }

  lemma {:induction false} NonzeroLead(b: seq<byte>)
    requires b != [] && b[0] != 0
    ensures ToNat(b) >= Pow256(|b| - 1)
  {
    if |b| > 1 {
      NonzeroLead(b[..|b| - 1]);
    }
  }

  lemma {:induction false} PowersGrow(i: nat, j: nat)
    requires i <= j
    ensures Pow256(i) <= Pow256(j)
    decreases j
  {
    if i < j {
      PowersGrow(i, j - 1);
    }
  }

  /** At one width a number has one octet string. */
  lemma SameWidth(a: seq<byte>, b: seq<byte>)
    requires |a| == |b|
    ensures ToNat(a) == ToNat(b) <==> a == b
  {
    FromNatOfToNat(a);
    FromNatOfToNat(b);
  }

  lemma SameMembersSameType(k: Key, l: Key)
    requires Supported(k) && Supported(l)
    ensures RequiredMembers(k) == RequiredMembers(l) <==>
      k.kty == l.kty &&
      if k.kty == RSA then k.n == l.n && k.e == l.e
      else if k.kty == EC then k.crv == l.crv && k.x == l.x && k.y == l.y
      else if k.kty == OKP then k.x == l.x
      else k.k == l.k
  {
    B64.EncodeIsInjective(k.n, l.n);
    B64.EncodeIsInjective(k.e, l.e);
    B64.EncodeIsInjective(k.x, l.x);
    B64.EncodeIsInjective(k.y, l.y);
    B64.EncodeIsInjective(k.k, l.k);
    SupportedMembers(k);
    SupportedMembers(l);
    var ms, ls := RequiredMembers(k).value, RequiredMembers(l).value;
    if ms == ls {
      assert ms[1] == ls[1] && ms[0] == ls[0] && ms[|ms| - 1] == ls[|ls| - 1];
      assert |ms| == 4 ==> ms[2] == ls[2];
      assert ms[1] == ("kty", k.kty) && ls[1] == ("kty", l.kty);
    }
  }

  lemma SameMaterial(k: Key, l: Key)
    requires Supported(k) && Supported(l) && k.kty == l.kty
    ensures MaterialOf(k) == MaterialOf(l) <==>
      if k.kty == RSA then k.n == l.n && k.e == l.e
      else if k.kty == EC then k.crv == l.crv && k.x == l.x && k.y == l.y
      else if k.kty == OKP then k.x == l.x
      else k.k == l.k
  {
    if k.kty == RSA {
      MinimalOctets(k.n, l.n);
      MinimalOctets(k.e, l.e);
    } else if k.kty == EC && k.crv == l.crv {
      SameWidth(k.x, l.x);
      SameWidth(k.y, l.y);
    }
  }

  /**
   Two supported keys have the same thumbprint text exactly when they have the same material,
   whatever their kid, use, key_ops and alg.
   */
  lemma ThumbprintNamesTheMaterial(k: Key, l: Key)
    requires Supported(k) && Supported(l)
    ensures ThumbprintInput(k) == ThumbprintInput(l) <==> MaterialOf(k) == MaterialOf(l)
  {
    SameText(k, l);
    SameMembersSameType(k, l);
    if k.kty == l.kty {
      SameMaterial(k, l);
    }
  }

  /** Why checkCanonical refuses leading zeros: the same RSA numbers would have a second thumbprint. */
  lemma PaddedModulusHasAnotherThumbprint(k: Key)
    requires Supported(k) && k.kty == RSA
    ensures
      var padded := k.(n := [0] + k.n);
      ToNat(padded.n) == ToNat(k.n) && ThumbprintInput(padded) != ThumbprintInput(k) && !Canonical(padded)
  {
    var padded := k.(n := [0] + k.n);
    LeadingZero(k.n);
    SupportedMembers(k);
    EncodedIsPlain(padded.n);
    B64.EncodeIsInjective(padded.n, k.n);
    var ms, ls := RequiredMembers(padded).value, RequiredMembers(k).value;
    assert ms[2].1 != ls[2].1;
    if ThumbprintInput(padded) == ThumbprintInput(k) {
      TailsEqual("{", MembersText(ms), MembersText(ls));
      SameMembers(ms, ls);
    }
  }

  lemma {:induction false} LeadingZero(b: seq<byte>)
    ensures ToNat([0] + b) == ToNat(b)
  {
    if b != [] {
      LeadingZero(b[..|b| - 1]);
      assert ([0] + b)[..|b|] == [0] + b[..|b| - 1];
    }
  }
}
