/** The fixed-width R||S form of ECDSA signatures (section 3.4 of RFC 7518). */
module EcdsaSignature {
  import opened Wrappers
  import opened Bytes

  /** What the verifier reads out of a signature; any other length is refused. */
  function IntegersOf(sig: seq<byte>, size: nat): Option<(nat, nat)> {
    if |sig| != 2 * size then None else Some((ToNat(sig[..size]), ToNat(sig[size..])))
  }

  function SignatureOf(r: nat, s: nat, size: nat): (sig: seq<byte>)
    ensures |sig| == 2 * size
  {
    FromNat(r, size) + FromNat(s, size)
  }

  /** big.Int.FillBytes into a part of a buffer; it panics on a number that does not fit. */
  method FillBytes(out: array<byte>, from: nat, size: nat, n: nat)
    requires from + size <= out.Length && n < Pow256(size)
    modifies out
    ensures out[..from] == old(out[..from]) && out[from + size..] == old(out[from + size..])
    ensures out[from..from + size] == FromNat(n, size)
  {
    var b := FromNat(n, size);
    forall i | 0 <= i < size {
      out[from + i] := b[i];
    }
  }

  /** The end of Sign: the two integers side by side. */
  method WriteSignature(r: nat, s: nat, size: nat) returns (out: array<byte>)
    requires r < Pow256(size) && s < Pow256(size)
    ensures fresh(out) && out[..] == SignatureOf(r, s, size)
  {
    out := new byte[2 * size];
    FillBytes(out, 0, size, r);
    ghost var first := out[..size];
    FillBytes(out, size, size, s);
    assert out[..size] == first;
    assert out[..] == out[..size] + out[size..size + size];
  }

  /** One signature text for each pair of integers, and nothing else reads as them. */
  lemma SignatureIsExact(sig: seq<byte>, r: nat, s: nat, size: nat)
    requires r < Pow256(size) && s < Pow256(size)
    ensures IntegersOf(sig, size) == Some((r, s)) <==> sig == SignatureOf(r, s, size)
  {
    if sig == SignatureOf(r, s, size) {
      WrittenIsRead(r, s, size);
    }
    if IntegersOf(sig, size) == Some((r, s)) {
      ReadIsWritten(sig, size);
    }
  }

  lemma WrittenIsRead(r: nat, s: nat, size: nat)
    requires r < Pow256(size) && s < Pow256(size)
    ensures IntegersOf(SignatureOf(r, s, size), size) == Some((r, s))
  {
    ToNatOfFromNat(r, size);
    ToNatOfFromNat(s, size);
    HalvesOf(FromNat(r, size), FromNat(s, size));
  }

  lemma HalvesOf(a: seq<byte>, b: seq<byte>)
    ensures (a + b)[..|a|] == a && (a + b)[|a|..] == b
  {
  }

  lemma ReadIsWritten(sig: seq<byte>, size: nat)
    requires |sig| == 2 * size
    ensures sig == SignatureOf(ToNat(sig[..size]), ToNat(sig[size..]), size)
  {
    FromNatOfToNat(sig[..size]);
    FromNatOfToNat(sig[size..]);
    Rejoined(sig, size);
  }

  lemma Rejoined(sig: seq<byte>, size: nat)
    requires size <= |sig|
    ensures sig == sig[..size] + sig[size..]
  {
  }

  /** R comes first, each integer with its most significant octet first. */
  lemma HalvesAreIntegers(r: nat, s: nat, size: nat)
    requires r < Pow256(size) && s < Pow256(size)
    ensures ToNat(SignatureOf(r, s, size)[..size]) == r && ToNat(SignatureOf(r, s, size)[size..]) == s
  {
    ToNatOfFromNat(r, size);
    ToNatOfFromNat(s, size);
    HalvesOf(FromNat(r, size), FromNat(s, size));
  }
}
