/** Octets, big-endian numbers and exclusive or, as encoding/binary and math/big read them. */
module Bytes {
  type byte = x: int | 0 <= x < 256

  /** Go's conversions between strings of octets and byte slices. */
  function OctetsOf(s: string): seq<byte> {
    seq(|s|, i requires 0 <= i < |s| => s[i] as int % 256)
  }

  function TextOf(b: seq<byte>): string {
    seq(|b|, i requires 0 <= i < |b| => b[i] as char)
  }

  predicate IsOctetText(s: string) {
    forall i :: 0 <= i < |s| ==> s[i] as int < 256
  }

  lemma TextOfOctets(s: string)
    requires IsOctetText(s)
    ensures TextOf(OctetsOf(s)) == s
  {
  }

  function Pow256(k: nat): nat {
    if k == 0 then 1 else 256 * Pow256(k - 1)
  }

  /** big.Int.SetBytes, and binary.BigEndian.Uint64 or Uint32 on eight or four octets. */
  function ToNat(b: seq<byte>): nat {
    if b == [] then 0 else 256 * ToNat(b[..|b| - 1]) + b[|b| - 1]
  }

  /** The low `size` octets of `n`, most significant first: PutUint64, PutUint32, FillBytes. */
  function FromNat(n: nat, size: nat): (b: seq<byte>)
    ensures |b| == size
    decreases size
  {
    if size == 0 then [] else FromNat(n / 256, size - 1) + [n % 256]
  }

  lemma {:induction false} ToNatBound(b: seq<byte>)
    ensures ToNat(b) < Pow256(|b|)
  {
    if b != [] {
      ToNatBound(b[..|b| - 1]);
    }
  }

  lemma {:induction false} ToNatOfFromNat(n: nat, size: nat)
    requires n < Pow256(size)
    ensures ToNat(FromNat(n, size)) == n
    decreases size
  {
    if size > 0 {
      ToNatOfFromNat(n / 256, size - 1);
      assert FromNat(n, size)[..size - 1] == FromNat(n / 256, size - 1);
    }
  }

  lemma {:induction false} FromNatOfToNat(b: seq<byte>)
    ensures FromNat(ToNat(b), |b|) == b
  {
    if b != [] {
      FromNatOfToNat(b[..|b| - 1]);
    }
  }

  /** The first octet counts most. */
  lemma {:induction false} MostSignificantFirst(first: byte, rest: seq<byte>)
    ensures ToNat([first] + rest) == first * Pow256(|rest|) + ToNat(rest)
  {
    if rest != [] {
      var init, last := rest[..|rest| - 1], rest[|rest| - 1];
      MostSignificantFirst(first, init);
      assert ([first] + rest)[..|rest|] == [first] + init;
      assert 256 * (first * Pow256(|init|)) == first * (256 * Pow256(|init|));
    } else {
      assert [first] + rest == [first] && [first][..0] == [];
    }
  }

  /** Bitwise exclusive or. */
  function Xor(x: nat, y: nat): nat
    decreases x + y
  {
    if x == 0 && y == 0 then 0 else 2 * Xor(x / 2, y / 2) + (x % 2 + y % 2) % 2
  }

  lemma XorHalves(x: nat, y: nat)
    ensures Xor(x, y) / 2 == Xor(x / 2, y / 2) && Xor(x, y) % 2 == (x % 2 + y % 2) % 2
  {
  }

  lemma {:induction false} XorUndoes(x: nat, y: nat)
    ensures Xor(Xor(x, y), y) == x
    decreases x + y
  {
    if x != 0 || y != 0 {
      var z := Xor(x, y);
      XorUndoes(x / 2, y / 2);
      XorHalves(x, y);
      XorHalves(z, y);
      assert Xor(z, y) / 2 == x / 2;
      ParityUndoes(x % 2, y % 2);
      SameHalves(Xor(z, y), x);
    }
  }

  lemma ParityUndoes(a: nat, b: nat)
    requires a < 2 && b < 2
    ensures ((a + b) % 2 + b) % 2 == a
  {
  }

  lemma SameHalves(x: nat, y: nat)
    requires x / 2 == y / 2 && x % 2 == y % 2
    ensures x == y
  {
  }

  function Pow2(k: nat): nat {
    if k == 0 then 1 else 2 * Pow2(k - 1)
  }

  lemma {:induction false} XorBound(x: nat, y: nat, k: nat)
    requires x < Pow2(k) && y < Pow2(k)
    ensures Xor(x, y) < Pow2(k)
    decreases k
  {
    if k > 0 && (x != 0 || y != 0) {
      XorBound(x / 2, y / 2, k - 1);
    }
  }

  lemma {:induction false} OctetsAreEightBits(k: nat)
    ensures Pow2(8 * k) == Pow256(k)
  {
    if k > 0 {
      OctetsAreEightBits(k - 1);
      var m := 8 * k;
      assert Pow2(m) == 2 * Pow2(m - 1) && Pow2(m - 1) == 2 * Pow2(m - 2) && Pow2(m - 2) == 2 * Pow2(m - 3);
      assert Pow2(m - 3) == 2 * Pow2(m - 4) && Pow2(m - 4) == 2 * Pow2(m - 5) && Pow2(m - 5) == 2 * Pow2(m - 6);
      assert Pow2(m - 6) == 2 * Pow2(m - 7) && Pow2(m - 7) == 2 * Pow2(m - 8);
    }
  }
}
