/**
 Section 2.2.1 of RFC 3394 in its own terms: numbers by their bits, registers by their octets.
 The wrapping loops produce exactly what it prescribes.
 */
module AesKeyWrapRfc {
  import opened Wrappers
  import opened Bytes
  import opened KeyWrapRounds
  import opened AesKeyWrap

  // ---- Exclusive or, bit by bit ----------------------------------------------------

  /** Bit `k` of a number, the lowest being bit zero. */
  function Bit(n: nat, k: nat): (b: nat)
    ensures b < 2
    decreases k
  {
    if k == 0 then n % 2 else Bit(n / 2, k - 1)
  }

  /** The number with the given lowest `count` bits. */
  function FromBits(bit: nat -> bool, count: nat): nat {
    if count == 0 then 0 else FromBits(bit, count - 1) + if bit(count - 1) then Pow2(count - 1) else 0
  }

  lemma {:induction false} XorBit(x: nat, y: nat, k: nat)
    ensures Bit(Xor(x, y), k) == (Bit(x, k) + Bit(y, k)) % 2
    decreases k
  {
    XorHalves(x, y);
    if k > 0 {
      XorBit(x / 2, y / 2, k - 1);
    }
  }

  /** The low bit, then the bits of the half. */
  lemma {:induction false} LowBitFirst(bit: nat -> bool, count: nat)
    requires count > 0
    ensures FromBits(bit, count) == (if bit(0) then 1 else 0) + 2 * FromBits((k: nat) => bit(k + 1), count - 1)
    decreases count
  {
    if count > 1 {
      LowBitFirst(bit, count - 1);
    }
  }

  lemma {:induction false} SameBits(f: nat -> bool, g: nat -> bool, count: nat)
    requires forall k :: 0 <= k < count ==> f(k) == g(k)
    ensures FromBits(f, count) == FromBits(g, count)
  {
    if count > 0 {
      SameBits(f, g, count - 1);
    }
  }

  /** A number is what its bits say. */
  lemma {:induction false} NumberOfBits(n: nat, count: nat)
    requires n < Pow2(count)
    ensures FromBits((k: nat) => Bit(n, k) == 1, count) == n
    decreases count
  {
    if count > 0 {
      var bit := (k: nat) => Bit(n, k) == 1;
      LowBitFirst(bit, count);
      NumberOfBits(n / 2, count - 1);
      SameBits((k: nat) => bit(k + 1), (k: nat) => Bit(n / 2, k) == 1, count - 1);
    }
  }

  const REGISTER_BITS: nat := 64

  /** The lowest bits that differ. */
  function MixedBits(x: nat, t: nat, count: nat): nat {
    FromBits((k: nat) => Bit(x, k) != Bit(t, k), count)
  }

  /** The 64-bit exclusive or of an integrity register and a counter. */
  function Mixed(a: Half, t: nat): Half {
    FromNat(MixedBits(ToNat(a), t, REGISTER_BITS), 8)
  }

  lemma XorIsMixedBits(x: nat, t: nat, count: nat)
    requires x < Pow2(count) && t < Pow2(count)
    ensures Xor(x, t) == MixedBits(x, t, count)
  {
    XorBound(x, t, count);
    NumberOfBits(Xor(x, t), count);
    forall k: nat | k < count
      ensures (Bit(Xor(x, t), k) == 1) == (Bit(x, k) != Bit(t, k))
    {
      XorBit(x, t, k);
    }
    SameBits((k: nat) => Bit(Xor(x, t), k) == 1, (k: nat) => Bit(x, k) != Bit(t, k), count);
  }

  /** Multiples of a power of two do not reach the bits below it. */
  lemma {:induction false} LowBits(n: nat, low: nat, q: nat, count: nat, k: nat)
    requires k < count && n == Pow2(count) * q + low
    ensures Bit(low, k) == Bit(n, k)
    decreases k
  {
    var p := Pow2(count - 1) * q;
    TwiceProduct(Pow2(count - 1), q);
    assert n == 2 * p + low;
    if k > 0 {
      LowBits(n / 2, low / 2, q, count - 1, k - 1);
    }
  }

  lemma TwiceProduct(p: nat, q: nat)
    ensures (2 * p) * q == 2 * (p * q)
  {
  }

  lemma MixedBitsOfLow(x: nat, t: nat, low: nat, q: nat, count: nat)
    requires t == Pow2(count) * q + low
    ensures MixedBits(x, low, count) == MixedBits(x, t, count)
  {
    forall k: nat | k < count
      ensures (Bit(x, k) != Bit(low, k)) == (Bit(x, k) != Bit(t, k))
    {
      LowBits(t, low, q, count, k);
    }
    SameBits((k: nat) => Bit(x, k) != Bit(low, k), (k: nat) => Bit(x, k) != Bit(t, k), count);
  }

  lemma RegisterRange()
    ensures Pow256(8) == Pow2(REGISTER_BITS)
  {
    OctetsAreEightBits(8);
  }

  lemma Divided(t: nat, p: nat)
    requires p > 0
    ensures t == p * (t / p) + t % p && t % p < p
  {
  }

  /** The code's exclusive or is the one told bit by bit. */
  lemma CounterIsMixedIn(a: Half, t: nat)
    ensures XorCounter(a, t) == Mixed(a, t)
  {
    var p := Pow256(8);
    ToNatBound(a);
    RegisterRange();
    Divided(t, p);
    MixedBitsOfLow(ToNat(a), t, t % p, t / p, REGISTER_BITS);
    XorIsMixedBits(ToNat(a), t % p, REGISTER_BITS);
  }

  /** Each bit of the register the code mixes is the parity of the two bits. */
  lemma CounterBits(a: Half, t: nat, k: nat)
    requires t < Pow256(8)
    ensures Bit(ToNat(XorCounter(a, t)), k) == (Bit(ToNat(a), k) + Bit(t, k)) % 2
  {
    CounterNumber(a, t);
    XorBit(ToNat(a), t, k);
  }

  lemma CounterNumber(a: Half, t: nat)
    requires t < Pow256(8)
    ensures ToNat(XorCounter(a, t)) == Xor(ToNat(a), t)
  {
    ToNatBound(a);
    RegisterRange();
    XorBound(ToNat(a), t, REGISTER_BITS);
    WithinRange(t, Pow256(8));
    ToNatOfFromNat(Xor(ToNat(a), t), 8);
  }

  lemma WithinRange(t: nat, p: nat)
    requires t < p
    ensures t % p == t
  {
  }

  // ---- The prescribed steps --------------------------------------------------------

  /** B = AES(A | R[1]), A = MSB64(B) ^ t, shift R, R[n] = LSB64(B). */
  function Next(encrypt: Block -> Block, s: Registers<Half>, t: nat): Registers<Half>
    requires |s.r| > 0
  {
    var a, first: seq<byte> := s.a, s.r[0];
    var b := encrypt(a + first);
    var low: Half := b[8..];
    Registers(Mixed(b[..8], t), s.r[1..] + [low])
  }

  function NextStep(encrypt: Block -> Block): (Registers<Half>, nat) -> Registers<Half> {
    (s: Registers<Half>, t: nat) => if |s.r| > 0 then Next(encrypt, s, t) else s
  }

  /** A = A6A6A6A6A6A6A6A6 and R[i] = P[i]. */
  function Start(plaintext: seq<byte>): Registers<Half> {
    var a: Half := [0xA6, 0xA6, 0xA6, 0xA6, 0xA6, 0xA6, 0xA6, 0xA6];
    var r: seq<Half> := seq(|plaintext| / 8, i requires 0 <= i < |plaintext| / 8 => plaintext[8 * i..8 * i + 8]);
    Registers(a, r)
  }

  /** C[0] = A and C[i] = R[i]. */
  ghost predicate IsOutput(c: seq<byte>, s: Registers<Half>) {
    && |c| == 8 * |s.r| + 8 && c[..8] == s.a
    && forall i :: 0 <= i < |s.r| ==> c[8 * i + 8..8 * i + 16] == s.r[i]
  }

  lemma ShiftStep(c: BlockCipher, s: Registers<Half>, t: nat)
    requires |s.r| > 0
    ensures
      var y := MixerOf(c).seal(s.a, s.r[0], t);
      Next(c.encrypt, s, t) == Registers(y.0, s.r[1..] + [y.1])
  {
    var a, first: seq<byte> := s.a, s.r[0];
    var b := c.encrypt(a + first);
    CounterIsMixedIn(b[..8], t);
  }

  lemma ShiftIsSteps(c: BlockCipher, s: Registers<Half>, last: nat)
    requires |s.r| > 0
    ensures Shift(MixerOf(c), 1, last, s) == Iterated(NextStep(c.encrypt), s, 1, last)
  {
    forall x: Registers<Half>, u: nat | |x.r| > 0
      ensures
        var y := MixerOf(c).seal(x.a, x.r[0], u);
        NextStep(c.encrypt)(x, u) == Registers(y.0, x.r[1..] + [y.1])
    {
      ShiftStep(c, x, u);
    }
    ShiftIsIterated(MixerOf(c), NextStep(c.encrypt), s, 1, last);
  }

  lemma StartIsHalves(plaintext: seq<byte>)
    ensures Start(plaintext) == Registers(DEFAULT_IV, Halves(plaintext))
  {
    forall i | 0 <= i < |plaintext| / 8
      ensures Halves(plaintext)[i] == plaintext[8 * i..8 * i + 8]
    {
      HalfAt(plaintext, i);
    }
  }

  lemma JoinIsOutput(s: Registers<Half>)
    ensures IsOutput(Join(s), s)
  {
    var c := Join(s);
    SplitOfJoin(s);
    forall i | 0 <= i < |s.r|
      ensures c[8 * i + 8..8 * i + 16] == s.r[i]
    {
      RegisterAt(c, i);
    }
  }

  /** Steps in the order of the code end where the prescribed steps end. */
  lemma WrapFollowsTheStandard(aes: Aes, kek: seq<byte>, plaintext: seq<byte>)
    requires |plaintext| >= 16 && |plaintext| % 8 == 0 && ValidKeySize(kek)
    ensures Wrapped(aes, kek, plaintext).Ok?
    ensures IsOutput(Wrapped(aes, kek, plaintext).value,
                     Iterated(NextStep(aes(kek).encrypt), Start(plaintext), 1, 6 * (|plaintext| / 8)))
  {
    var s := Registers(DEFAULT_IV, Halves(plaintext));
    var last := 6 * (|plaintext| / 8);
    IndexedWrapIsShiftRegister(aes, kek, plaintext);
    StartIsHalves(plaintext);
    ShiftIsSteps(aes(kek), Start(plaintext), last);
    JoinIsOutput(Shift(MixerOf(aes(kek)), 1, last, s));
  }

  /** Exactly this is wrapped: at least two whole blocks of key data, under a key AES takes. */
  lemma WrapTakes(aes: Aes, kek: seq<byte>, plaintext: seq<byte>)
    ensures Wrapped(aes, kek, plaintext).Ok? <==>
      |plaintext| >= 16 && |plaintext| % 8 == 0 && |kek| in {16, 24, 32}
  {
  }
}
