/**
 The six rounds of AES Key Wrap over registers of any type, and the shift-register form of
 section 2.2.1 of RFC 3394. `seal(a, x, t)` is step t on the integrity register and one
 key-data register; `unseal` takes it back.
 */
module KeyWrapRounds {
  datatype Mixer<!H> = Mixer(seal: (H, H, nat) -> (H, H), unseal: (H, H, nat) -> (H, H))

  /** The integrity register A and the key-data registers R. */
  datatype Registers<H> = Registers(a: H, r: seq<H>)

  ghost predicate Invertible<H(!new)>(m: Mixer<H>) {
    && (forall a, x, t :: var y := m.seal(a, x, t); m.unseal(y.0, y.1, t) == (a, x))
    && (forall a, x, t :: var y := m.unseal(a, x, t); m.seal(y.0, y.1, t) == (a, x))
  }

  /** Round `j`, block `i` of `n`, both from zero, is step n * j + i + 1. */
  function WrapStep<H>(m: Mixer<H>, j: nat, i: nat, s: Registers<H>): Registers<H>
    requires i < |s.r|
  {
    var y := m.seal(s.a, s.r[i], |s.r| * j + i + 1);
    Registers(y.0, s.r[i := y.1])
  }

  function UnwrapStep<H>(m: Mixer<H>, j: nat, i: nat, s: Registers<H>): Registers<H>
    requires i < |s.r|
  {
    var y := m.unseal(s.a, s.r[i], |s.r| * j + i + 1);
    Registers(y.0, s.r[i := y.1])
  }

  lemma StepsUndo<H(!new)>(m: Mixer<H>, j: nat, i: nat, s: Registers<H>)
    requires Invertible(m) && i < |s.r|
    ensures UnwrapStep(m, j, i, WrapStep(m, j, i, s)) == s
    ensures WrapStep(m, j, i, UnwrapStep(m, j, i, s)) == s
  {
    var t := |s.r| * j + i + 1;
    var y, z := m.seal(s.a, s.r[i], t), m.unseal(s.a, s.r[i], t);
    assert s.r[i := y.1][i := s.r[i]] == s.r && s.r[i := z.1][i := s.r[i]] == s.r;
  }

  /** The remaining steps from round `j`, block `i` on. */
  function WrapFrom<H>(m: Mixer<H>, j: nat, i: nat, s: Registers<H>): (r: Registers<H>)
    requires j <= 6 && i <= |s.r|
    ensures |r.r| == |s.r|
    decreases 6 - j, |s.r| - i
  {
    if j == 6 then s
    else if i == |s.r| then WrapFrom(m, j + 1, 0, s)
    else WrapFrom(m, j, i + 1, WrapStep(m, j, i, s))
  }

  /** Undoes every step before round `j`, block `i`. */
  function UnwrapFrom<H>(m: Mixer<H>, j: nat, i: nat, s: Registers<H>): (r: Registers<H>)
    requires i <= |s.r|
    ensures |r.r| == |s.r|
    decreases j, i
  {
    if i > 0 then UnwrapFrom(m, j, i - 1, UnwrapStep(m, j, i - 1, s))
    else if j > 0 then UnwrapFrom(m, j - 1, |s.r|, s)
    else s
  }

  lemma {:induction false} UnwrapUndoesRest<H(!new)>(m: Mixer<H>, j: nat, i: nat, s: Registers<H>)
    requires Invertible(m) && j <= 6 && i <= |s.r| && (j == 6 ==> i == 0)
    ensures UnwrapFrom(m, 6, 0, WrapFrom(m, j, i, s)) == UnwrapFrom(m, j, i, s)
    decreases 6 - j, |s.r| - i
  {
    if j == 6 {
    } else if i == |s.r| {
      UnwrapUndoesRest(m, j + 1, 0, s);
    } else {
      UnwrapUndoesRest(m, j, i + 1, WrapStep(m, j, i, s));
      StepsUndo(m, j, i, s);
    }
  }

  lemma {:induction false} WrapRedoesRest<H(!new)>(m: Mixer<H>, j: nat, i: nat, s: Registers<H>)
    requires Invertible(m) && j <= 6 && i <= |s.r| && (j == 6 ==> i == 0)
    ensures WrapFrom(m, 0, 0, UnwrapFrom(m, j, i, s)) == WrapFrom(m, j, i, s)
    decreases j, i
  {
    if i > 0 {
      WrapRedoesRest(m, j, i - 1, UnwrapStep(m, j, i - 1, s));
      StepsUndo(m, j, i - 1, s);
    } else if j > 0 {
      WrapRedoesRest(m, j - 1, |s.r|, s);
    }
  }

  // ---- The shift-register definition -----------------------------------------------

  /** Steps t to `last` of section 2.2.1 of RFC 3394: always the first register, then shift. */
  function Shift<H>(m: Mixer<H>, t: nat, last: nat, s: Registers<H>): Registers<H>
    requires |s.r| > 0
    decreases last + 1 - t
  {
    if t > last then s
    else
      var y := m.seal(s.a, s.r[0], t);
      Shift(m, t + 1, last, Registers(y.0, s.r[1..] + [y.1]))
  }

  /** Any step, repeated for t, ..., last. */
  function Iterated<H>(next: (Registers<H>, nat) -> Registers<H>, s: Registers<H>, t: nat, last: nat): Registers<H>
    decreases last + 1 - t
  {
    if t > last then s else Iterated(next, next(s, t), t + 1, last)
  }

  lemma {:induction false} ShiftIsIterated<H(!new)>(
    m: Mixer<H>, next: (Registers<H>, nat) -> Registers<H>, s: Registers<H>, t: nat, last: nat)
    requires |s.r| > 0
    requires forall x: Registers<H>, u: nat :: |x.r| > 0 ==>
      next(x, u) == Registers(m.seal(x.a, x.r[0], u).0, x.r[1..] + [m.seal(x.a, x.r[0], u).1])
    ensures Shift(m, t, last, s) == Iterated(next, s, t, last)
    decreases last + 1 - t
  {
    if t <= last {
      ShiftIsIterated(m, next, next(s, t), t + 1, last);
    }
  }

  function Rotated<H>(s: Registers<H>, i: nat): Registers<H>
    requires i <= |s.r|
  {
    Registers(s.a, s.r[i..] + s.r[..i])
  }

  lemma RotatedEnds<H>(s: Registers<H>)
    ensures Rotated(s, 0) == s && Rotated(s, |s.r|) == s
  {
  }

  /** Shifting after a step is rotating one further. */
  lemma RotatedNext<H>(s: Registers<H>, i: nat, a: H, x: H)
    requires i < |s.r|
    ensures Rotated(Registers(a, s.r[i := x]), i + 1) == Registers(a, Rotated(s, i).r[1..] + [x])
    ensures Rotated(s, i).r[0] == s.r[i]
  {
  }

  lemma StepsRemain(n: nat, j: nat, i: nat)
    requires j < 6 && i <= n
    ensures n * j + n == n * (j + 1) && n * j + i <= 6 * n
  {
    assert n * j <= n * 5;
  }

  lemma ShiftOne<H>(m: Mixer<H>, t: nat, last: nat, s: Registers<H>, i: nat, next: Registers<H>)
    requires t <= last && i < |s.r| == |next.r|
    requires m.seal(s.a, s.r[i], t) == (next.a, next.r[i]) && next.r == s.r[i := next.r[i]]
    ensures Shift(m, t, last, Rotated(s, i)) == Shift(m, t + 1, last, Rotated(next, i + 1))
  {
    RotatedNext(s, i, next.a, next.r[i]);
  }

  /** After round j and block i, that is after t steps, the shifted registers are the indexed ones rotated by i. */
  lemma {:induction false} ShiftIsIndexedRotated<H>(m: Mixer<H>, n: nat, j: nat, i: nat, s: Registers<H>, t: nat)
    requires |s.r| == n > 0 && j <= 6 && i <= n && (j == 6 ==> i == 0) && t == n * j + i
    ensures Shift(m, t + 1, 6 * n, Rotated(s, i)) == WrapFrom(m, j, i, s)
    decreases 6 - j, n - i
  {
    NextCounters(n, j, i, t);
    if j == 6 {
      RotatedEnds(s);
    } else if i == n {
      RotatedEnds(s);
      ShiftIsIndexedRotated(m, n, j + 1, 0, s, t);
    } else {
      StepIsShift(m, n, j, i, s, t);
      ShiftIsIndexedRotated(m, n, j, i + 1, WrapStep(m, j, i, s), t + 1);
    }
  }

  /** What the step count is before the next round, the next block, and after the last. */
  lemma NextCounters(n: nat, j: nat, i: nat, t: nat)
    requires j <= 6 && i <= n && t == n * j + i
    ensures j == 6 && i == 0 ==> t == 6 * n
    ensures j < 6 && i == n ==> t == n * (j + 1) + 0
    ensures j < 6 && i < n ==> t + 1 == n * j + (i + 1) && t + 1 <= 6 * n
  {
    if j < 6 {
      StepsRemain(n, j, i);
      if i < n {
        StepsRemain(n, j, i + 1);
      }
    }
  }

  /** One indexed step is one shift. */
  lemma StepIsShift<H>(m: Mixer<H>, n: nat, j: nat, i: nat, s: Registers<H>, t: nat)
    requires |s.r| == n && i < n && t == n * j + i && t + 1 <= 6 * n
    ensures Shift(m, t + 1, 6 * n, Rotated(s, i)) == Shift(m, t + 2, 6 * n, Rotated(WrapStep(m, j, i, s), i + 1))
  {
    ShiftOne(m, t + 1, 6 * n, s, i, WrapStep(m, j, i, s));
  }
}

/**
 AES Key Wrap, sections 2.2.1 and 2.2.2 of RFC 3394: the in-place loops of the Go code, tied to
 the rounds of `KeyWrapRounds`. The cipher is any permutation of 16-octet blocks.
 */
module AesKeyWrap {
  import opened Wrappers
  import opened Bytes
  import opened KeyWrapRounds

  type Half = b: seq<byte> | |b| == 8 witness [0, 0, 0, 0, 0, 0, 0, 0]
  type Block = b: seq<byte> | |b| == 16 witness [0, 0, 0, 0, 0, 0, 0, 0, 0, 0, 0, 0, 0, 0, 0, 0]

  datatype BlockCipher = BlockCipher(encrypt: Block -> Block, decrypt: Block -> Block)

  ghost predicate Permutation(c: BlockCipher) {
    && (forall b :: c.decrypt(c.encrypt(b)) == b)
    && (forall b :: c.encrypt(c.decrypt(b)) == b)
  }

  /** `aes.NewCipher` refuses any other key length. */
  predicate ValidKeySize(kek: seq<byte>) {
    |kek| == 16 || |kek| == 24 || |kek| == 32
  }

  datatype KeyWrapError = MalformedKey | BadKeySize | DecryptionFailed

  const DEFAULT_IV: Half := [0xA6, 0xA6, 0xA6, 0xA6, 0xA6, 0xA6, 0xA6, 0xA6]

  function Glue(a: Half, b: Half): Block {
    var left: seq<byte> := a;
    left + b
  }

  function High(b: Block): Half {
    b[..8]
  }

  function Low(b: Block): Half {
    b[8..]
  }

  lemma GlueParts(a: Half, b: Half, x: Block)
    ensures High(Glue(a, b)) == a && Low(Glue(a, b)) == b && Glue(High(x), Low(x)) == x
  {
  }

  /** The step counter xored into a register: 64-bit unsigned. */
  function XorCounter(a: Half, t: nat): (b: Half) {
    FromNat(Xor(ToNat(a), t % Pow256(8)), 8)
  }

  lemma XorCounterUndoes(a: Half, t: nat)
    ensures XorCounter(XorCounter(a, t), t) == a
  {
    var x, y := ToNat(a), t % Pow256(8);
    ToNatBound(a);
    OctetsAreEightBits(8);
    XorBound(x, y, 64);
    ToNatOfFromNat(Xor(x, y), 8);
    XorUndoes(x, y);
    FromNatOfToNat(a);
  }

  function Seal(c: BlockCipher, a: Half, x: Half, t: nat): (Half, Half) {
    var buf := c.encrypt(Glue(a, x));
    (XorCounter(High(buf), t), Low(buf))
  }

  function Unseal(c: BlockCipher, a: Half, x: Half, t: nat): (Half, Half) {
    var buf := c.decrypt(Glue(XorCounter(a, t), x));
    (High(buf), Low(buf))
  }

  function MixerOf(c: BlockCipher): Mixer<Half> {
    Mixer((a, x, t) => Seal(c, a, x, t), (a, x, t) => Unseal(c, a, x, t))
  }

  lemma SealUndoes(c: BlockCipher, a: Half, x: Half, t: nat)
    requires Permutation(c)
    ensures var y := Seal(c, a, x, t); Unseal(c, y.0, y.1, t) == (a, x)
    ensures var y := Unseal(c, a, x, t); Seal(c, y.0, y.1, t) == (a, x)
  {
    var up, down := c.encrypt(Glue(a, x)), c.decrypt(Glue(XorCounter(a, t), x));
    XorCounterUndoes(High(up), t);
    XorCounterUndoes(a, t);
    GlueParts(a, x, up);
    GlueParts(XorCounter(a, t), x, down);
  }

  lemma MixerInvertible(c: BlockCipher)
    requires Permutation(c)
    ensures Invertible(MixerOf(c))
  {
    forall a: Half, x: Half, t: nat
      ensures var y := Seal(c, a, x, t); Unseal(c, y.0, y.1, t) == (a, x)
      ensures var y := Unseal(c, a, x, t); Seal(c, y.0, y.1, t) == (a, x)
    {
      SealUndoes(c, a, x, t);
    }
  }

  // ---- Octet strings ---------------------------------------------------------------

  function Halves(b: seq<byte>): (r: seq<Half>)
    ensures |r| == |b| / 8
  {
    if |b| < 8 then [] else [b[..8]] + Halves(b[8..])
  }

  function Concat(r: seq<Half>): (b: seq<byte>)
    ensures |b| == 8 * |r|
  {
    if r == [] then [] else r[0] + Concat(r[1..])
  }

  lemma Tail8(b: seq<byte>, k: nat)
    requires k + 16 <= |b|
    ensures b[8..][k..k + 8] == b[k + 8..k + 16]
  {
  }

  lemma {:induction false} HalfAt(b: seq<byte>, i: nat)
    requires 8 * i + 8 <= |b|
    ensures Halves(b)[i] == b[8 * i..8 * i + 8]
  {
    if i > 0 {
      var k := i - 1;
      HalfAt(b[8..], k);
      Tail8(b, 8 * k);
      assert 8 * i == 8 * k + 8;
    }
  }

  lemma {:induction false} ConcatOfHalves(b: seq<byte>)
    requires |b| % 8 == 0
    ensures Concat(Halves(b)) == b
  {
    if |b| >= 8 {
      ConcatOfHalves(b[8..]);
      assert Halves(b)[1..] == Halves(b[8..]);
    }
  }

  lemma {:induction false} HalvesOfConcat(r: seq<Half>)
    ensures Halves(Concat(r)) == r
  {
    if r != [] {
      HalvesOfConcat(r[1..]);
      assert Concat(r)[..8] == r[0] && Concat(r)[8..] == Concat(r[1..]);
    }
  }

  function Split(b: seq<byte>): Registers<Half>
    requires |b| >= 8
  {
    Registers(b[..8], Halves(b[8..]))
  }

  function Join(s: Registers<Half>): (b: seq<byte>)
    ensures |b| == 8 + 8 * |s.r|
  {
    s.a + Concat(s.r)
  }

  lemma JoinOfSplit(b: seq<byte>)
    requires |b| >= 8 && |b| % 8 == 0
    ensures Join(Split(b)) == b
  {
    ConcatOfHalves(b[8..]);
  }

  lemma JoinOfRegisters(b: seq<byte>, n: nat, s: Registers<Half>)
    requires |b| == 8 * n + 8 && s == Split(b)
    ensures b == Join(s)
  {
    JoinOfSplit(b);
  }

  lemma SplitOfJoin(s: Registers<Half>)
    ensures Split(Join(s)) == s
  {
    HalvesOfConcat(s.r);
    assert Join(s)[8..] == Concat(s.r);
  }

  lemma HalvesAfterWrite(b: seq<byte>, b': seq<byte>, i: nat, x: Half)
    requires |b| == |b'| && 8 * i + 8 <= |b| && b'[8 * i..8 * i + 8] == x
    requires forall k :: 0 <= k < |b| && !(8 * i <= k < 8 * i + 8) ==> b'[k] == b[k]
    ensures Halves(b') == Halves(b)[i := x]
  {
    HalfAt(b', i);
    forall k | 0 <= k < |b| / 8 && k != i
      ensures Halves(b')[k] == Halves(b)[k]
    {
      HalfAt(b, k);
      HalfAt(b', k);
      assert b'[8 * k..8 * k + 8] == b[8 * k..8 * k + 8];
    }
  }

  lemma RegisterAt(b: seq<byte>, i: nat)
    requires 8 * i + 16 <= |b|
    ensures Split(b).r[i] == b[8 * i + 8..8 * i + 16]
  {
    HalfAt(b[8..], i);
    Tail8(b, 8 * i);
  }

  lemma SplitOfParts(b: seq<byte>, iv: Half, rest: seq<byte>)
    requires |b| == 8 + |rest| && b[..8] == iv && b[8..] == rest
    ensures Split(b) == Registers(iv, Halves(rest))
  {
  }

  /** Overwriting A and one register in place. */
  lemma SplitAfterWrite(b: seq<byte>, b': seq<byte>, i: nat, a: Half, x: Half)
    requires |b| == |b'| && 8 * i + 16 <= |b|
    requires b'[..8] == a && b'[8 * i + 8..8 * i + 16] == x
    requires forall k :: 8 <= k < |b| && !(8 * i + 8 <= k < 8 * i + 16) ==> b'[k] == b[k]
    ensures Split(b') == Registers(a, Split(b).r[i := x])
  {
    assert b'[8..][8 * i..8 * i + 8] == b'[8 * i + 8..8 * i + 16];
    HalvesAfterWrite(b[8..], b'[8..], i, x);
  }

  // ---- Results and their laws ------------------------------------------------------

  type Aes = seq<byte> -> BlockCipher

  function Wrapped(aes: Aes, kek: seq<byte>, plaintext: seq<byte>): Result<seq<byte>, KeyWrapError> {
    if |plaintext| < 16 || |plaintext| % 8 != 0 then Err(MalformedKey)
    else if !ValidKeySize(kek) then Err(BadKeySize)
    else Ok(Join(WrapFrom(MixerOf(aes(kek)), 0, 0, Registers(DEFAULT_IV, Halves(plaintext)))))
  }

  function Unwrapped(aes: Aes, kek: seq<byte>, ciphertext: seq<byte>): Result<seq<byte>, KeyWrapError> {
    if |ciphertext| < 24 || |ciphertext| % 8 != 0 then Err(DecryptionFailed)
    else if !ValidKeySize(kek) then Err(BadKeySize)
    else
      var s := UnwrapFrom(MixerOf(aes(kek)), 6, 0, Split(ciphertext));
      if s.a != DEFAULT_IV then Err(DecryptionFailed) else Ok(Concat(s.r))
  }

  /** Section 2.2.1 of RFC 3394, word for word. */
  function WrappedByShifting(c: BlockCipher, plaintext: seq<byte>): seq<byte>
    requires |plaintext| >= 16
  {
    Join(Shift(MixerOf(c), 1, 6 * (|plaintext| / 8), Registers(DEFAULT_IV, Halves(plaintext))))
  }

  /** The indexed loops compute the shift-register definition, for every block function. */
  lemma IndexedWrapIsShiftRegister(aes: Aes, kek: seq<byte>, plaintext: seq<byte>)
    requires |plaintext| >= 16 && |plaintext| % 8 == 0 && ValidKeySize(kek)
    ensures Wrapped(aes, kek, plaintext) == Ok(WrappedByShifting(aes(kek), plaintext))
  {
    var m, s := MixerOf(aes(kek)), Registers(DEFAULT_IV, Halves(plaintext));
    AllShifted(m, s);
    assert |s.r| == |plaintext| / 8;
  }

  lemma AllShifted(m: Mixer<Half>, s: Registers<Half>)
    requires |s.r| > 0
    ensures Shift(m, 1, 6 * |s.r|, s) == WrapFrom(m, 0, 0, s)
  {
    ShiftIsIndexedRotated(m, |s.r|, 0, 0, s, 0);
    RotatedEnds(s);
  }

  /** What was wrapped unwraps to itself. */
  lemma UnwrapInvertsWrap(aes: Aes, kek: seq<byte>, plaintext: seq<byte>)
    requires Permutation(aes(kek)) && Wrapped(aes, kek, plaintext).Ok?
    ensures |Wrapped(aes, kek, plaintext).value| == |plaintext| + 8
    ensures Unwrapped(aes, kek, Wrapped(aes, kek, plaintext).value) == Ok(plaintext)
  {
    var m := MixerOf(aes(kek));
    var s := Registers(DEFAULT_IV, Halves(plaintext));
    var w := WrapFrom(m, 0, 0, s);
    assert UnwrapFrom(m, 6, 0, w) == s by {
      MixerInvertible(aes(kek));
      UnwrapUndoesRest(m, 0, 0, s);
    }
    UnwrappedJoin(aes, kek, w);
    ConcatOfHalves(plaintext);
  }

  lemma UnwrappedJoin(aes: Aes, kek: seq<byte>, w: Registers<Half>)
    requires |w.r| >= 2 && ValidKeySize(kek)
    ensures
      var s := UnwrapFrom(MixerOf(aes(kek)), 6, 0, w);
      Unwrapped(aes, kek, Join(w)) == if s.a == DEFAULT_IV then Ok(Concat(s.r)) else Err(DecryptionFailed)
  {
    var c := Join(w);
    assert |c| >= 24 && |c| % 8 == 0;
    SplitOfJoin(w);
    assert Split(c) == w;
  }

  /** Whatever unwraps is the wrapping of the result, so only real wrappings are accepted. */
  lemma WrapInvertsUnwrap(aes: Aes, kek: seq<byte>, ciphertext: seq<byte>)
    requires Permutation(aes(kek)) && Unwrapped(aes, kek, ciphertext).Ok?
    ensures Wrapped(aes, kek, Unwrapped(aes, kek, ciphertext).value) == Ok(ciphertext)
  {
    var s := UnwrapFrom(MixerOf(aes(kek)), 6, 0, Split(ciphertext));
    MixerInvertible(aes(kek));
    WrapRedoesRest(MixerOf(aes(kek)), 6, 0, Split(ciphertext));
    HalvesOfConcat(s.r);
    JoinOfSplit(ciphertext);
  }

  /** Different key data never wraps to the same octets. */
  lemma WrapIsInjective(aes: Aes, kek: seq<byte>, p: seq<byte>, q: seq<byte>)
    requires Permutation(aes(kek)) && Wrapped(aes, kek, p).Ok? && Wrapped(aes, kek, p) == Wrapped(aes, kek, q)
    ensures p == q
  {
    UnwrapInvertsWrap(aes, kek, p);
    UnwrapInvertsWrap(aes, kek, q);
  }

  // ---- The loops -------------------------------------------------------------------

  /** Go's `copy` of `src` to `dst[at:]`. */
  method Copy(dst: array<byte>, at: nat, src: seq<byte>)
    requires at + |src| <= dst.Length
    modifies dst
    ensures dst[at..at + |src|] == src
    ensures forall k :: 0 <= k < dst.Length && !(at <= k < at + |src|) ==> dst[k] == old(dst[k])
  {
    forall k | 0 <= k < |src| {
      dst[at + k] := src[k];
    }
  }

  /** The body of the inner wrapping loop. */
  method WrapBlock(block: BlockCipher, out: array<byte>, n: nat, j: nat, i: nat)
    requires out.Length == 8 * n + 8 && i < n
    modifies out
    ensures Split(out[..]) == WrapStep(MixerOf(block), j, i, old(Split(out[..])))
  {
    ghost var before, s := out[..], Split(out[..]);
    RegisterAt(before, i);
    var buf := block.encrypt(Glue(out[..8], out[8 * i + 8..8 * i + 16]));
    var a, x := XorCounter(High(buf), n * j + i + 1), Low(buf);
    Copy(out, 0, a);
    Copy(out, 8 * i + 8, x);
    SplitAfterWrite(before, out[..], i, a, x);
    assert (a, x) == MixerOf(block).seal(s.a, s.r[i], |s.r| * j + i + 1);
  }

  lemma UnwrapStepParts(block: BlockCipher, j: nat, i: nat, s: Registers<Half>, buf: Block)
    requires i < |s.r| && buf == block.decrypt(Glue(XorCounter(s.a, |s.r| * j + i + 1), s.r[i]))
    ensures UnwrapStep(MixerOf(block), j, i, s) == Registers(High(buf), s.r[i := Low(buf)])
  {
  }

  /** The body of the inner unwrapping loop; `s` is what the buffers hold. */
  method UnwrapBlock(block: BlockCipher, a: Half, out: array<byte>, n: nat, j: nat, i: nat, ghost s: Registers<Half>)
    returns (a': Half, ghost s': Registers<Half>)
    requires out.Length == 8 * n && |s.r| == n && i < n && s == Registers(a, Halves(out[..]))
    modifies out
    ensures s' == UnwrapStep(MixerOf(block), j, i, s) && s' == Registers(a', Halves(out[..]))
  {
    ghost var before := out[..];
    HalfAt(before, i);
    var x: Half := out[8 * i..8 * i + 8];
    assert x == s.r[i];
    var buf := block.decrypt(Glue(XorCounter(a, n * j + i + 1), x));
    a' := High(buf);
    s' := Registers(a', s.r[i := Low(buf)]);
    UnwrapStepParts(block, j, i, s, buf);
    Copy(out, 8 * i, Low(buf));
    HalvesAfterWrite(before, out[..], i, Low(buf));
  }

  /** The inner loop of one wrapping round. */
  method WrapRound(block: BlockCipher, out: array<byte>, n: nat, j: nat)
    requires out.Length == 8 * n + 8 && j < 6
    modifies out
    ensures WrapFrom(MixerOf(block), j + 1, 0, Split(out[..])) == WrapFrom(MixerOf(block), j, 0, old(Split(out[..])))
  {
    ghost var m, start := MixerOf(block), Split(out[..]);
    for i := 0 to n
      invariant WrapFrom(m, j, i, Split(out[..])) == WrapFrom(m, j, 0, start)
    {
      WrapBlock(block, out, n, j, i);
    }
    assert |Split(out[..]).r| == n;
  }

  /** The two nested wrapping loops. */
  method WrapRounds(block: BlockCipher, out: array<byte>, n: nat)
    requires out.Length == 8 * n + 8
    modifies out
    ensures Split(out[..]) == WrapFrom(MixerOf(block), 0, 0, old(Split(out[..])))
  {
    ghost var m, start := MixerOf(block), Split(out[..]);
    for j := 0 to 6
      invariant WrapFrom(m, j, 0, Split(out[..])) == WrapFrom(m, 0, 0, start)
    {
      WrapRound(block, out, n, j);
    }
  }

  /** The inner loop of one unwrapping round. */
  method UnwrapRound(block: BlockCipher, a0: Half, out: array<byte>, n: nat, j: nat, ghost s0: Registers<Half>)
    returns (a: Half, ghost s: Registers<Half>)
    requires out.Length == 8 * n && |s0.r| == n && s0 == Registers(a0, Halves(out[..]))
    modifies out
    ensures |s.r| == n && s == Registers(a, Halves(out[..]))
    ensures UnwrapFrom(MixerOf(block), j, 0, s) == UnwrapFrom(MixerOf(block), j, n, s0)
  {
    a, s := a0, s0;
    ghost var m := MixerOf(block);
    for i := n downto 0
      invariant |s.r| == n && s == Registers(a, Halves(out[..]))
      invariant UnwrapFrom(m, j, i, s) == UnwrapFrom(m, j, n, s0)
    {
      a, s := UnwrapBlock(block, a, out, n, j, i, s);
    }
  }

  /** The two nested unwrapping loops, both counting down. */
  method UnwrapRounds(block: BlockCipher, a0: Half, out: array<byte>, n: nat) returns (a: Half)
    requires out.Length == 8 * n
    modifies out
    ensures Registers(a, Halves(out[..])) == UnwrapFrom(MixerOf(block), 6, 0, Registers(a0, old(Halves(out[..]))))
  {
    a := a0;
    ghost var m, s := MixerOf(block), Registers(a0, Halves(out[..]));
    assert |Halves(out[..])| == n;
    ghost var goal := UnwrapFrom(m, 6, 0, s);
    for j := 6 downto 0
      invariant |s.r| == n && s == Registers(a, Halves(out[..]))
      invariant UnwrapFrom(m, j, 0, s) == goal
    {
      a, s := UnwrapRound(block, a, out, n, j, s);
    }
  }

  /** The default IV, then the key data. */
  method StartBuffer(plaintext: seq<byte>) returns (out: array<byte>)
    ensures fresh(out) && out.Length == |plaintext| + 8
    ensures Split(out[..]) == Registers(DEFAULT_IV, Halves(plaintext))
  {
    out := new byte[|plaintext| + 8];
    Copy(out, 0, DEFAULT_IV);
    Copy(out, 8, plaintext);
    SplitOfParts(out[..], DEFAULT_IV, plaintext);
  }

  method Wrap(aes: Aes, kek: seq<byte>, plaintext: seq<byte>) returns (r: Result<seq<byte>, KeyWrapError>)
    ensures r == Wrapped(aes, kek, plaintext)
  {
    if |plaintext| < 16 || |plaintext| % 8 != 0 {
      return Err(MalformedKey);
    }
    if !ValidKeySize(kek) {
      return Err(BadKeySize);
    }
    var out := WrapWith(aes(kek), plaintext);
    r := Ok(out[..]);
  }

  /** The buffer and the rounds, once lengths are known to be right. */
  method WrapWith(block: BlockCipher, plaintext: seq<byte>) returns (out: array<byte>)
    requires |plaintext| % 8 == 0
    ensures out[..] == Join(WrapFrom(MixerOf(block), 0, 0, Registers(DEFAULT_IV, Halves(plaintext))))
  {
    var n := |plaintext| / 8;
    assert |plaintext| == 8 * n;
    out := StartBuffer(plaintext);
    WrapRounds(block, out, n);
    JoinOfRegisters(out[..], n, Split(out[..]));
  }

  method Unwrap(aes: Aes, kek: seq<byte>, ciphertext: seq<byte>) returns (r: Result<seq<byte>, KeyWrapError>)
    ensures r == Unwrapped(aes, kek, ciphertext)
  {
    if |ciphertext| < 24 || |ciphertext| % 8 != 0 {
      return Err(DecryptionFailed);
    }
    if !ValidKeySize(kek) {
      return Err(BadKeySize);
    }
    var block := aes(kek);
    var n := |ciphertext| / 8 - 1;
    var iv: Half, body := ciphertext[..8], ciphertext[8..];
    assert Split(ciphertext) == Registers(iv, Halves(body));
    assert |body| == 8 * n && |body| % 8 == 0;
    var out := new byte[|ciphertext| - 8];
    Copy(out, 0, body);
    assert out[..] == body;
    var a := UnwrapRounds(block, iv, out, n);
    ghost var s := UnwrapFrom(MixerOf(block), 6, 0, Split(ciphertext));
    assert s == Registers(a, Halves(out[..]));
    if a != DEFAULT_IV {
      return Err(DecryptionFailed);
    }
    assert |out[..]| == |body|;
    ConcatOfHalves(out[..]);
    r := Ok(out[..]);
  }
}
