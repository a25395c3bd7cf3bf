/**
 * The CRC-8 of the SEN5x sensor (polynomial x^8 + x^5 + x^4 + 1, initial value 0xFF) and the
 * decoder of a measurement frame that relies on it. The register after a message is linear in
 * the message, so whether an error goes unseen depends on the error alone.
 */
module Crc8 {
  type octet = bv8

  // ---------------------------------------------------------------- the register

  function Xor(a: octet, b: octet): octet {
    a ^ b
  }

  function Shift(crc: octet): octet {
    if crc & 0x80 != 0 then (crc << 1) ^ 0x31 else crc << 1
  }

  function Shifts(crc: octet, n: nat): octet {
    if n == 0 then crc else Shift(Shifts(crc, n - 1))
  }

  /** The register after one more byte. */
  function Absorb(crc: octet, data: octet): octet {
    Shift(Shift(Shift(Shift(Shift(Shift(Shift(Shift(Xor(crc, data)))))))))
  }

  /** The register after all of `data`. */
  function Register(crc: octet, data: seq<octet>): octet
    decreases |data|
  {
    if data == [] then crc else Absorb(Register(crc, data[..|data| - 1]), data[|data| - 1])
  }

  function Crc(data: seq<octet>): octet {
    Register(0xFF, data)
  }

  lemma AbsorbIsEightShifts(crc: octet, data: octet)
    ensures Absorb(crc, data) == Shifts(Xor(crc, data), 8)
  {
    var x := Xor(crc, data);
    assert Shifts(x, 1) == Shift(x);
    assert Shifts(x, 2) == Shift(Shifts(x, 1));
    assert Shifts(x, 3) == Shift(Shifts(x, 2));
    assert Shifts(x, 4) == Shift(Shifts(x, 3));
    assert Shifts(x, 5) == Shift(Shifts(x, 4));
    assert Shifts(x, 6) == Shift(Shifts(x, 5));
    assert Shifts(x, 7) == Shift(Shifts(x, 6));
    assert Shifts(x, 8) == Shift(Shifts(x, 7));
  }

  /** sen5x_crc8 over the first `len` bytes at `from`. */
  method Sen5xCrc8(data: array<octet>, from: nat, len: nat) returns (crc: octet)
    requires from + len <= data.Length
    ensures crc == Crc(data[from..from + len])
  {
    hide Shift, Absorb;
    crc := 0xFF;
    for i := 0 to len
      invariant crc == Crc(data[from..from + i])
    {
      ghost var before := crc;
      crc := crc ^ data[from + i];
      for b := 0 to 8
        invariant crc == Shifts(Xor(before, data[from + i]), b)
      {
        crc := ShiftedOnce(crc);
      }
      AbsorbIsEightShifts(before, data[from + i]);
      assert data[from..from + i + 1][..i] == data[from..from + i];
    }
  }

  /** The branch of the inner loop. */
  method ShiftedOnce(c: octet) returns (crc: octet)
    ensures crc == Shift(c)
  {
    crc := c;
    if crc & 0x80 != 0 {
      crc := (crc << 1) ^ 0x31;
    } else {
      crc := crc << 1;
    }
  }

  // ---------------------------------------------------------------- acceptance

  /** A word followed by its CRC, of any length. */
  predicate Accepted(word: seq<octet>) {
    word != [] && Crc(word[..|word| - 1]) == word[|word| - 1]
  }

  function Flip(word: seq<octet>, error: seq<octet>): (r: seq<octet>)
    requires |word| == |error|
    ensures |r| == |word|
  {
    seq(|word|, i requires 0 <= i < |word| => Xor(word[i], error[i]))
  }

  lemma XorLaws(a: octet, b: octet, c: octet)
    ensures Xor(Xor(a, b), c) == Xor(a, Xor(b, c)) && Xor(a, b) == Xor(b, a)
    ensures Xor(Xor(a, c), Xor(b, c)) == Xor(a, b)
  {
  }

  lemma LeftShiftLinear(a: octet, b: octet)
    ensures Xor(a, b) << 1 == Xor(a << 1, b << 1)
    ensures (Xor(a, b) & 0x80 != 0) == ((a & 0x80 != 0) != (b & 0x80 != 0))
  {
  }

  lemma ShiftIsXor(a: octet)
    ensures Shift(a) == if a & 0x80 != 0 then Xor(a << 1, 0x31) else a << 1
  {
  }

  lemma ShiftLinear(a: octet, b: octet)
    ensures Shift(Xor(a, b)) == Xor(Shift(a), Shift(b))
  {
    hide Xor, Shift;
    LeftShiftLinear(a, b);
    ShiftIsXor(a);
    ShiftIsXor(b);
    ShiftIsXor(Xor(a, b));
    var p, q := a << 1, b << 1;
    XorLaws(p, q, 0x31);
    XorLaws(p, 0x31, q);
    XorLaws(0x31, q, p);
  }

  lemma ShiftKernel(a: octet)
    ensures Shift(a) == 0 <==> a == 0
  {
  }

  lemma RegroupXor(a: octet, b: octet, x: octet, y: octet)
    ensures Xor(Xor(a, b), Xor(x, y)) == Xor(Xor(a, x), Xor(b, y))
  {
    hide Xor;
    XorLaws(a, b, Xor(x, y));
    XorLaws(b, x, y);
    XorLaws(x, b, y);
    XorLaws(a, x, Xor(b, y));
  }

  lemma AbsorbLinear(a: octet, b: octet, x: octet, y: octet)
    ensures Absorb(Xor(a, b), Xor(x, y)) == Xor(Absorb(a, x), Absorb(b, y))
  {
    hide Shift, Xor;
    var p, q := Xor(a, x), Xor(b, y);
    RegroupXor(a, b, x, y);
    ShiftLinear(p, q);
    var p1, q1 := Shift(p), Shift(q);
    ShiftLinear(p1, q1);
    var p2, q2 := Shift(p1), Shift(q1);
    ShiftLinear(p2, q2);
    var p3, q3 := Shift(p2), Shift(q2);
    ShiftLinear(p3, q3);
    var p4, q4 := Shift(p3), Shift(q3);
    ShiftLinear(p4, q4);
    var p5, q5 := Shift(p4), Shift(q4);
    ShiftLinear(p5, q5);
    var p6, q6 := Shift(p5), Shift(q5);
    ShiftLinear(p6, q6);
    var p7, q7 := Shift(p6), Shift(q6);
    ShiftLinear(p7, q7);
  }

  lemma XorZero(a: octet, b: octet)
    ensures Xor(a, b) == 0 <==> a == b
    ensures Xor(a, 0) == a && Xor(0, a) == a
  {
  }

  lemma AbsorbKernel(a: octet, x: octet)
    ensures Absorb(a, x) == 0 <==> a == x
  {
    hide Shift, Xor;
    XorZero(a, x);
    var s1 := Shift(Xor(a, x));
    ShiftKernel(Xor(a, x));
    var s2 := Shift(s1);
    ShiftKernel(s1);
    var s3 := Shift(s2);
    ShiftKernel(s2);
    var s4 := Shift(s3);
    ShiftKernel(s3);
    var s5 := Shift(s4);
    ShiftKernel(s4);
    var s6 := Shift(s5);
    ShiftKernel(s5);
    var s7 := Shift(s6);
    ShiftKernel(s6);
    ShiftKernel(s7);
  }

  /** A word is accepted exactly when the register is zero after the word and its CRC. */
  lemma AcceptedIffZero(word: seq<octet>)
    requires word != []
    ensures Accepted(word) <==> Register(0xFF, word) == 0
  {
    hide Absorb;
    AbsorbKernel(Crc(word[..|word| - 1]), word[|word| - 1]);
  }

  lemma {:induction false} RegisterLinear(a: octet, b: octet, word: seq<octet>, error: seq<octet>)
    requires |word| == |error|
    ensures Register(Xor(a, b), Flip(word, error)) == Xor(Register(a, word), Register(b, error))
    decreases |word|
  {
    hide Absorb, Xor;
    if word != [] {
      var n := |word| - 1;
      assert Flip(word, error)[..n] == Flip(word[..n], error[..n]);
      RegisterLinear(a, b, word[..n], error[..n]);
      AbsorbLinear(Register(a, word[..n]), Register(b, error[..n]), word[n], error[n]);
    }
  }

  /** What becomes of an accepted word under an error depends on the error alone. */
  lemma UnseenIff(word: seq<octet>, error: seq<octet>)
    requires Accepted(word) && |word| == |error|
    ensures Accepted(Flip(word, error)) <==> Register(0, error) == 0
  {
    hide Xor;
    AcceptedIffZero(word);
    AcceptedIffZero(Flip(word, error));
    XorZero(0xFF, 0);
    RegisterLinear(0xFF, 0, word, error);
    XorZero(0, Register(0, error));
  }

  // ---------------------------------------------------------------- odd errors

  predicate Bit(b: octet, i: nat)
    requires i < 8
  {
    (b >> i) & 1 == 1
  }

  function Count(b: bool): nat {
    if b then 1 else 0
  }

  /** How many bits of a byte are set. */
  function Ones(b: octet): nat {
    Count(Bit(b, 0)) + Count(Bit(b, 1)) + Count(Bit(b, 2)) + Count(Bit(b, 3))
    + Count(Bit(b, 4)) + Count(Bit(b, 5)) + Count(Bit(b, 6)) + Count(Bit(b, 7))
  }

  function Weight(e: seq<octet>): nat
    decreases |e|
  {
    if e == [] then 0 else Weight(e[..|e| - 1]) + Ones(e[|e| - 1])
  }

  /** Whether an odd number of the bits from `i` up are set. */
  predicate OddFrom(b: octet, i: nat)
    requires i <= 8
    decreases 8 - i
  {
    i < 8 && Bit(b, i) != OddFrom(b, i + 1)
  }

  predicate Odd(b: octet) {
    OddFrom(b, 0)
  }

  lemma Unrolled(b: octet)
    ensures OddFrom(b, 4) == (Bit(b, 4) != (Bit(b, 5) != (Bit(b, 6) != Bit(b, 7))))
    ensures Odd(b) == (Bit(b, 0) != (Bit(b, 1) != (Bit(b, 2) != (Bit(b, 3) != OddFrom(b, 4)))))
  {
    hide Bit;
    assert OddFrom(b, 6) == (Bit(b, 6) != OddFrom(b, 7));
    assert OddFrom(b, 3) == (Bit(b, 3) != OddFrom(b, 4));
    assert OddFrom(b, 2) == (Bit(b, 2) != OddFrom(b, 3));
  }

  lemma OddIsOnes(b: octet)
    ensures Odd(b) <==> Ones(b) % 2 == 1
  {
    hide Bit, OddFrom;
    Unrolled(b);
  }

  lemma XorBit(a: octet, b: octet, i: nat)
    requires i < 8
    ensures Bit(Xor(a, b), i) == (Bit(a, i) != Bit(b, i))
  {
    hide Bit, Xor;
    if i < 4 {
      XorLowBits(a, b);
    } else {
      XorHighBits(a, b);
    }
  }

  lemma XorLowBits(a: octet, b: octet)
    ensures Bit(Xor(a, b), 0) == (Bit(a, 0) != Bit(b, 0)) && Bit(Xor(a, b), 1) == (Bit(a, 1) != Bit(b, 1))
    ensures Bit(Xor(a, b), 2) == (Bit(a, 2) != Bit(b, 2)) && Bit(Xor(a, b), 3) == (Bit(a, 3) != Bit(b, 3))
  {
  }

  lemma XorHighBits(a: octet, b: octet)
    ensures Bit(Xor(a, b), 4) == (Bit(a, 4) != Bit(b, 4)) && Bit(Xor(a, b), 5) == (Bit(a, 5) != Bit(b, 5))
    ensures Bit(Xor(a, b), 6) == (Bit(a, 6) != Bit(b, 6)) && Bit(Xor(a, b), 7) == (Bit(a, 7) != Bit(b, 7))
  {
  }

  lemma ShiftKeepsParity(a: octet)
    ensures Odd(Shift(a)) == Odd(a)
  {
    hide OddFrom;
    Unrolled(a);
    Unrolled(Shift(a));
  }

  lemma {:induction false} XorParity(a: octet, b: octet, i: nat)
    requires i <= 8
    ensures OddFrom(Xor(a, b), i) == (OddFrom(a, i) != OddFrom(b, i))
    decreases 8 - i
  {
    hide Xor, Bit;
    if i < 8 {
      XorBit(a, b, i);
      XorParity(a, b, i + 1);
    }
  }

  lemma AbsorbParity(a: octet, x: octet)
    ensures Odd(Absorb(a, x)) == (Odd(a) != Odd(x))
  {
    hide Shift, OddFrom, Xor;
    XorParity(a, x, 0);
    var s0 := Xor(a, x);
    ShiftKeepsParity(s0);
    var s1 := Shift(s0);
    ShiftKeepsParity(s1);
    var s2 := Shift(s1);
    ShiftKeepsParity(s2);
    var s3 := Shift(s2);
    ShiftKeepsParity(s3);
    var s4 := Shift(s3);
    ShiftKeepsParity(s4);
    var s5 := Shift(s4);
    ShiftKeepsParity(s5);
    var s6 := Shift(s5);
    ShiftKeepsParity(s6);
    ShiftKeepsParity(Shift(s6));
  }

  lemma {:induction false} RegisterParity(c: octet, e: seq<octet>)
    ensures Odd(Register(c, e)) == (Odd(c) != (Weight(e) % 2 == 1))
    decreases |e|
  {
    hide Absorb, Odd, Ones;
    if e != [] {
      var n := |e| - 1;
      RegisterParity(c, e[..n]);
      AbsorbParity(Register(c, e[..n]), e[n]);
      OddIsOnes(e[n]);
    }
  }

  /** Changing an accepted word in an odd number of bits is always seen, whatever its length. */
  lemma OddErrorIsSeen(word: seq<octet>, error: seq<octet>)
    requires Accepted(word) && |word| == |error|
    requires Weight(error) % 2 == 1
    ensures !Accepted(Flip(word, error))
  {
    UnseenIff(word, error);
    RegisterParity(0, error);
    assert !Odd(0);
  }

  // ---------------------------------------------------------------- bursts

  /** Bit `k` of a message, most significant bit of the first byte first. */
  predicate BitOf(e: seq<octet>, k: nat)
    requires k < 8 * |e|
  {
    Msb(e[k / 8], k % 8)
  }

  /** Bit `t` of a byte, most significant bit first. */
  predicate Msb(b: octet, t: nat)
    requires t < 8
  {
    Bit(b, 7 - t)
  }

  /** Every changed bit is one of the eight that start at `p`, and there is a changed bit. */
  ghost predicate IsBurst(e: seq<octet>, p: nat) {
    && (forall k: nat | k < 8 * |e| && BitOf(e, k) :: p <= k < p + 8)
    && (exists k: nat :: k < 8 * |e| && BitOf(e, k))
  }

  predicate AllZero(e: seq<octet>) {
    forall i | 0 <= i < |e| :: e[i] == 0
  }

  lemma NoBits(b: octet)
    requires !Bit(b, 0) && !Bit(b, 1) && !Bit(b, 2) && !Bit(b, 3) && !Bit(b, 4) && !Bit(b, 5) && !Bit(b, 6)
             && !Bit(b, 7)
    ensures b == 0
  {
  }

  lemma AbsorbZero()
    ensures Absorb(0, 0) == 0
  {
  }

  lemma {:induction false} ZeroRegister(e: seq<octet>)
    requires AllZero(e)
    ensures Register(0, e) == 0
    decreases |e|
  {
    hide Absorb;
    if e != [] {
      ZeroRegister(e[..|e| - 1]);
      AbsorbZero();
    }
  }

  lemma {:induction false} RegisterConcat(c: octet, a: seq<octet>, b: seq<octet>)
    ensures Register(c, a + b) == Register(Register(c, a), b)
    decreases |b|
  {
    hide Absorb;
    if b == [] {
      assert a + b == a;
    } else {
      var n := |b| - 1;
      assert (a + b)[..|a + b| - 1] == a + b[..n];
      RegisterConcat(c, a, b[..n]);
    }
  }

  lemma {:induction false} NonzeroStays(c: octet, e: seq<octet>)
    requires c != 0 && AllZero(e)
    ensures Register(c, e) != 0
    decreases |e|
  {
    hide Absorb;
    if e != [] {
      NonzeroStays(c, e[..|e| - 1]);
      AbsorbKernel(Register(c, e[..|e| - 1]), 0);
    }
  }

  function LowMask(q: nat): octet
    requires q <= 8
  {
    (0xFF as octet) >> q
  }

  /**
   * The heart of the burst property: a change in the last 8 - q bits of one byte and the
   * first q bits of the next leaves a register other than zero.
   */
  lemma BurstAcross(a: octet, b: octet, q: nat)
    requires q < 8 && a & LowMask(q) == a && b & LowMask(q) == 0
    requires a != 0 || b != 0
    ensures Absorb(0, a) != b
  {
    if {
      case q == 0 => BurstAcrossMask(a, b, 0xFF);
      case q == 1 => BurstAcrossMask(a, b, 0x7F);
      case q == 2 => BurstAcrossMask(a, b, 0x3F);
      case q == 3 => BurstAcrossMask(a, b, 0x1F);
      case q == 4 => BurstAcrossMask(a, b, 0x0F);
      case q == 5 => BurstAcrossMask(a, b, 0x07);
      case q == 6 => BurstAcrossMask(a, b, 0x03);
      case q == 7 => BurstAcrossMask(a, b, 0x01);
    }
  }

  lemma BurstAcrossMask(a: octet, b: octet, mask: octet)
    requires mask & (mask + 1) == 0 && mask != 0
    requires a & mask == a && b & mask == 0
    requires a != 0 || b != 0
    ensures Absorb(0, a) != b
  {
  }

  lemma OneFewerHigh(b: octet, q: nat)
    requires q < 8 && b & LowMask(q) == b && !Msb(b, q)
    ensures b & LowMask(q + 1) == b
  {
    if {
      case q == 0 =>
      case q == 1 =>
      case q == 2 =>
      case q == 3 =>
      case q == 4 =>
      case q == 5 =>
      case q == 6 =>
      case q == 7 =>
    }
  }

  lemma OneFewerLow(b: octet, q: nat)
    requires q < 8 && b & LowMask(q + 1) == 0 && !Msb(b, q)
    ensures b & LowMask(q) == 0
  {
    if {
      case q == 0 =>
      case q == 1 =>
      case q == 2 =>
      case q == 3 =>
      case q == 4 =>
      case q == 5 =>
      case q == 6 =>
      case q == 7 =>
    }
  }

  lemma LowMaskEnds(b: octet)
    ensures b & LowMask(0) == b && b & LowMask(8) == 0
  {
  }

  lemma {:induction false} HighBitsClear(b: octet, q: nat)
    requires q <= 8 && forall t: nat | t < q :: !Msb(b, t)
    ensures b & LowMask(q) == b
  {
    hide LowMask, Msb;
    if q == 0 {
      LowMaskEnds(b);
    } else {
      HighBitsClear(b, q - 1);
      OneFewerHigh(b, q - 1);
    }
  }

  lemma {:induction false} LowBitsClear(b: octet, q: nat)
    requires q <= 8 && forall t: nat | q <= t < 8 :: !Msb(b, t)
    ensures b & LowMask(q) == 0
    decreases 8 - q
  {
    hide LowMask, Msb;
    if q == 8 {
      LowMaskEnds(b);
    } else {
      LowBitsClear(b, q + 1);
      OneFewerLow(b, q);
    }
  }

  lemma BitIndex(e: seq<octet>, j: nat, t: nat)
    requires j < |e| && t < 8
    ensures 8 * j + t < 8 * |e| && BitOf(e, 8 * j + t) == Msb(e[j], t)
  {
    assert (8 * j + t) / 8 == j && (8 * j + t) % 8 == t;
  }

  lemma ClearOutside(e: seq<octet>, p: nat, j: nat)
    requires IsBurst(e, p) && j < |e| && (j < p / 8 || p / 8 + 1 < j)
    ensures e[j] == 0
  {
    hide BitOf, Msb, LowMask;
    forall t: nat | t < 8
      ensures !Msb(e[j], t)
    {
      BitIndex(e, j, t);
    }
    LowBitsClear(e[j], 0);
    LowMaskEnds(e[j]);
  }

  lemma FirstByte(e: seq<octet>, p: nat)
    requires IsBurst(e, p) && p / 8 < |e|
    ensures e[p / 8] & LowMask(p % 8) == e[p / 8]
  {
    hide BitOf, Msb, LowMask;
    forall t: nat | t < p % 8
      ensures !Msb(e[p / 8], t)
    {
      BitIndex(e, p / 8, t);
    }
    HighBitsClear(e[p / 8], p % 8);
  }

  lemma SecondByte(e: seq<octet>, p: nat)
    requires IsBurst(e, p) && p / 8 + 1 < |e|
    ensures e[p / 8 + 1] & LowMask(p % 8) == 0
  {
    hide BitOf, Msb, LowMask;
    var b, q := e[p / 8 + 1], p % 8;
    forall t: nat | q <= t < 8
      ensures !Msb(b, t)
    {
      BitIndex(e, p / 8 + 1, t);
    }
    LowBitsClear(b, q);
  }

  lemma ZeroHasNoBit(e: seq<octet>, k: nat)
    requires k < 8 * |e| && BitOf(e, k)
    ensures e[k / 8] != 0
  {
    assert !Bit(0, 0) && !Bit(0, 1) && !Bit(0, 2) && !Bit(0, 3) && !Bit(0, 4) && !Bit(0, 5) && !Bit(0, 6) && !Bit(0, 7);
  }

  /** The register after leading zeros, two bytes that are not both zero, and trailing zeros. */
  lemma TwoBytes(e: seq<octet>, i: nat)
    requires i + 1 < |e| && AllZero(e[..i]) && AllZero(e[i + 2..])
    requires Absorb(0, e[i]) != e[i + 1]
    ensures Register(0, e) != 0
  {
    hide Absorb;
    ZeroRegister(e[..i]);
    assert e[..i + 1][..i] == e[..i];
    assert e[..i + 2][..i + 1] == e[..i + 1];
    AbsorbKernel(Register(0, e[..i + 1]), e[i + 1]);
    assert e == e[..i + 2] + e[i + 2..];
    RegisterConcat(0, e[..i + 2], e[i + 2..]);
    NonzeroStays(Register(0, e[..i + 2]), e[i + 2..]);
  }

  lemma LastByte(e: seq<octet>)
    requires e != [] && AllZero(e[..|e| - 1]) && e[|e| - 1] != 0
    ensures Register(0, e) != 0
  {
    hide Absorb;
    ZeroRegister(e[..|e| - 1]);
    AbsorbKernel(0, e[|e| - 1]);
  }

  lemma BurstRegister(e: seq<octet>, p: nat)
    requires IsBurst(e, p)
    ensures Register(0, e) != 0
  {
    hide Absorb, BitOf, LowMask;
    var k: nat :| k < 8 * |e| && BitOf(e, k);
    ZeroHasNoBit(e, k);
    var i := p / 8;
    assert p <= k < p + 8;
    assert i <= k / 8 <= i + 1;
    forall j: nat | j < |e| && (j < i || i + 1 < j)
      ensures e[j] == 0
    {
      ClearOutside(e, p, j);
    }
    FirstByte(e, p);
    if i + 1 == |e| {
      LastByte(e);
    } else {
      SecondByte(e, p);
      BurstAcross(e[i], e[i + 1], p % 8);
      TwoBytes(e, i);
    }
  }

  /** Changing bits within eight consecutive ones of an accepted word is always seen, whatever its length. */
  lemma BurstIsSeen(word: seq<octet>, error: seq<octet>, p: nat)
    requires Accepted(word) && |word| == |error|
    requires IsBurst(error, p)
    ensures !Accepted(Flip(word, error))
  {
    UnseenIff(word, error);
    BurstRegister(error, p);
  }

  // ---------------------------------------------------------------- two-byte words

  lemma NoOnes(b: octet)
    ensures Ones(b) == 0 <==> b == 0
  {
    hide Bit;
    assert !Bit(0, 0) && !Bit(0, 1) && !Bit(0, 2) && !Bit(0, 3) && !Bit(0, 4) && !Bit(0, 5) && !Bit(0, 6)
        && !Bit(0, 7) by {
      ZeroBits();
    }
    if Ones(b) == 0 {
      NoBits(b);
    }
  }

  lemma ZeroBits()
    ensures !Bit(0, 0) && !Bit(0, 1) && !Bit(0, 2) && !Bit(0, 3) && !Bit(0, 4) && !Bit(0, 5) && !Bit(0, 6) && !Bit(0, 7)
  {
  }

  predicate Power(b: octet) {
    b == 1 || b == 2 || b == 4 || b == 8 || b == 16 || b == 32 || b == 64 || b == 128
  }

  lemma OneOne(b: octet)
    requires Ones(b) == 1
    ensures Power(b)
  {
  }

  lemma PowersApart(a: octet, b: octet)
    requires Power(a) && Power(b)
    ensures Absorb(0, a) != b && Absorb(Absorb(0, a), 0) != b
  {
  }

  lemma ThreeBytes(e: seq<octet>)
    requires |e| == 3
    ensures Register(0, e) == Absorb(Absorb(Absorb(0, e[0]), e[1]), e[2])
    ensures Weight(e) == Ones(e[0]) + Ones(e[1]) + Ones(e[2])
  {
    hide Absorb, Ones;
    assert e[..2][..1] == e[..1] && e[..1][..0] == [];
    assert Register(0, e[..1]) == Absorb(0, e[0]) && Weight(e[..1]) == Ones(e[0]);
    assert Register(0, e[..2]) == Absorb(Absorb(0, e[0]), e[1]) && Weight(e[..2]) == Ones(e[0]) + Ones(e[1]);
  }

  /**
   * In a two-byte word with its CRC, as the sensor sends them, changing one, two or three
   * bits is always seen.
   */
  lemma FewChangesAreSeen(word: seq<octet>, error: seq<octet>)
    requires Accepted(word) && |word| == |error| == 3
    requires 1 <= Weight(error) <= 3
    ensures !Accepted(Flip(word, error))
  {
    hide Absorb, Ones, Power;
    if Weight(error) != 2 {
      OddErrorIsSeen(word, error);
    } else {
      UnseenIff(word, error);
      ThreeBytes(error);
      var a, b, c := error[0], error[1], error[2];
      TwoChanges(a, b, c);
    }
  }

  lemma TwoChanges(a: octet, b: octet, c: octet)
    requires Ones(a) + Ones(b) + Ones(c) == 2
    ensures Absorb(Absorb(Absorb(0, a), b), c) != 0
  {
    hide Absorb, Ones, Power;
    NoOnes(a);
    NoOnes(b);
    NoOnes(c);
    AbsorbZero();
    AbsorbKernel(0, a);
    AbsorbKernel(0, b);
    AbsorbKernel(Absorb(0, a), b);
    AbsorbKernel(Absorb(Absorb(0, a), b), c);
    if Ones(a) == 1 {
      OneOne(a);
      if Ones(b) == 1 {
        OneOne(b);
        PowersApart(a, b);
      } else {
        OneOne(c);
        PowersApart(a, c);
      }
    } else if Ones(b) == 1 {
      OneOne(b);
      OneOne(c);
      PowersApart(b, c);
    }
  }

  // ---------------------------------------------------------------- the measurement frame

  predicate WordOk(frame: seq<octet>, i: nat)
    requires |frame| == 24 && i < 8
  {
    Accepted(frame[3 * i..3 * i + 3])
  }

  predicate FrameOk(frame: seq<octet>)
    requires |frame| == 24
  {
    forall i: nat | i < 8 :: WordOk(frame, i)
  }

  function WordValue(hi: octet, lo: octet): (v: bv16) {
    ((hi as bv16) << 8) | (lo as bv16)
  }

  function WordAt(frame: seq<octet>, i: nat): bv16
    requires |frame| == 24 && i < 8
  {
    WordValue(frame[3 * i], frame[3 * i + 1])
  }

  /** The two bytes can be read back from the value. */
  lemma WordValueKeepsBytes(hi: octet, lo: octet)
    ensures (WordValue(hi, lo) >> 8) as octet == hi
    ensures (WordValue(hi, lo) & 0xFF) as octet == lo
  {
  }

  class Measurement {
    var pm1: real
    var pm25: real
    var pm4: real
    var pm10: real
    var rh: real
    var temp: real
    var vocIndex: real
    var noxIndex: real

    constructor ()
    {
    }

    /**
     * sen5x_decode_measurement: writes the eight quantities only when the CRCs of all eight
     * words match.
     */
    method Decode(buf: array<octet>) returns (ok: bool)
      requires buf.Length == 24
      modifies this
      ensures ok <==> FrameOk(buf[..])
      ensures ok ==> Shows(buf[..])
      ensures !ok ==> unchanged(this)
    {
      hide WordOk, WordAt;
      var values := new bv16[8];
      for i := 0 to 8
        invariant forall j: nat | j < i :: WordOk(buf[..], j) && values[j] == WordAt(buf[..], j)
        invariant unchanged(this)
      {
        var good, value := ReadWord(buf, i);
        if !good {
          return false;
        }
        values[i] := value;
      }
      pm1 := values[0] as int as real / 10.0;
      pm25 := values[1] as int as real / 10.0;
      pm4 := values[2] as int as real / 10.0;
      pm10 := values[3] as int as real / 10.0;
      rh := values[4] as int as real / 100.0;
      temp := values[5] as int as real / 200.0;
      vocIndex := values[6] as int as real / 10.0;
      noxIndex := values[7] as int as real / 10.0;
      ok := true;
    }

    /** The eight quantities are the scaled words of `frame`. */
    predicate Shows(frame: seq<octet>)
      requires |frame| == 24
      reads this
    {
      && pm1 == WordAt(frame, 0) as int as real / 10.0
      && pm25 == WordAt(frame, 1) as int as real / 10.0
      && pm4 == WordAt(frame, 2) as int as real / 10.0
      && pm10 == WordAt(frame, 3) as int as real / 10.0
      && rh == WordAt(frame, 4) as int as real / 100.0
      && temp == WordAt(frame, 5) as int as real / 200.0
      && vocIndex == WordAt(frame, 6) as int as real / 10.0
      && noxIndex == WordAt(frame, 7) as int as real / 10.0
    }
  }

  /** One round of the decoding loop. */
  method ReadWord(buf: array<octet>, i: nat) returns (good: bool, value: bv16)
    requires buf.Length == 24 && i < 8
    ensures good <==> WordOk(buf[..], i)
    ensures good ==> value == WordAt(buf[..], i)
  {
    hide Register;
    var crc := Sen5xCrc8(buf, 3 * i, 2);
    assert buf[..][3 * i..3 * i + 3][..2] == buf[3 * i..3 * i + 2];
    good := crc == buf[3 * i + 2];
    value := ((buf[3 * i] as bv16) << 8) | (buf[3 * i + 1] as bv16);
  }

  /** A change to one word that the CRC is sure to see, and any changes to the others. */
  ghost predicate Detectable(e: seq<octet>) {
    |e| == 3 && (Weight(e) % 2 == 1 || Weight(e) == 2 || exists p: nat :: IsBurst(e, p))
  }

  /** Such a change to a word of a good frame makes the whole frame bad. */
  lemma ChangedFrameIsRejected(frame: seq<octet>, error: seq<octet>, i: nat)
    requires |frame| == |error| == 24 && i < 8 && FrameOk(frame)
    requires Detectable(error[3 * i..3 * i + 3])
    ensures !FrameOk(Flip(frame, error))
  {
    hide IsBurst;
    var word, e := frame[3 * i..3 * i + 3], error[3 * i..3 * i + 3];
    assert WordOk(frame, i);
    assert Flip(frame, error)[3 * i..3 * i + 3] == Flip(word, e);
    if Weight(e) % 2 == 1 {
      OddErrorIsSeen(word, e);
    } else if Weight(e) == 2 {
      FewChangesAreSeen(word, e);
    } else {
      var p: nat :| IsBurst(e, p);
      BurstIsSeen(word, e, p);
    }
    assert !WordOk(Flip(frame, error), i);
  }

  /** Four changed bits can go unseen: the CRC polynomial itself. */
  lemma FourChangesCanBeUnseen(word: seq<octet>)
    requires Accepted(word) && |word| == 3
    ensures var e: seq<octet> := [0, 1, 0x31]; Weight(e) == 4 && Accepted(Flip(word, e))
  {
    var e: seq<octet> := [0, 1, 0x31];
    UnseenIff(word, e);
    ThreeBytes(e);
  }

  // ---------------------------------------------------------------- the check value

  /** A known value that fixes the initial register: the word BE EF has the CRC 92. */
  lemma CheckValue()
    ensures Crc([0xBE, 0xEF]) == 0x92
  {
    hide Absorb;
    var w: seq<octet> := [0xBE, 0xEF];
    assert w[..1] == [0xBE] && w[..1][..0] == [];
    assert Register(0xFF, w[..1]) == Absorb(0xFF, 0xBE);
    AbsorbValue(0xFF, 0xBE);
    AbsorbValue(0x0C, 0xEF);
  }

  lemma AbsorbValue(crc: octet, data: octet)
    ensures crc == 0xFF && data == 0xBE ==> Absorb(crc, data) == 0x0C
    ensures crc == 0x0C && data == 0xEF ==> Absorb(crc, data) == 0x92
  {
  }
}
