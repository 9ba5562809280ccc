/** CRC-16/CCITT-FALSE, as both ends of the serial link compute it. */
module Crc16 {
  import opened Bits
  import opened Bytes

  const POLY: nat := 0x1021
  const WORD: nat := 0x1_0000

  function BitStep(crc: nat): nat {
    if And(crc, 0x8000) != 0 then Xor(crc * 2, POLY) % WORD else crc * 2 % WORD
  }

  function BitSteps(crc: nat, n: nat): nat
    decreases n
  {
    if n == 0 then crc else BitSteps(BitStep(crc), n - 1)
  }

  function ByteStep(crc: nat, b: byte): nat { BitSteps(Xor(crc, b * 0x100), 8) }

  function CrcFrom(crc: nat, data: seq<byte>): nat
    decreases |data|
  {
    if data == [] then crc else CrcFrom(ByteStep(crc, data[0]), data[1..])
  }

  function Crc(data: seq<byte>): nat { CrcFrom(0xFFFF, data) }

  method Compute(data: seq<byte>) returns (crc: nat)
    ensures crc == Crc(data)
  {
    hide BitStep, Xor;
    crc := 0xFFFF;
    assert data[0..] == data;
    for i := 0 to |data|
      invariant CrcFrom(crc, data[i..]) == Crc(data)
    {
      assert data[i..][1..] == data[i + 1..];
      var b: nat := data[i];
      crc := Xor(crc, b * 0x100);
      for k := 0 to 8
        invariant CrcFrom(BitSteps(crc, 8 - k), data[i + 1..]) == Crc(data)
      {
        crc := BitStep(crc);
      }
    }
  }

  // ---------- the bit step is linear and invertible on 16-bit words ----------

  /** The step with its masks worked out. */
  function Feedback(x: nat): nat { if x >= 0x8000 then POLY else 0 }

  lemma BitStepIs(x: nat)
    requires x < WORD
    ensures BitStep(x) == Xor(2 * (x % 0x8000), Feedback(x)) < WORD
  {
    hide Xor, And, Pow2, BitAt;
    Powers();
    TopBit(x);
    XorZero(2 * (x % 0x8000));
    if x >= 0x8000 {
      XorZero(1);
      XorSplit(1, 2 * (x % 0x8000), 0, POLY, 16);
      XorBound(2 * (x % 0x8000), POLY, 16);
    }
  }

  lemma TopBit(x: nat)
    requires x < WORD
    ensures And(x, 0x8000) != 0 <==> x >= 0x8000
  {
    hide And, Pow2;
    Powers();
    AndSplit(x / 0x8000, x % 0x8000, 1, 0, 15);
    AndZero(x % 0x8000);
    assert And(1, 1) == 1 && And(0, 1) == 0 by { AndHalf(1, 1); AndHalf(0, 1); AndHalf(0, 0); }
  }

  lemma BitStepLinear(x: nat, y: nat)
    requires x < WORD && y < WORD
    ensures Xor(x, y) < WORD && BitStep(Xor(x, y)) == Xor(BitStep(x), BitStep(y))
  {
    hide Xor, Pow2, BitStep;
    Powers();
    XorBound(x, y, 16);
    var lx, ly := x % 0x8000, y % 0x8000;
    XorSplit(x / 0x8000, lx, y / 0x8000, ly, 15);
    XorBound(lx, ly, 15);
    TopXor(x / 0x8000, y / 0x8000);
    XorDouble(lx, ly);
    BitStepIs(x); BitStepIs(y); BitStepIs(Xor(x, y));
    XorSwap(2 * lx, Feedback(x), 2 * ly, Feedback(y));
    XorZero(POLY); XorSelf(POLY);
  }

  lemma TopXor(a: nat, b: nat)
    requires a <= 1 && b <= 1
    ensures Xor(a, b) == if a == b then 0 else 1
  {
    XorZero(a); XorZero(b); XorSelf(a);
  }

  lemma XorDouble(x: nat, y: nat)
    ensures Xor(2 * x, 2 * y) == 2 * Xor(x, y)
  {
    hide Xor;
    XorHalf(2 * x, 2 * y);
  }

  lemma XorSwap(a: nat, b: nat, c: nat, d: nat)
    ensures Xor(Xor(a, b), Xor(c, d)) == Xor(Xor(a, c), Xor(b, d))
  {
    hide Xor;
    XorAssoc(a, b, Xor(c, d));
    XorAssoc(b, c, d);
    XorCommutes(b, c);
    XorAssoc(c, b, d);
    XorAssoc(a, c, Xor(b, d));
  }

  lemma BitStepKernel(x: nat)
    requires x < WORD && BitStep(x) == 0
    ensures x == 0
  {
    hide Xor, BitStep;
    BitStepIs(x);
    XorZeroIff(2 * (x % 0x8000), Feedback(x));
  }

  lemma {:induction false} BitStepsLinear(x: nat, y: nat, n: nat)
    requires x < WORD && y < WORD
    ensures Xor(x, y) < WORD && BitSteps(Xor(x, y), n) == Xor(BitSteps(x, n), BitSteps(y, n))
    ensures BitSteps(x, n) < WORD
    decreases n
  {
    hide Xor, BitStep;
    BitStepLinear(x, y);
    if n != 0 {
      BitStepIs(x); BitStepIs(y);
      BitStepsLinear(BitStep(x), BitStep(y), n - 1);
    }
  }

  lemma {:induction false} BitStepsKernel(x: nat, n: nat)
    requires x < WORD && BitSteps(x, n) == 0
    ensures x == 0
    decreases n
  {
    hide Xor, BitStep;
    if n != 0 {
      BitStepIs(x);
      BitStepsKernel(BitStep(x), n - 1);
      BitStepKernel(x);
    }
  }

  lemma BitStepsInjective(x: nat, y: nat, n: nat)
    requires x < WORD && y < WORD && BitSteps(x, n) == BitSteps(y, n)
    ensures x == y
  {
    hide Xor, BitSteps;
    BitStepsLinear(x, y, n);
    XorZeroIff(BitSteps(x, n), BitSteps(y, n));
    BitStepsKernel(Xor(x, y), n);
    XorZeroIff(x, y);
  }

  // ---------- bytes ----------

  lemma ShiftedBound(crc: nat, b: byte)
    requires crc < WORD
    ensures Xor(crc, b * 0x100) < WORD && ByteStep(crc, b) < WORD
  {
    hide Xor, Pow2, BitSteps;
    Powers();
    XorBound(crc, b * 0x100, 16);
    BitStepsLinear(Xor(crc, b * 0x100), 0, 8);
  }

  /** Steps that push no bit out at the top are a shift. */
  lemma {:induction false} Rises(x: nat, n: nat)
    requires x * Pow2(n) < WORD
    ensures BitSteps(x, n) == x * Pow2(n)
    decreases n
  {
    hide Xor, BitStep;
    if n != 0 {
      Pow2Positive(n - 1);
      ShiftDouble(x, Pow2(n - 1));
      ShiftDouble(Pow2(n - 1), x);
      MulMonotone(1, Pow2(n - 1), 2 * x);
      BitStepIs(x);
      XorZero(2 * x);
      assert (2 * x) * Pow2(n - 1) == x * Pow2(n);
      Rises(2 * x, n - 1);
    }
  }

  /** Eight steps carry a low byte to the top unchanged. */
  lemma LowByteRises(b: byte)
    ensures BitSteps(b, 8) == b * 0x100
  {
    hide BitSteps, Pow2;
    Powers();
    Rises(b, 8);
  }

  lemma {:induction false} BitStepsAdd(c: nat, a: nat, b: nat)
    ensures BitSteps(BitSteps(c, a), b) == BitSteps(c, a + b)
    decreases a
  {
    hide BitStep;
    if a != 0 { BitStepsAdd(BitStep(c), a - 1, b); }
  }

  /** Two bytes act as one 16-bit word. */
  lemma TwoBytesAreOneWord(crc: nat, a: byte, b: byte)
    requires crc < WORD
    ensures Xor(crc, a * 0x100 + b) < WORD
    ensures ByteStep(ByteStep(crc, a), b) == BitSteps(BitSteps(Xor(crc, a * 0x100 + b), 8), 8)
  {
    hide Xor, BitSteps, Pow2;
    Powers();
    ShiftedBound(crc, a);
    var x := Xor(crc, a * 0x100);
    BitStepsLinear(x, b, 8);
    LowByteRises(b);
    XorAssoc(crc, a * 0x100, b);
    assert Xor(a * 0x100, b) == a * 0x100 + b by {
      XorSplit(a, 0, 0, b, 8);
      XorZero(a); XorZero(b);
    }
  }

  lemma ByteStepInjective(x: nat, y: nat, b: byte)
    requires x < WORD && y < WORD && ByteStep(x, b) == ByteStep(y, b)
    ensures x == y
  {
    hide Xor, BitSteps;
    ShiftedBound(x, b);
    ShiftedBound(y, b);
    BitStepsInjective(Xor(x, b * 0x100), Xor(y, b * 0x100), 8);
    XorCancel(x, b * 0x100);
    XorCancel(y, b * 0x100);
  }

  lemma {:induction false} CrcFromInjective(x: nat, y: nat, data: seq<byte>)
    requires x < WORD && y < WORD && CrcFrom(x, data) == CrcFrom(y, data)
    ensures x == y
    decreases |data|
  {
    hide ByteStep;
    if data != [] {
      ShiftedBound(x, data[0]);
      ShiftedBound(y, data[0]);
      CrcFromInjective(ByteStep(x, data[0]), ByteStep(y, data[0]), data[1..]);
      ByteStepInjective(x, y, data[0]);
    }
  }

  lemma {:induction false} CrcFromConcat(crc: nat, a: seq<byte>, b: seq<byte>)
    requires crc < WORD
    ensures CrcFrom(crc, a) < WORD && CrcFrom(crc, a + b) == CrcFrom(CrcFrom(crc, a), b)
    decreases |a|
  {
    hide ByteStep;
    if a == [] {
      assert a + b == b;
    } else {
      ShiftedBound(crc, a[0]);
      assert (a + b)[1..] == a[1..] + b;
      CrcFromConcat(ByteStep(crc, a[0]), a[1..], b);
    }
  }

  /** Changing one or both of two adjacent bytes always changes the CRC,
      whatever stands before and after them. */
  lemma BurstChangesCrc(before: seq<byte>, a0: byte, a1: byte, b0: byte, b1: byte, after: seq<byte>)
    requires a0 != b0 || a1 != b1
    ensures Crc(before + [a0, a1] + after) != Crc(before + [b0, b1] + after)
  {
    hide ByteStep, BitSteps, Xor;
    var s := CrcFrom(0xFFFF, before);
    CrcFromConcat(0xFFFF, before, [a0, a1]); CrcFromConcat(0xFFFF, before + [a0, a1], after);
    CrcFromConcat(0xFFFF, before, [b0, b1]); CrcFromConcat(0xFFFF, before + [b0, b1], after);
    CrcOfTwo(s, a0, a1);
    CrcOfTwo(s, b0, b1);
    TwoBytesAreOneWord(s, a0, a1);
    TwoBytesAreOneWord(s, b0, b1);
    if Crc(before + [a0, a1] + after) == Crc(before + [b0, b1] + after) {
      CrcFromInjective(CrcFrom(s, [a0, a1]), CrcFrom(s, [b0, b1]), after);
      var wa, wb := a0 * 0x100 + a1, b0 * 0x100 + b1;
      BitStepsLinear(Xor(s, wa), 0, 8);
      BitStepsLinear(Xor(s, wb), 0, 8);
      BitStepsInjective(BitSteps(Xor(s, wa), 8), BitSteps(Xor(s, wb), 8), 8);
      BitStepsInjective(Xor(s, wa), Xor(s, wb), 8);
      XorCommutes(s, wa); XorCommutes(s, wb);
      XorCancel(wa, s); XorCancel(wb, s);
    }
  }

  lemma CrcOfTwo(crc: nat, a: byte, b: byte)
    ensures CrcFrom(crc, [a, b]) == ByteStep(ByteStep(crc, a), b)
  {
    hide ByteStep;
    assert [a, b][1..] == [b] && [b][1..] == [];
    assert CrcFrom(ByteStep(crc, a), [b]) == CrcFrom(ByteStep(ByteStep(crc, a), b), []);
  }
}
