/** What the CRC is: the remainder of dividing the message, followed by sixteen
    zero bits and with its register preset to ones, by x^16 + x^12 + x^5 + 1. */
module CrcDivision {
  import opened Bits
  import opened Bytes
  import opened Crc16

  const GENERATOR: nat := 0x1_1021

  /** Long division over GF(2) of an (n + 16)-bit dividend, one bit at a time. */
  function Divide(x: nat, n: nat): nat
    decreases n
  {
    if n == 0 then x
    else Divide(if x >= Pow2(15 + n) then Xor(x, GENERATOR * Pow2(n - 1)) else x, n - 1)
  }

  /** The message as a number, first byte most significant. */
  function BeNat(data: seq<byte>): nat {
    if data == [] then 0 else data[0] * Pow2(8 * (|data| - 1)) + BeNat(data[1..])
  }

  lemma {:induction false} XorShift(x: nat, y: nat, k: nat)
    ensures Xor(x * Pow2(k), y * Pow2(k)) == Xor(x, y) * Pow2(k)
  {
    hide Xor;
    if k != 0 {
      XorShift(x, y, k - 1);
      ShiftDouble(x, Pow2(k - 1)); ShiftDouble(y, Pow2(k - 1)); ShiftDouble(Xor(x, y), Pow2(k - 1));
      XorDouble(x * Pow2(k - 1), y * Pow2(k - 1));
    }
  }

  /** Shifted words still fit. */
  lemma ShiftBound(x: nat, a: nat, b: nat)
    requires x < Pow2(a)
    ensures 0 <= x * Pow2(b) < Pow2(a + b)
  {
    hide Pow2;
    Pow2Add(a, b);
    Pow2Positive(b);
    StrictMul(x, Pow2(a), Pow2(b));
  }

  lemma StrictMul(x: nat, y: nat, p: nat)
    requires x < y && p > 0
    ensures 0 <= x * p < y * p
  {
    MulMonotone(x + 1, y, p);
    assert (x + 1) * p == x * p + p;
    MulMonotone(0, x, p);
  }

  /** The bit that decides a division step, and what the step leaves. */
  lemma DivideStep(x: nat, n: nat)
    requires n > 0 && x < Pow2(16 + n)
    ensures var y := if x >= Pow2(15 + n) then Xor(x, GENERATOR * Pow2(n - 1)) else x;
            y < Pow2(15 + n)
            && y == Xor(x, if x >= Pow2(15 + n) then GENERATOR * Pow2(n - 1) else 0)
  {
    hide Xor, Pow2;
    XorZero(x);
    if x >= Pow2(15 + n) {
      Powers();
      Pow2Twice(15 + n);
      var p := Pow2(15 + n);
      ShiftSplit(n);
      ShiftBound(0x1021, 16, n - 1);
      XorSplit(1, x - p, 1, 0x1021 * Pow2(n - 1), 15 + n);
      XorSelf(1);
      XorBound(x - p, 0x1021 * Pow2(n - 1), 15 + n);
    }
  }

  lemma Pow2Twice(k: nat)
    ensures Pow2(k + 1) == 2 * Pow2(k)
  {
  }

  lemma ShiftSplit(n: nat)
    requires n > 0
    ensures GENERATOR * Pow2(n - 1) == Pow2(15 + n) + 0x1021 * Pow2(n - 1)
  {
    hide Pow2;
    Powers();
    Pow2Add(16, n - 1);
    DistributeShift(0x1_0000, 0x1021, Pow2(n - 1));
  }

  lemma DistributeShift(x: nat, y: nat, p: nat)
    ensures (x + y) * p == x * p + y * p
  {
  }

  lemma {:induction false} DivideLinear(x: nat, y: nat, n: nat)
    requires x < Pow2(16 + n) && y < Pow2(16 + n)
    ensures Divide(Xor(x, y), n) == Xor(Divide(x, n), Divide(y, n))
    decreases n
  {
    hide Xor, Pow2;
    XorBound(x, y, 16 + n);
    if n != 0 {
      var p, g := Pow2(15 + n), GENERATOR * Pow2(n - 1);
      var gx, gy := if x >= p then g else 0, if y >= p then g else 0;
      DivideStep(x, n); DivideStep(y, n); DivideStep(Xor(x, y), n);
      TopBitOfXor(x, y, 15 + n);
      XorSwap(x, gx, y, gy);
      XorZero(g); XorSelf(g); XorSelf(0);
      assert Xor(Xor(x, gx), Xor(y, gy)) == Xor(Xor(x, y), if Xor(x, y) >= p then g else 0);
      DivideLinear(Xor(x, gx), Xor(y, gy), n - 1);
    }
  }

  lemma TopBitOfXor(x: nat, y: nat, k: nat)
    requires x < Pow2(k + 1) && y < Pow2(k + 1)
    ensures Xor(x, y) >= Pow2(k) <==> (x >= Pow2(k)) != (y >= Pow2(k))
  {
    hide Xor, Pow2;
    Pow2Twice(k);
    var p := Pow2(k);
    var hx, hy := if x >= p then 1 else 0, if y >= p then 1 else 0;
    var lx, ly := x - p * hx, y - p * hy;
    XorSplit(hx, lx, hy, ly, k);
    XorBound(lx, ly, k);
    TopXor(hx, hy);
  }

  /** Dividing a shifted register is stepping it bit by bit. */
  lemma {:induction false} DivideRegister(c: nat, n: nat)
    requires c < WORD
    ensures Divide(c * Pow2(n), n) == BitSteps(c, n)
    decreases n
  {
    hide Xor, Pow2, BitStep;
    Powers();
    if n == 0 {
      assert Pow2(0) == 1 by { Pow2Zero(); }
    } else {
      BitStepIs(c);
      RegisterStep(c, n);
      DivideRegister(BitStep(c), n - 1);
    }
  }

  lemma Pow2Zero()
    ensures Pow2(0) == 1
  {
  }

  lemma RegisterStep(c: nat, n: nat)
    requires c < WORD && n > 0
    ensures (if c * Pow2(n) >= Pow2(15 + n) then Xor(c * Pow2(n), GENERATOR * Pow2(n - 1)) else c * Pow2(n))
         == BitStep(c) * Pow2(n - 1)
  {
    hide Xor, Pow2, BitStep;
    Pow2Twice(n - 1);
    Reassociate(c, Pow2(n - 1));
    TopOfShifted(c, n);
    XorShift(2 * c, GENERATOR, n - 1);
    RegisterOnce(c);
  }

  /** Shifted or not, the word's top bit decides. */
  lemma TopOfShifted(c: nat, n: nat)
    ensures c * Pow2(n) >= Pow2(15 + n) <==> c >= 0x8000
  {
    hide Pow2;
    Powers();
    Pow2Add(15, n);
    Pow2Positive(n);
    if c >= 0x8000 { MulMonotone(0x8000, c, Pow2(n)); } else { StrictMul(c, 0x8000, Pow2(n)); }
  }

  /** Doubled, the word is divided by the generator once. */
  lemma RegisterOnce(c: nat)
    requires c < WORD
    ensures BitStep(c) == if c >= 0x8000 then Xor(2 * c, GENERATOR) else 2 * c
  {
    hide Xor, Pow2, BitStep;
    Powers();
    BitStepIs(c);
    if c >= 0x8000 {
      XorSplit(1, 2 * (c % 0x8000), 1, 0x1021, 16);
      XorSelf(1);
    } else {
      XorZero(2 * c);
    }
  }

  lemma Reassociate(c: nat, p: nat)
    ensures c * (2 * p) == (2 * c) * p
  {
  }

  /** Leading zero bits do not change a remainder. */
  lemma {:induction false} DivideSkips(x: nat, n: nat, k: nat)
    requires x < Pow2(16 + n)
    ensures Divide(x, n + k) == Divide(x, n)
    decreases k
  {
    hide Xor, Pow2;
    if k != 0 {
      Pow2Monotone(16 + n, 15 + n + k);
      DivideSkips(x, n, k - 1);
    }
  }

  lemma {:induction false} BeNatBound(data: seq<byte>)
    ensures BeNat(data) < Pow2(8 * |data|)
    decreases |data|
  {
    hide Pow2;
    Powers();
    if data == [] {
      Pow2Zero();
    } else {
      var k := 8 * (|data| - 1);
      BeNatBound(data[1..]);
      Pow2Add(8, k);
      MulMonotone(data[0], 0xff, Pow2(k));
      DistributeShift(0xff, 1, Pow2(k));
    }
  }

  /** The first byte of the message and the register meet in one 16-bit word;
      p and q are what the shifts by k and k + 8 multiply by. */
  lemma FirstByteJoins(c: nat, b: byte, rest: nat, k: nat, p: nat, q: nat)
    requires c < WORD && rest < p && p == Pow2(k) && q == Pow2(k + 8)
    ensures Xor(c * q, (b * p + rest) * 0x1_0000) == Xor(Xor(c, b * 0x100) * q, rest * 0x1_0000)
  {
    hide Xor, Pow2;
    Powers();
    Pow2Add(k, 8); Pow2Add(k + 8, 8);
    DistributeShift(b * p, rest, 0x1_0000);
    MoveShift(b, p, q);
    MoveTail(b, q);
    ShiftBound(rest, k, 16);
    JoinIsXor(b, rest * 0x1_0000, k + 16);
    XorAssoc(c * q, (b * 0x100) * q, rest * 0x1_0000);
    XorShift(c, b * 0x100, k + 8);
  }

  lemma MoveShift(b: nat, p: nat, q: nat)
    requires q == p * 0x100
    ensures (b * p) * 0x1_0000 == (b * 0x100) * q
  {
  }

  lemma MoveTail(b: nat, q: nat)
    ensures b * (q * 0x100) == (b * 0x100) * q
  {
  }

  lemma JoinIsXor(high: nat, low: nat, k: nat)
    requires low < Pow2(k)
    ensures Xor(high * Pow2(k), low) == high * Pow2(k) + low
  {
    hide Xor, Pow2;
    XorSplit(high, 0, 0, low, k);
    XorZero(low);
    XorZero(high);
    TimesCommutes(high, Pow2(k));
  }

  lemma TimesCommutes(x: nat, y: nat)
    ensures x * y == y * x
  {
  }

  lemma {:induction false} CrcFromIsRemainder(c: nat, data: seq<byte>)
    requires c < WORD
    ensures CrcFrom(c, data) == Divide(Xor(c * Pow2(8 * |data|), BeNat(data) * Pow2(16)), 8 * |data|)
    decreases |data|
  {
    hide Xor, Pow2, BitSteps, Divide;
    Powers();
    if data == [] {
      Pow2Zero();
      XorZero(c);
      DivideNothing(c);
    } else {
      var b: byte, rest, k := data[0], data[1..], 8 * (|data| - 1);
      var top: nat := b;
      var c', w, tail := ByteStep(c, b), Xor(c, top * 0x100), BeNat(rest) * Pow2(16);
      ShiftedBound(c, b);
      BeNatBound(rest);
      CrcFromIsRemainder(c', rest);
      ShiftBound(BeNat(rest), k, 16);
      ShiftBound(c', 16, k);
      DivideLinear(c' * Pow2(k), tail, k);
      DivideRegister(c', k);
      BitStepsAdd(w, 8, k);
      FirstByteJoins(c, b, BeNat(rest), k, Pow2(k), Pow2(k + 8));
      ShiftBound(w, 16, k + 8);
      Pow2Monotone(16 + k, 16 + (k + 8));
      DivideLinear(w * Pow2(k + 8), tail, k + 8);
      DivideRegister(w, k + 8);
      DivideSkips(tail, k, 8);
    }
  }

  lemma DivideNothing(x: nat)
    ensures Divide(x, 0) == x
  {
  }

  /** The CRC of every message is the remainder of the polynomial division. */
  lemma CrcIsRemainder(data: seq<byte>)
    ensures Crc(data) == Divide(Xor(0xFFFF * Pow2(8 * |data|), BeNat(data) * Pow2(16)), 8 * |data|)
  {
    hide Xor, Pow2, CrcFrom, Divide;
    CrcFromIsRemainder(0xFFFF, data);
  }
}
