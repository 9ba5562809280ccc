/** Which transmission errors the CRC cannot miss: every burst of up to 16 bits,
    wherever it starts within a byte, and every odd number of flipped bits. */
module CrcDetection {
  import opened Bits
  import opened Bytes
  import opened Crc16

  // ---------- bursts ----------

  lemma ByteStepLinear(x: nat, y: nat, a: byte, b: byte)
    requires x < WORD && y < WORD
    ensures Xor(x, y) < WORD && ByteStep(x, a) < WORD && ByteStep(y, b) < WORD
    ensures Xor(ByteStep(x, a), ByteStep(y, b)) == ByteStep(Xor(x, y), XorByte(a, b))
  {
    hide Xor, BitSteps, Pow2;
    Powers();
    XorBound(x, y, 16);
    ShiftedBound(x, a);
    ShiftedBound(y, b);
    BitStepsLinear(Xor(x, a * 0x100), Xor(y, b * 0x100), 8);
    XorSwap(x, a * 0x100, y, b * 0x100);
    XorSplit(a, 0, b, 0, 8);
    XorZero(0);
  }

  function ThreeBytes(crc: nat, a: byte, b: byte, c: byte): nat { ByteStep(ByteStep(ByteStep(crc, a), b), c) }

  /** The difference two triples make does not depend on the register. */
  lemma ThreeBytesLinear(crc: nat, a0: byte, a1: byte, a2: byte, b0: byte, b1: byte, b2: byte)
    requires crc < WORD
    ensures Xor(ThreeBytes(crc, a0, a1, a2), ThreeBytes(crc, b0, b1, b2))
         == ThreeBytes(0, XorByte(a0, b0), XorByte(a1, b1), XorByte(a2, b2))
    ensures ThreeBytes(crc, a0, a1, a2) < WORD && ThreeBytes(crc, b0, b1, b2) < WORD
  {
    hide Xor, ByteStep, XorByte;
    ByteStepLinear(crc, crc, a0, b0);
    ByteStepLinear(ByteStep(crc, a0), ByteStep(crc, b0), a1, b1);
    ByteStepLinear(ByteStep(ByteStep(crc, a0), a1), ByteStep(ByteStep(crc, b0), b1), a2, b2);
    XorSelf(crc);
  }

  /** Three bytes that hold a 16-bit word shifted by k bits act as that word
      followed by k + 8 zero bits. */
  lemma ShiftedWord(u: nat, k: nat, e0: byte, e1: byte, e2: byte)
    requires u < WORD && k <= 8 && e0 * 0x1_0000 + e1 * 0x100 + e2 == u * Pow2(k)
    ensures ThreeBytes(0, e0, e1, e2) == BitSteps(u, k + 16)
  {
    hide Xor, BitSteps, Pow2, ByteStep;
    var w: nat := e0 * 0x100 + e1;
    var v := BitSteps(w, 8);
    XorZero(w);
    TwoBytesAreOneWord(0, e0, e1);
    BitStepsLinear(w, 0, 8);
    BitStepsLinear(v, e2, 8);
    LowByteRises(e2);
    LastByte(BitSteps(v, 8), e2);
    MeetInByte(u, k, w, e2);
    BitStepsAdd(u, k, 8);
    BitStepsAdd(u, k + 8, 8);
  }

  lemma LastByte(crc: nat, b: byte)
    ensures ByteStep(crc, b) == BitSteps(Xor(crc, b * 0x100), 8)
  {
    hide BitSteps, Xor;
  }

  lemma MeetInByte(u: nat, k: nat, w: nat, e2: byte)
    requires u < WORD && k <= 8 && 0x100 * w + e2 == u * Pow2(k)
    ensures w < WORD && Xor(BitSteps(w, 8), e2) == BitSteps(u, k)
  {
    hide Xor, BitSteps, Pow2;
    var lo := SplitAt(u, k, w, e2);
    MeetParts(u, w, lo, 8 - k, k, e2);
  }

  lemma SplitAt(u: nat, k: nat, w: nat, e2: byte) returns (lo: nat)
    requires k <= 8 && 0x100 * w + e2 == u * Pow2(k)
    ensures lo < Pow2(8 - k) && 0 <= w * Pow2(8 - k) && u == w * Pow2(8 - k) + lo && lo * Pow2(k) == e2
  {
    hide Pow2;
    Powers();
    Pow2Add(k, 8 - k);
    Pow2Positive(8 - k); Pow2Positive(k);
    lo := SplitShift(u, Pow2(k), Pow2(8 - k), w, e2);
  }

  /** The word's upper part rises by j steps and k more; its lower part by k. */
  lemma MeetParts(u: nat, hi: nat, lo: nat, j: nat, k: nat, e2: byte)
    requires j + k == 8 && lo < Pow2(j) && u == hi * Pow2(j) + lo < WORD && lo * Pow2(k) == e2 && 0 <= hi * Pow2(j)
    ensures hi < WORD && Xor(BitSteps(hi, 8), e2) == BitSteps(u, k)
  {
    hide Xor, BitSteps, Pow2;
    Pow2Positive(j);
    MulMonotone(1, Pow2(j), hi);
    Rises(hi, j);
    Rises(lo, k);
    XorSplit(hi, 0, 0, lo, j);
    XorZero(hi); XorZero(lo);
    BitStepsLinear(hi * Pow2(j), lo, k);
    BitStepsAdd(hi, j, k);
  }

  lemma SplitShift(u: nat, p: nat, q: nat, w: nat, e2: byte) returns (lo: nat)
    requires p > 0 && q > 0 && p * q == 0x100 && 0x100 * w + e2 == u * p
    ensures lo < q && 0 <= w * q && u == w * q + lo && lo * p == e2
  {
    var hi := u / q;
    lo := u % q;
    QuotientTimes(u, q);
    ShiftedParts(hi, lo, p, q);
    LowPart(lo, p, q);
    DivModUnique(u * p, 0x100, hi, lo * p);
    DivModUnique(u * p, 0x100, w, e2);
  }

  lemma QuotientTimes(u: nat, q: nat)
    requires q > 0
    ensures u == (u / q) * q + u % q && u % q < q && 0 <= (u / q) * q
  {
    MulMonotone(0, u / q, q);
  }

  lemma ShiftedParts(hi: nat, lo: nat, p: nat, q: nat)
    requires p * q == 0x100
    ensures (hi * q + lo) * p == 0x100 * hi + lo * p
  {
    assert (hi * q) * p == hi * (p * q);
  }

  lemma LowPart(lo: nat, p: nat, q: nat)
    requires lo < q && p > 0 && p * q == 0x100
    ensures 0 <= lo * p < 0x100
  {
    MulMonotone(0, lo, p);
    MulMonotone(lo + 1, q, p);
    assert (lo + 1) * p == lo * p + p;
  }

  lemma BitStepsKeepsNonzero(u: nat, n: nat)
    requires 0 < u < WORD
    ensures BitSteps(u, n) != 0
    decreases n
  {
    hide BitSteps;
    if BitSteps(u, n) == 0 { BitStepsKernel(u, n); }
  }

  /** What differs between two byte triples, as a 24-bit number. */
  function Difference(a0: byte, a1: byte, a2: byte, b0: byte, b1: byte, b2: byte): nat {
    XorByte(a0, b0) * 0x1_0000 + XorByte(a1, b1) * 0x100 + XorByte(a2, b2)
  }

  /** Any change within 16 adjacent bits changes the CRC, wherever in a byte the
      16 bits start and whatever surrounds them. */
  lemma BurstOf16ChangesCrc(before: seq<byte>, a0: byte, a1: byte, a2: byte, b0: byte, b1: byte, b2: byte,
                            after: seq<byte>, u: nat, k: nat)
    requires 0 < u < WORD && k <= 8 && Difference(a0, a1, a2, b0, b1, b2) == u * Pow2(k)
    ensures Crc(before + [a0, a1, a2] + after) != Crc(before + [b0, b1, b2] + after)
  {
    hide ByteStep, BitSteps, Xor, XorByte, Pow2, CrcFrom;
    var s := CrcFrom(0xFFFF, before);
    CrcFromConcat(0xFFFF, before, [a0, a1, a2]); CrcFromConcat(0xFFFF, before + [a0, a1, a2], after);
    CrcFromConcat(0xFFFF, before, [b0, b1, b2]); CrcFromConcat(0xFFFF, before + [b0, b1, b2], after);
    CrcOfThree(s, a0, a1, a2);
    CrcOfThree(s, b0, b1, b2);
    ThreeBytesLinear(s, a0, a1, a2, b0, b1, b2);
    ShiftedWord(u, k, XorByte(a0, b0), XorByte(a1, b1), XorByte(a2, b2));
    BitStepsKeepsNonzero(u, k + 16);
    XorZeroIff(ThreeBytes(s, a0, a1, a2), ThreeBytes(s, b0, b1, b2));
    if Crc(before + [a0, a1, a2] + after) == Crc(before + [b0, b1, b2] + after) {
      CrcFromInjective(ThreeBytes(s, a0, a1, a2), ThreeBytes(s, b0, b1, b2), after);
    }
  }

  lemma CrcOfThree(crc: nat, a: byte, b: byte, c: byte)
    ensures CrcFrom(crc, [a, b, c]) == ThreeBytes(crc, a, b, c)
  {
    hide ByteStep;
    assert [a, b, c][1..] == [b, c];
    CrcOfTwo(ByteStep(crc, a), b, c);
  }

  // ---------- the number of one bits ----------

  function Ones(x: nat): nat { if x == 0 then 0 else x % 2 + Ones(x / 2) }

  function OnesIn(data: seq<byte>): nat { if data == [] then 0 else Ones(data[0]) + OnesIn(data[1..]) }

  lemma {:induction false} OnesXor(x: nat, y: nat)
    ensures Ones(Xor(x, y)) % 2 == (Ones(x) + Ones(y)) % 2
    decreases x
  {
    hide Xor, Ones;
    if x == 0 {
      XorZero(y);
      OnesOfNone();
    } else {
      OnesXor(x / 2, y / 2);
      XorHalf(x, y);
      OnesStep(Xor(x, y)); OnesStep(x); OnesStep(y);
      AddParities(x % 2, y % 2, Ones(x / 2), Ones(y / 2), Ones(Xor(x / 2, y / 2)));
    }
  }

  lemma OnesOfNone()
    ensures Ones(0) == 0
  {
  }

  lemma AddParities(a: nat, b: nat, m: nat, n: nat, both: nat)
    requires both % 2 == (m + n) % 2
    ensures ((a + b) % 2 + both) % 2 == ((a + m) + (b + n)) % 2
  {
  }

  lemma OnesStep(x: nat)
    ensures Ones(x) == x % 2 + Ones(x / 2)
  {
  }

  lemma {:induction false} OnesShift(x: nat, k: nat)
    ensures Ones(x * Pow2(k)) == Ones(x)
  {
    if k != 0 {
      OnesShift(x, k - 1);
      ShiftDouble(x, Pow2(k - 1));
      OnesStep(x * Pow2(k));
    }
  }

  /** A step drops a one bit exactly when it adds the polynomial's three. */
  lemma BitStepParity(x: nat)
    requires x < WORD
    ensures BitStep(x) < WORD && Ones(BitStep(x)) % 2 == Ones(x) % 2
  {
    hide Xor, BitStep, Ones, Pow2;
    Powers();
    BitStepIs(x);
    var low := x % 0x8000;
    var high := x - low;
    assert high == 0 || high == 0x8000;
    assert x == Xor(high, low) by { XorSplit(x / 0x8000, 0, 0, low, 15); XorZero(x / 0x8000); XorZero(low); }
    OnesXor(high, low);
    OnesXor(2 * low, Feedback(x));
    OnesShift(low, 1);
    assert Pow2(1) == 2 by { Pow2One(); }
    OnesOfMasks();
  }

  lemma Pow2One()
    ensures Pow2(1) == 2
  {
  }

  lemma OnesOfMasks()
    ensures Ones(POLY) == 3 && Ones(0x8000) == 1 && Ones(0) == 0 && Ones(0xFFFF) == 16
  {
    hide Pow2, Ones;
    OnesOfByte();
    OnesJoin(0x10, 0x21);
    OnesJoin(0x80, 0);
    OnesJoin(0xFF, 0xFF);
  }

  lemma OnesOfByte()
    ensures Ones(0x10) == 1 && Ones(0x21) == 2 && Ones(0x80) == 1 && Ones(0) == 0 && Ones(0xFF) == 8
  {
    assert Ones(1) == 1;
    assert Ones(0x10) == 1;
    assert Ones(0xF) == 4;
  }

  /** The ones of a two-byte word are those of its bytes. */
  lemma OnesJoin(hi: nat, lo: byte)
    ensures Ones(0x100 * hi + lo) == Ones(hi) + Ones(lo)
  {
    OnesJoinAt(hi, lo, 8);
    Powers();
  }

  lemma {:induction false} OnesJoinAt(hi: nat, lo: nat, k: nat)
    requires lo < Pow2(k)
    ensures Ones(Pow2(k) * hi + lo) == Ones(hi) + Ones(lo)
  {
    hide Ones;
    if k == 0 {
      OnesOfNone();
    } else {
      var p := Pow2(k - 1);
      OnesJoinAt(hi, lo / 2, k - 1);
      HalfOf(p, hi, lo);
      OnesStep(2 * p * hi + lo);
      OnesStep(lo);
    }
  }

  lemma {:induction false} BitStepsParity(x: nat, n: nat)
    requires x < WORD
    ensures Ones(BitSteps(x, n)) % 2 == Ones(x) % 2
    decreases n
  {
    hide BitStep, Ones;
    if n != 0 {
      BitStepParity(x);
      BitStepsParity(BitStep(x), n - 1);
    }
  }

  lemma {:induction false} CrcFromParity(crc: nat, data: seq<byte>)
    requires crc < WORD
    ensures Ones(CrcFrom(crc, data)) % 2 == (Ones(crc) + OnesIn(data)) % 2
    decreases |data|
  {
    hide BitSteps, Ones, Xor, Pow2;
    if data != [] {
      var b: nat := data[0];
      ShiftedBound(crc, data[0]);
      BitStepsParity(Xor(crc, b * 0x100), 8);
      OnesXor(crc, b * 0x100);
      Powers();
      OnesShift(b, 8);
      CrcFromParity(ByteStep(crc, data[0]), data[1..]);
    }
  }

  /** The CRC has as many one bits as the message, up to an even number. */
  lemma CrcParity(data: seq<byte>)
    ensures Crc(data) < WORD && Ones(Crc(data)) % 2 == OnesIn(data) % 2
  {
    hide CrcFrom, Ones;
    CrcFromConcat(0xFFFF, data, []);
    CrcFromParity(0xFFFF, data);
    OnesOfMasks();
  }

  lemma {:induction false} OnesInConcat(a: seq<byte>, b: seq<byte>)
    ensures OnesIn(a + b) == OnesIn(a) + OnesIn(b)
  {
    hide Ones;
    if a == [] {
      assert a + b == b;
    } else {
      assert (a + b)[1..] == a[1..] + b;
      OnesInConcat(a[1..], b);
    }
  }

  /** How many bits differ. */
  function Flips(a: seq<byte>, b: seq<byte>): nat
    requires |a| == |b|
  {
    if a == [] then 0 else Ones(Xor(a[0], b[0])) + Flips(a[1..], b[1..])
  }

  lemma {:induction false} FlipsParity(a: seq<byte>, b: seq<byte>)
    requires |a| == |b|
    ensures Flips(a, b) % 2 == (OnesIn(a) + OnesIn(b)) % 2
  {
    hide Ones, Xor;
    if a != [] {
      OnesXor(a[0], b[0]);
      FlipsParity(a[1..], b[1..]);
    }
  }
}
