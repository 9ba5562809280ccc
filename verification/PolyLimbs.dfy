/** The arithmetic of the C Poly1305: five 26-bit limbs in 32-bit words,
    64-bit products, delayed carries and a masked final subtraction.  Every C
    truncation is written with U32 or U64, and `>> k` as division by 2^k; the
    lemmas show that no truncation loses a bit and that the limbs compute the
    accumulator of PolySpec. */
module PolyLimbs {
  import opened Bits
  import opened Bytes
  import PolySpec

  const B: nat := 0x400_0000        // 2^26
  const LOW26: nat := 0x3ff_ffff

  /** Five words l0 + 2^26 l1 + 2^52 l2 + 2^78 l3 + 2^104 l4. */
  datatype Limbs = Limbs(l0: nat, l1: nat, l2: nat, l3: nat, l4: nat)

  datatype Wide = Wide(d0: nat, d1: nat, d2: nat, d3: nat, d4: nat)

  type Block = s: seq<byte> | |s| == 16 witness Zeros(16)

  function Number(x0: nat, x1: nat, x2: nat, x3: nat, x4: nat): nat {
    x0 + B * (x1 + B * (x2 + B * (x3 + B * x4)))
  }

  function Value(h: Limbs): nat { Number(h.l0, h.l1, h.l2, h.l3, h.l4) }

  /** What holds of the accumulator between blocks. */
  predicate Settled(h: Limbs) {
    h.l0 < B && h.l1 < B + 64 && h.l2 < B && h.l3 < B && h.l4 < B
  }

  /** What clamping leaves of the multiplier. */
  predicate Clamped(r: Limbs) {
    r.l0 <= LOW26 && r.l1 <= 0x3ffff03 && r.l2 <= 0x3ffc0ff && r.l3 <= 0x3f03fff && r.l4 <= 0xfffff
  }

  // ---------- loading the key and the message ----------

  function Word(b0: nat, b1: nat, b2: nat, b3: nat): nat {
    b0 + 0x100 * b1 + 0x1_0000 * b2 + 0x100_0000 * b3
  }

  /** Loads four bytes with shifts and ors. */
  function Le32(p: seq<byte>, i: nat): nat
    requires i + 4 <= |p|
  {
    Or(Or(Or(p[i], Shl(p[i + 1], 0x100)), Shl(p[i + 2], 0x1_0000)), Shl(p[i + 3], 0x100_0000))
  }

  /** `x << k` on a 32-bit word, given 2^k. */
  function Shl(x: nat, power: nat): nat { U32(x * power) }

  lemma Le32Word(p: seq<byte>, i: nat)
    requires i + 4 <= |p|
    ensures Le32(p, i) == Word(p[i], p[i + 1], p[i + 2], p[i + 3])
    ensures Le32(p, i) == LeNat(p[i..i + 4]) < 0x1_0000_0000
  {
    hide Or;
    OrShifted(p[i], p[i + 1], 8, 0x100);
    OrShifted(Word(p[i], p[i + 1], 0, 0), p[i + 2], 16, 0x1_0000);
    OrShifted(Word(p[i], p[i + 1], p[i + 2], 0), p[i + 3], 24, 0x100_0000);
    FourBytes(p[i..i + 4]);
  }

  lemma OrShifted(x: nat, y: byte, k: nat, p: nat)
    requires (k == 8 && p == 0x100) || (k == 16 && p == 0x1_0000) || (k == 24 && p == 0x100_0000)
    requires x < p
    ensures Or(x, Shl(y, p)) == x + y * p
  {
    hide Or, Pow2;
    Powers();
    OrDisjoint(x, y, k);
  }

  function LoadR(key: seq<byte>): Limbs
    requires |key| >= 16
  {
    Limbs(And(Le32(key, 0), 0x3ffffff),
          And(Le32(key, 3) / 0x4, 0x3ffff03),
          And(Le32(key, 6) / 0x10, 0x3ffc0ff),
          And(Le32(key, 9) / 0x40, 0x3f03fff),
          And(Le32(key, 12) / 0x100, 0x00fffff))
  }

  /** The message words of one block; `hibit` is 2^24 for a full block. */
  function LoadBlock(m: Block, hibit: nat): Limbs {
    Limbs(And(Le32(m, 0), LOW26),
          And(Le32(m, 3) / 0x4, LOW26),
          And(Le32(m, 6) / 0x10, LOW26),
          And(Le32(m, 9) / 0x40, LOW26),
          Or(Le32(m, 12) / 0x100, hibit))
  }

  lemma OrHibit(x: nat, hibit: nat)
    requires x < 0x100_0000 && (hibit == 0 || hibit == 0x100_0000)
    ensures Or(x, hibit) == x + hibit
  {
    Powers();
    OrDisjoint(x, hibit / 0x100_0000, 24);
  }

  /** The 26-bit digits of a 16-byte number, before any mask is applied. */
  function Digit0(m: Block): nat { Le32(m, 0) % B }
  function Digit1(m: Block): nat { Le32(m, 3) / 0x4 % B }
  function Digit2(m: Block): nat { Le32(m, 6) / 0x10 % B }
  function Digit3(m: Block): nat { Le32(m, 9) / 0x40 % B }
  function Digit4(m: Block): nat { Le32(m, 12) / 0x100 }

  lemma DigitsValue(m: Block)
    ensures LeNat(m) == Number(Digit0(m), Digit1(m), Digit2(m), Digit3(m), Digit4(m))
    ensures Digit0(m) < B && Digit1(m) < B && Digit2(m) < B && Digit3(m) < B
  {
    hide Le32, Word, LeNat, Number, Digit0, Digit1, Digit2, Digit3, Digit4;
    DigitsOfBytes(m);
    Words16(m);
    WordsAreDigits(m[0], m[1], m[2], m[3], m[4], m[5], m[6], m[7], m[8], m[9], m[10], m[11], m[12], m[13], m[14], m[15]);
  }

  lemma DigitsOfBytes(m: Block)
    ensures Digit0(m) == Word(m[0], m[1], m[2], m[3] % 4) < B
    ensures Digit1(m) == m[3] / 4 + 0x40 * Word(m[4], m[5], m[6] % 16, 0) < B
    ensures Digit2(m) == m[6] / 16 + 0x10 * Word(m[7], m[8], m[9] % 64, 0) < B
    ensures Digit3(m) == m[9] / 64 + 0x4 * Word(m[10], m[11], m[12], 0) < B
    ensures Digit4(m) == Word(m[13], m[14], m[15], 0)
  {
    hide Le32, Word;
    Le32Word(m, 0); Le32Word(m, 3); Le32Word(m, 6); Le32Word(m, 9); Le32Word(m, 12);
    WordDigit0(m[0], m[1], m[2], m[3]);
    WordDigit1(m[3], m[4], m[5], m[6]);
    WordDigit2(m[6], m[7], m[8], m[9]);
    WordDigit3(m[9], m[10], m[11], m[12]);
    WordDigit4(m[12], m[13], m[14], m[15]);
  }

  lemma WordsAreDigits(b0: byte, b1: byte, b2: byte, b3: byte, b4: byte, b5: byte, b6: byte, b7: byte,
                b8: byte, b9: byte, b10: byte, b11: byte, b12: byte, b13: byte, b14: byte, b15: byte)
    ensures Word(b0, b1, b2, b3) + 0x1_0000_0000 * (Word(b4, b5, b6, b7)
            + 0x1_0000_0000 * (Word(b8, b9, b10, b11) + 0x1_0000_0000 * Word(b12, b13, b14, b15)))
         == Number(Word(b0, b1, b2, b3 % 4), b3 / 4 + 0x40 * Word(b4, b5, b6 % 16, 0),
                   b6 / 16 + 0x10 * Word(b7, b8, b9 % 64, 0), b9 / 64 + 0x4 * Word(b10, b11, b12, 0),
                   Word(b13, b14, b15, 0))
  {
  }

  lemma WordDigit0(b0: byte, b1: byte, b2: byte, b3: byte)
    ensures Word(b0, b1, b2, b3) % B == Word(b0, b1, b2, b3 % 4)
  {
  }
  lemma WordDigit1(b0: byte, b1: byte, b2: byte, b3: byte)
    ensures Word(b0, b1, b2, b3) / 0x4 % B == b0 / 4 + 0x40 * Word(b1, b2, b3 % 16, 0)
  {
    var low := b0 / 4 + 0x40 * Word(b1, b2, b3 % 16, 0);
    DivModUnique(Word(b0, b1, b2, b3), 0x4, low + B * (b3 / 16), b0 % 4);
    DivModUnique(low + B * (b3 / 16), B, b3 / 16, low);
  }
  lemma WordDigit2(b0: byte, b1: byte, b2: byte, b3: byte)
    ensures Word(b0, b1, b2, b3) / 0x10 % B == b0 / 16 + 0x10 * Word(b1, b2, b3 % 64, 0)
  {
    var low := b0 / 16 + 0x10 * Word(b1, b2, b3 % 64, 0);
    DivModUnique(Word(b0, b1, b2, b3), 0x10, low + B * (b3 / 64), b0 % 16);
    DivModUnique(low + B * (b3 / 64), B, b3 / 64, low);
  }

  lemma WordDigit3(b0: byte, b1: byte, b2: byte, b3: byte)
    ensures Word(b0, b1, b2, b3) / 0x40 % B == b0 / 64 + 0x4 * Word(b1, b2, b3, 0)
  {
    var quotient := b0 / 64 + 0x4 * Word(b1, b2, b3, 0);
    DivModUnique(Word(b0, b1, b2, b3), 0x40, quotient, b0 % 64);
    DivModUnique(quotient, B, 0, quotient);
  }
  lemma WordDigit4(b0: byte, b1: byte, b2: byte, b3: byte)
    ensures Word(b0, b1, b2, b3) / 0x100 == Word(b1, b2, b3, 0)
  {
  }

  /** A 16-byte number is four 32-bit words. */
  lemma Words16(m: Block)
    ensures LeNat(m) == Word(m[0], m[1], m[2], m[3])
                        + 0x1_0000_0000 * (Word(m[4], m[5], m[6], m[7])
                        + 0x1_0000_0000 * (Word(m[8], m[9], m[10], m[11])
                        + 0x1_0000_0000 * Word(m[12], m[13], m[14], m[15])))
  {
    FourBytes(m); FourBytes(m[4..]); FourBytes(m[8..]); FourBytes(m[12..]);
    assert m[4..][4..] == m[8..] && m[8..][4..] == m[12..] && m[12..][4..] == [];
  }

  lemma FourBytes(s: seq<byte>)
    requires |s| >= 4
    ensures LeNat(s) == Word(s[0], s[1], s[2], s[3]) + 0x1_0000_0000 * LeNat(s[4..])
  {
    hide LeNat;
    FirstByte(s, 0);
    FirstByte(s, 1);
    FirstByte(s, 2);
    FirstByte(s, 3);
  }

  lemma FirstByte(s: seq<byte>, i: nat)
    requires i < |s|
    ensures LeNat(s[i..]) == s[i] + 0x100 * LeNat(s[i + 1..])
    ensures i == 0 ==> s[i..] == s
  {
    assert s[i..][1..] == s[i + 1..];
  }

  /** A loaded block denotes the chunk with its length marker. */
  lemma LoadBlockValue(m: Block, hibit: nat)
    requires hibit == 0 || hibit == 0x100_0000
    ensures Value(LoadBlock(m, hibit)) == LeNat(m) + hibit * (B * B * B * B)
    ensures var x := LoadBlock(m, hibit); x.l0 < B && x.l1 < B && x.l2 < B && x.l3 < B && x.l4 < B
  {
    hide Or, And, Pow2, LeNat, Le32;
    Powers();
    AndLowMask(Le32(m, 0), 26);
    AndLowMask(Le32(m, 3) / 0x4, 26);
    AndLowMask(Le32(m, 6) / 0x10, 26);
    AndLowMask(Le32(m, 9) / 0x40, 26);
    Le32Word(m, 12);
    OrHibit(Le32(m, 12) / 0x100, hibit);
    DigitsValue(m);
  }

  /** Masking the five pieces is clamping the whole number. */
  lemma LoadRValue(key: seq<byte>)
    requires |key| >= 16
    ensures Clamped(LoadR(key))
    ensures Value(LoadR(key)) == And(LeNat(key[..16]), PolySpec.CLAMP)
  {
    LoadRBounds(key);
    LoadRPrefix(key);
    LoadRBlock(key[..16]);
  }

  lemma LoadRPrefix(key: seq<byte>)
    requires |key| >= 16
    ensures LoadR(key) == LoadR(key[..16])
  {
    hide Or, And;
    var m := key[..16];
    assert forall i | 0 <= i < 16 :: m[i] == key[i];
  }

  lemma LoadRBlock(m: Block)
    ensures Value(LoadR(m)) == And(LeNat(m), PolySpec.CLAMP)
  {
    hide And, Le32, LeNat, LoadR, Number, Digit0, Digit1, Digit2, Digit3;
    LoadRDigits(m);
    DigitsValue(m);
    MaskNumber(Digit0(m), Digit1(m), Digit2(m), Digit3(m), Digit4(m));
  }

  lemma LoadRDigits(m: Block)
    ensures LoadR(m) == Limbs(And(Digit0(m), 0x3ffffff), And(Digit1(m), 0x3ffff03), And(Digit2(m), 0x3ffc0ff),
                              And(Digit3(m), 0x3f03fff), And(Digit4(m), 0x00fffff))
  {
    hide And, Le32;
    MaskDigit(Le32(m, 0), 0x3ffffff);
    MaskDigit(Le32(m, 3) / 0x4, 0x3ffff03);
    MaskDigit(Le32(m, 6) / 0x10, 0x3ffc0ff);
    MaskDigit(Le32(m, 9) / 0x40, 0x3f03fff);
  }

  lemma LoadRBounds(key: seq<byte>)
    requires |key| >= 16
    ensures Clamped(LoadR(key))
  {
    AndBound(Le32(key, 0), 0x3ffffff);
    AndBound(Le32(key, 3) / 0x4, 0x3ffff03);
    AndBound(Le32(key, 6) / 0x10, 0x3ffc0ff);
    AndBound(Le32(key, 9) / 0x40, 0x3f03fff);
    AndBound(Le32(key, 12) / 0x100, 0x00fffff);
  }

  lemma MaskNumber(x0: nat, x1: nat, x2: nat, x3: nat, x4: nat)
    requires x0 < B && x1 < B && x2 < B && x3 < B
    ensures And(Number(x0, x1, x2, x3, x4), PolySpec.CLAMP)
            == Number(And(x0, 0x3ffffff), And(x1, 0x3ffff03), And(x2, 0x3ffc0ff), And(x3, 0x3f03fff), And(x4, 0x00fffff))
  {
    hide And;
    var m3 := 0x3f03fff + B * 0x00fffff;
    var m2 := 0x3ffc0ff + B * m3;
    var m1 := 0x3ffff03 + B * m2;
    assert 0x3ffffff + B * m1 == PolySpec.CLAMP;
    MaskJoin(x3, x4, 0x3f03fff, 0x00fffff);
    MaskJoin(x2, x3 + B * x4, 0x3ffc0ff, m3);
    MaskJoin(x1, x2 + B * (x3 + B * x4), 0x3ffff03, m2);
    MaskJoin(x0, x1 + B * (x2 + B * (x3 + B * x4)), 0x3ffffff, m1);
  }

  /** A 26-bit mask sees only the low 26 bits. */
  lemma MaskDigit(x: nat, mask: nat)
    requires mask < B
    ensures And(x, mask) == And(x % B, mask)
  {
    Powers();
    AndSplit(x / B, x % B, 0, mask, 26);
  }

  lemma MaskJoin(low: nat, high: nat, lowMask: nat, highMask: nat)
    requires low < B && lowMask < B
    ensures And(low + B * high, lowMask + B * highMask) == And(low, lowMask) + B * And(high, highMask)
  {
    Powers();
    AndSplit(high, low, highMask, lowMask, 26);
  }

  // ---------- one block: add, multiply, carry ----------

  /** `x & 0x3ffffff` */
  function Low26(x: nat): (y: nat)
    ensures y == x % B
  {
    Powers();
    AndLowMask(x, 26);
    And(x, LOW26)
  }

  function Add(h: Limbs, m: Limbs): Limbs {
    Limbs(U32(h.l0 + m.l0), U32(h.l1 + m.l1), U32(h.l2 + m.l2), U32(h.l3 + m.l3), U32(h.l4 + m.l4))
  }

  /** `(uint64_t)x * y` for two 32-bit words. */
  function Mul(x: nat, y: nat): nat { x * y }

  /** The schoolbook product; limbs at 2^130 and above come back times 5. */
  function Products(h: Limbs, r: Limbs): Wide {
    var s1, s2, s3, s4 := U32(r.l1 * 5), U32(r.l2 * 5), U32(r.l3 * 5), U32(r.l4 * 5);
    Wide(
      U64(Mul(h.l0, r.l0) + Mul(h.l1, s4) + Mul(h.l2, s3) + Mul(h.l3, s2) + Mul(h.l4, s1)),
      U64(Mul(h.l0, r.l1) + Mul(h.l1, r.l0) + Mul(h.l2, s4) + Mul(h.l3, s3) + Mul(h.l4, s2)),
      U64(Mul(h.l0, r.l2) + Mul(h.l1, r.l1) + Mul(h.l2, r.l0) + Mul(h.l3, s4) + Mul(h.l4, s3)),
      U64(Mul(h.l0, r.l3) + Mul(h.l1, r.l2) + Mul(h.l2, r.l1) + Mul(h.l3, r.l0) + Mul(h.l4, s4)),
      U64(Mul(h.l0, r.l4) + Mul(h.l1, r.l3) + Mul(h.l2, r.l2) + Mul(h.l3, r.l1) + Mul(h.l4, r.l0)))
  }

  /** `(uint32_t)(d >> 26)` */
  function High(d: nat): nat { U32(d / B) }

  /** `(uint32_t)d & 0x3ffffff` */
  function Low(d: nat): nat { Low26(U32(d)) }

  function Carry(d: Wide): Limbs {
    var c0 := High(d.d0);
    var d1 := U64(d.d1 + c0);
    var c1 := High(d1);
    var d2 := U64(d.d2 + c1);
    var c2 := High(d2);
    var d3 := U64(d.d3 + c2);
    var c3 := High(d3);
    var d4 := U64(d.d4 + c3);
    var h0 := U32(Low(d.d0) + U32(High(d4) * 5));
    Limbs(Low26(h0), U32(Low(d1) + h0 / B), Low(d2), Low(d3), Low(d4))
  }

  /** The body of the block loop. */
  function Step(h: Limbs, r: Limbs, m: Block, hibit: nat): Limbs {
    Carry(Products(Add(h, LoadBlock(m, hibit)), r))
  }

  /** The largest product of two limbs, (2 * 2^26 + 64) * 2^26. */
  const M: nat := 0x20_0001_0000_0000

  /** What holds of the accumulator after a message block is added to it. */
  predicate Loaded(h: Limbs) {
    h.l0 < 2 * B && h.l1 < 2 * B + 64 && h.l2 < 2 * B && h.l3 < 2 * B && h.l4 < 2 * B
  }

  /** Column sums that the carry chain can take without losing a bit. */
  predicate Carriable(d: Wide) {
    d.d0 <= 21 * M && d.d1 <= 17 * M && d.d2 <= 13 * M && d.d3 <= 9 * M && d.d4 <= 5 * M
  }

  /** One link of the carry chain keeps every bit of its column. */
  lemma CarryLink(d: nat, carry: nat) returns (hi: nat, lo: nat)
    requires d <= 21 * M && carry < 0x1_0000_0000
    ensures U64(d + carry) == d + carry == B * hi + lo
    ensures High(d + carry) == hi < 0x1_0000_0000
    ensures Low(d + carry) == lo < B
    ensures d <= 5 * M ==> U32(hi * 5) == hi * 5 < 51 * B
  {
    hide Low26;
    assert 0x1_0000_0000 == B * 64;
    hi, lo := (d + carry) / B, (d + carry) % B;
  }

  /** The last carry, times 5, fits the low word; what it carries is below 64. */
  lemma FoldCarry(low: nat, next: nat, fold: nat) returns (hi: nat, lo: nat)
    requires low < B && next < B && fold < 51 * B
    ensures U32(low + fold) == low + fold == B * hi + lo
    ensures (low + fold) / B == hi < 64 && Low26(low + fold) == lo < B
    ensures U32(next + hi) == next + hi
  {
    hide Low26;
    hi, lo := (low + fold) / B, (low + fold) % B;
  }

  /** No truncation in the carry chain loses a bit. */
  lemma CarryExact(d: Wide, hi: Wide, lo: Wide, f: nat, g: nat)
    requires U64(d.d1 + hi.d0) == d.d1 + hi.d0 && U64(d.d2 + hi.d1) == d.d2 + hi.d1
    requires U64(d.d3 + hi.d2) == d.d3 + hi.d2 && U64(d.d4 + hi.d3) == d.d4 + hi.d3
    requires hi == Wide(High(d.d0), High(d.d1 + hi.d0), High(d.d2 + hi.d1), High(d.d3 + hi.d2), High(d.d4 + hi.d3))
    requires lo == Wide(Low(d.d0), Low(d.d1 + hi.d0), Low(d.d2 + hi.d1), Low(d.d3 + hi.d2), Low(d.d4 + hi.d3))
    requires U32(hi.d4 * 5) == hi.d4 * 5 && U32(lo.d0 + hi.d4 * 5) == lo.d0 + hi.d4 * 5
    requires (lo.d0 + hi.d4 * 5) / B == f && Low26(lo.d0 + hi.d4 * 5) == g && U32(lo.d1 + f) == lo.d1 + f
    ensures Carry(d) == Limbs(g, lo.d1 + f, lo.d2, lo.d3, lo.d4)
  {
    hide Low26, High, Low, U32, U64;
  }

  /** The carry chain settles the limbs and only drops multiples of 2^130 - 5. */
  lemma CarryCorrect(d: Wide) returns (q: nat)
    requires Carriable(d)
    ensures Settled(Carry(d))
    ensures Number(d.d0, d.d1, d.d2, d.d3, d.d4) == Value(Carry(d)) + PolySpec.P * q
  {
    hide Low26, High, Low, U32, U64, Number, Carry, Carriable;
    var hi, lo := CarryLinks(d);
    var f, g := FoldCarry(lo.d0, lo.d1, hi.d4 * 5);
    CarryExact(d, hi, lo, f, g);
    Chain(d, hi.d0, lo.d0, hi.d1, lo.d1, hi.d2, lo.d2, hi.d3, lo.d3, hi.d4, lo.d4, f, g);
    q := hi.d4;
  }

  lemma CarryLinks(d: Wide) returns (hi: Wide, lo: Wide)
    requires Carriable(d)
    ensures U64(d.d1 + hi.d0) == d.d1 + hi.d0 && U64(d.d2 + hi.d1) == d.d2 + hi.d1
    ensures U64(d.d3 + hi.d2) == d.d3 + hi.d2 && U64(d.d4 + hi.d3) == d.d4 + hi.d3
    ensures hi == Wide(High(d.d0), High(d.d1 + hi.d0), High(d.d2 + hi.d1), High(d.d3 + hi.d2), High(d.d4 + hi.d3))
    ensures lo == Wide(Low(d.d0), Low(d.d1 + hi.d0), Low(d.d2 + hi.d1), Low(d.d3 + hi.d2), Low(d.d4 + hi.d3))
    ensures d.d0 == B * hi.d0 + lo.d0 && d.d1 + hi.d0 == B * hi.d1 + lo.d1 && d.d2 + hi.d1 == B * hi.d2 + lo.d2
    ensures d.d3 + hi.d2 == B * hi.d3 + lo.d3 && d.d4 + hi.d3 == B * hi.d4 + lo.d4
    ensures lo.d0 < B && lo.d1 < B && lo.d2 < B && lo.d3 < B && lo.d4 < B
    ensures U32(hi.d4 * 5) == hi.d4 * 5 < 51 * B
  {
    hide Low26, High, Low, U32, U64;
    var c0, r0 := CarryLink(d.d0, 0);
    var c1, r1 := CarryLink(d.d1, c0);
    var c2, r2 := CarryLink(d.d2, c1);
    var c3, r3 := CarryLink(d.d3, c2);
    var c4, r4 := CarryLink(d.d4, c3);
    hi, lo := Wide(c0, c1, c2, c3, c4), Wide(r0, r1, r2, r3, r4);
  }

  lemma Chain(d: Wide, c0: nat, r0: nat, c1: nat, r1: nat, c2: nat, r2: nat, c3: nat, r3: nat, c4: nat, r4: nat,
              f: nat, g: nat)
    requires d.d0 == B * c0 + r0 && d.d1 + c0 == B * c1 + r1 && d.d2 + c1 == B * c2 + r2
    requires d.d3 + c2 == B * c3 + r3 && d.d4 + c3 == B * c4 + r4 && r0 + c4 * 5 == B * f + g
    ensures Number(d.d0, d.d1, d.d2, d.d3, d.d4) == Number(g, r1 + f, r2, r3, r4) + PolySpec.P * c4
  {
  }

  // ---------- the product ----------

  lemma NumberTimes(x: nat, y0: nat, y1: nat, y2: nat, y3: nat, y4: nat)
    ensures Mul(x, Number(y0, y1, y2, y3, y4)) == Number(Mul(x, y0), Mul(x, y1), Mul(x, y2), Mul(x, y3), Mul(x, y4))
  {
    hide Mul;
    Distribute(x, y3, y4);
    Distribute(x, y2, y3 + B * y4);
    Distribute(x, y1, y2 + B * (y3 + B * y4));
    Distribute(x, y0, y1 + B * (y2 + B * (y3 + B * y4)));
  }

  lemma TimesNumber(y0: nat, y1: nat, y2: nat, y3: nat, y4: nat, x: nat)
    ensures Mul(Number(y0, y1, y2, y3, y4), x) == Number(Mul(y0, x), Mul(y1, x), Mul(y2, x), Mul(y3, x), Mul(y4, x))
  {
    hide Number, Mul;
    NumberTimes(x, y0, y1, y2, y3, y4);
    MulCommutes(x, Number(y0, y1, y2, y3, y4));
    MulCommutes(x, y0); MulCommutes(x, y1); MulCommutes(x, y2); MulCommutes(x, y3); MulCommutes(x, y4);
  }

  lemma MulCommutes(x: nat, y: nat)
    ensures Mul(x, y) == Mul(y, x)
  {
  }

  lemma Distribute(x: nat, low: nat, high: nat)
    ensures Mul(x, low + B * high) == Mul(x, low) + B * Mul(x, high)
  {
    assert x * (B * high) == B * (x * high);
  }

  /** The 25 limb products, arranged by column, are the product of the numbers. */
  lemma ColumnsAreProduct(h: Limbs, r: Limbs)
    ensures Mul(Value(h), Value(r)) ==
            Number(Mul(h.l0, r.l0), Mul(h.l0, r.l1) + Mul(h.l1, r.l0),
                   Mul(h.l0, r.l2) + Mul(h.l1, r.l1) + Mul(h.l2, r.l0),
                   Mul(h.l0, r.l3) + Mul(h.l1, r.l2) + Mul(h.l2, r.l1) + Mul(h.l3, r.l0),
                   Mul(h.l0, r.l4) + Mul(h.l1, r.l3) + Mul(h.l2, r.l2) + Mul(h.l3, r.l1) + Mul(h.l4, r.l0))
            + (PolySpec.P + 5) * Number(Mul(h.l1, r.l4) + Mul(h.l2, r.l3) + Mul(h.l3, r.l2) + Mul(h.l4, r.l1),
                                        Mul(h.l2, r.l4) + Mul(h.l3, r.l3) + Mul(h.l4, r.l2),
                                        Mul(h.l3, r.l4) + Mul(h.l4, r.l3), Mul(h.l4, r.l4), 0)
  {
    hide Number, Mul;
    TimesNumber(h.l0, h.l1, h.l2, h.l3, h.l4, Value(r));
    NumberTimes(h.l0, r.l0, r.l1, r.l2, r.l3, r.l4);
    NumberTimes(h.l1, r.l0, r.l1, r.l2, r.l3, r.l4);
    NumberTimes(h.l2, r.l0, r.l1, r.l2, r.l3, r.l4);
    NumberTimes(h.l3, r.l0, r.l1, r.l2, r.l3, r.l4);
    NumberTimes(h.l4, r.l0, r.l1, r.l2, r.l3, r.l4);
    Columns(Mul(h.l0, r.l0), Mul(h.l0, r.l1), Mul(h.l0, r.l2), Mul(h.l0, r.l3), Mul(h.l0, r.l4),
            Mul(h.l1, r.l0), Mul(h.l1, r.l1), Mul(h.l1, r.l2), Mul(h.l1, r.l3), Mul(h.l1, r.l4),
            Mul(h.l2, r.l0), Mul(h.l2, r.l1), Mul(h.l2, r.l2), Mul(h.l2, r.l3), Mul(h.l2, r.l4),
            Mul(h.l3, r.l0), Mul(h.l3, r.l1), Mul(h.l3, r.l2), Mul(h.l3, r.l3), Mul(h.l3, r.l4),
            Mul(h.l4, r.l0), Mul(h.l4, r.l1), Mul(h.l4, r.l2), Mul(h.l4, r.l3), Mul(h.l4, r.l4));
  }

  lemma Columns(p00: nat, p01: nat, p02: nat, p03: nat, p04: nat,
                p10: nat, p11: nat, p12: nat, p13: nat, p14: nat,
                p20: nat, p21: nat, p22: nat, p23: nat, p24: nat,
                p30: nat, p31: nat, p32: nat, p33: nat, p34: nat,
                p40: nat, p41: nat, p42: nat, p43: nat, p44: nat)
    ensures Number(Number(p00, p01, p02, p03, p04), Number(p10, p11, p12, p13, p14), Number(p20, p21, p22, p23, p24),
                   Number(p30, p31, p32, p33, p34), Number(p40, p41, p42, p43, p44))
         == Number(p00, p01 + p10, p02 + p11 + p20, p03 + p12 + p21 + p30, p04 + p13 + p22 + p31 + p40)
            + (PolySpec.P + 5) * Number(p14 + p23 + p32 + p41, p24 + p33 + p42, p34 + p43, p44, 0)
  {
  }

  lemma MulBound(x: nat, y: nat)
    requires x < 2 * B + 64 && y <= B
    ensures Mul(x, y) <= M
    ensures y <= LOW26 ==> U32(y * 5) == y * 5 && Mul(x, U32(y * 5)) == 5 * Mul(x, y)
  {
    MulMonotone(x, 2 * B + 64, y);
    MulMonotone(y, B, 2 * B + 64);
    assert x * (y * 5) == 5 * (x * y);
  }

  /** No column sum overflows 64 bits, and each is the exact sum with the high
      limb products folded in five times. */
  lemma ProductsExact(h: Limbs, r: Limbs)
    requires Loaded(h) && Clamped(r)
    ensures Carriable(Products(h, r))
    ensures Products(h, r) == Wide(
      Mul(h.l0, r.l0) + 5 * (Mul(h.l1, r.l4) + Mul(h.l2, r.l3) + Mul(h.l3, r.l2) + Mul(h.l4, r.l1)),
      Mul(h.l0, r.l1) + Mul(h.l1, r.l0) + 5 * (Mul(h.l2, r.l4) + Mul(h.l3, r.l3) + Mul(h.l4, r.l2)),
      Mul(h.l0, r.l2) + Mul(h.l1, r.l1) + Mul(h.l2, r.l0) + 5 * (Mul(h.l3, r.l4) + Mul(h.l4, r.l3)),
      Mul(h.l0, r.l3) + Mul(h.l1, r.l2) + Mul(h.l2, r.l1) + Mul(h.l3, r.l0) + 5 * Mul(h.l4, r.l4),
      Mul(h.l0, r.l4) + Mul(h.l1, r.l3) + Mul(h.l2, r.l2) + Mul(h.l3, r.l1) + Mul(h.l4, r.l0))
  {
    hide Mul, U32, U64;
    MulBound(h.l0, r.l0); MulBound(h.l1, r.l0); MulBound(h.l2, r.l0); MulBound(h.l3, r.l0); MulBound(h.l4, r.l0);
    MulBound(h.l0, r.l1); MulBound(h.l1, r.l1); MulBound(h.l2, r.l1); MulBound(h.l3, r.l1); MulBound(h.l4, r.l1);
    MulBound(h.l0, r.l2); MulBound(h.l1, r.l2); MulBound(h.l2, r.l2); MulBound(h.l3, r.l2); MulBound(h.l4, r.l2);
    MulBound(h.l0, r.l3); MulBound(h.l1, r.l3); MulBound(h.l2, r.l3); MulBound(h.l3, r.l3); MulBound(h.l4, r.l3);
    MulBound(h.l0, r.l4); MulBound(h.l1, r.l4); MulBound(h.l2, r.l4); MulBound(h.l3, r.l4); MulBound(h.l4, r.l4);
    Fits64();
  }

  lemma Fits64()
    ensures forall x :: 0 <= x <= 21 * M ==> U64(x) == x
  {
  }

  /** The column sums denote the product, modulo 2^130 - 5. */
  lemma ProductsValue(h: Limbs, r: Limbs) returns (q: nat)
    requires Loaded(h) && Clamped(r)
    ensures var d := Products(h, r);
            Mul(Value(h), Value(r)) == Number(d.d0, d.d1, d.d2, d.d3, d.d4) + PolySpec.P * q
  {
    hide Mul, Products;
    ProductsExact(h, r);
    ColumnsAreProduct(h, r);
    q := Number(Mul(h.l1, r.l4) + Mul(h.l2, r.l3) + Mul(h.l3, r.l2) + Mul(h.l4, r.l1),
                Mul(h.l2, r.l4) + Mul(h.l3, r.l3) + Mul(h.l4, r.l2),
                Mul(h.l3, r.l4) + Mul(h.l4, r.l3), Mul(h.l4, r.l4), 0);
  }

  /** One block: the limbs stay settled and multiply the accumulator, with the
      block and its length marker added, by the clamped key modulo 2^130 - 5. */
  lemma StepCorrect(h: Limbs, r: Limbs, m: Block, hibit: nat)
    requires Settled(h) && Clamped(r) && (hibit == 0 || hibit == 0x100_0000)
    ensures Settled(Step(h, r, m, hibit))
    ensures Value(Step(h, r, m, hibit)) % PolySpec.P
         == Mul(Value(h) + LeNat(m) + hibit * (B * B * B * B), Value(r)) % PolySpec.P
  {
    hide Mul, Products, Carry, LoadBlock, LeNat;
    var x := LoadBlock(m, hibit);
    LoadBlockValue(m, hibit);
    var sum := Add(h, x);
    AddExact(h, x);
    var q1 := ProductsValue(sum, r);
    ProductsExact(sum, r);
    var q2 := CarryCorrect(Products(sum, r));
    SameResidue(Mul(Value(sum), Value(r)), Value(Step(h, r, m, hibit)), q1 + q2);
  }

  lemma AddExact(h: Limbs, x: Limbs)
    requires Settled(h) && x.l0 < B && x.l1 < B && x.l2 < B && x.l3 < B && x.l4 < B
    ensures Loaded(Add(h, x)) && Value(Add(h, x)) == Value(h) + Value(x)
  {
    hide U32;
    AddWord(h.l0, x.l0); AddWord(h.l1, x.l1); AddWord(h.l2, x.l2); AddWord(h.l3, x.l3); AddWord(h.l4, x.l4);
  }

  lemma AddWord(x: nat, y: nat)
    requires x < B + 64 && y < B
    ensures U32(x + y) == x + y
  {
  }

  lemma SameResidue(x: nat, y: nat, q: nat)
    requires x == y + PolySpec.P * q
    ensures x % PolySpec.P == y % PolySpec.P
  {
  }
}
