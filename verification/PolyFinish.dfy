/** The end of the C Poly1305: the last carry, the masked subtraction of
    2^130 - 5, packing five limbs into four words, and adding the pad. */
module PolyFinish {
  import opened Bits
  import opened Bytes
  import opened PolyLimbs
  import PolySpec

  predicate Canonical(h: Limbs) {
    h.l0 < B && h.l1 < B && h.l2 < B && h.l3 < B && h.l4 < B
  }

  function FinalCarry(h: Limbs): Limbs {
    var h2 := U32(h.l2 + h.l1 / B);
    var h3 := U32(h.l3 + h2 / B);
    var h4 := U32(h.l4 + h3 / B);
    var h0 := U32(h.l0 + U32(h4 / B * 5));
    Limbs(Low26(h0), U32(Low26(h.l1) + h0 / B), Low26(h2), Low26(h3), Low26(h4))
  }

  lemma SmallLink(x: nat, carry: nat) returns (hi: nat, lo: nat)
    requires x < B + 64 && carry <= 5
    ensures U32(x + carry) == x + carry == B * hi + lo
    ensures (x + carry) / B == hi <= 1 && Low26(x + carry) == lo < B
  {
    hide Low26;
    hi, lo := (x + carry) / B, (x + carry) % B;
  }

  /** After the final carry even the second limb is below 2^26. */
  lemma FinalCarryCorrect(h: Limbs)
    requires Settled(h)
    ensures Canonical(FinalCarry(h))
    ensures Value(FinalCarry(h)) % PolySpec.P == Value(h) % PolySpec.P
  {
    hide Low26, Number, U32;
    var c1, r1 := SmallLink(h.l1, 0);
    var c2, r2 := SmallLink(h.l2, c1);
    var c3, r3 := SmallLink(h.l3, c2);
    var c4, r4 := SmallLink(h.l4, c3);
    assert U32(c4 * 5) == c4 * 5 by { SmallLink5(c4); }
    var f, g := SmallLink(h.l0, c4 * 5);
    var f', g' := SmallLink(r1, f);
    assert FinalCarry(h) == Limbs(g, r1 + f, r2, r3, r4);
    FinalChain(h, c1, r1, c2, r2, c3, r3, c4, r4, f, g);
    SameResidue(Value(h), Value(FinalCarry(h)), c4);
  }

  lemma SmallLink5(c: nat)
    requires c <= 1
    ensures U32(c * 5) == c * 5
  {
  }

  lemma FinalChain(h: Limbs, c1: nat, r1: nat, c2: nat, r2: nat, c3: nat, r3: nat, c4: nat, r4: nat, f: nat, g: nat)
    requires h.l1 == B * c1 + r1 && h.l2 + c1 == B * c2 + r2 && h.l3 + c2 == B * c3 + r3
    requires h.l4 + c3 == B * c4 + r4 && h.l0 + c4 * 5 == B * f + g
    ensures Value(h) == Number(g, r1 + f, r2, r3, r4) + PolySpec.P * c4
  {
  }

  // ---------- the conditional subtraction ----------

  /** `(h & ~mask) | (g & mask)` */
  function Choose(h: nat, g: nat, mask: nat): nat
    requires mask <= ONES
  {
    Or(And(h, ONES - mask), And(g, mask))
  }

  lemma ChooseIs(h: nat, g: nat)
    requires h <= ONES && g <= ONES
    ensures Choose(h, g, 0) == h && Choose(h, g, ONES) == g
  {
    hide And, Or, Pow2;
    Powers();
    AndLowMask(h, 32);
    AndLowMask(g, 32);
    AndZero(h); AndZero(g);
    OrIdentity(h); OrIdentity(g);
  }

  /** h + 5 - 2^130 in limbs; the top limb wraps when the result is negative. */
  function Subtracted(h: Limbs): Limbs {
    var g0 := U32(h.l0 + 5);
    var g1 := U32(h.l1 + g0 / B);
    var g2 := U32(h.l2 + g1 / B);
    var g3 := U32(h.l3 + g2 / B);
    Limbs(Low26(g0), Low26(g1), Low26(g2), Low26(g3), U32(h.l4 + g3 / B + (TWO_32 - B)))
  }

  function Reduce(h: Limbs): Limbs {
    var g := Subtracted(h);
    var mask := U32(g.l4 / 0x8000_0000 + ONES);
    Limbs(Choose(h.l0, g.l0, mask), Choose(h.l1, g.l1, mask), Choose(h.l2, g.l2, mask),
          Choose(h.l3, g.l3, mask), Choose(h.l4, g.l4, mask))
  }

  lemma SubtractedCorrect(h: Limbs)
    requires Canonical(h)
    ensures var g := Subtracted(h);
            if Value(h) >= PolySpec.P then Canonical(g) && Value(g) == Value(h) - PolySpec.P
            else 0x8000_0000 <= g.l4 <= ONES && g.l0 < B && g.l1 < B && g.l2 < B && g.l3 < B
  {
    hide Low26, Number, U32;
    var c0, r0 := SmallLink(h.l0, 5);
    var c1, r1 := SmallLink(h.l1, c0);
    var c2, r2 := SmallLink(h.l2, c1);
    var c3, r3 := SmallLink(h.l3, c2);
    assert Subtracted(h) == Limbs(r0, r1, r2, r3, U32(h.l4 + c3 + (TWO_32 - B)));
    SubtractChain(h, c0, r0, c1, r1, c2, r2, c3, r3);
    TopLimb(h.l4 + c3);
  }

  lemma TopLimb(x: nat)
    requires x <= B
    ensures U32(x + (TWO_32 - B)) == if x == B then 0 else x + (TWO_32 - B)
  {
  }

  lemma SubtractChain(h: Limbs, c0: nat, r0: nat, c1: nat, r1: nat, c2: nat, r2: nat, c3: nat, r3: nat)
    requires Canonical(h) && c3 <= 1
    requires h.l0 + 5 == B * c0 + r0 && h.l1 + c0 == B * c1 + r1 && h.l2 + c1 == B * c2 + r2
    requires h.l3 + c2 == B * c3 + r3 && r0 < B && r1 < B && r2 < B && r3 < B
    ensures Value(h) >= PolySpec.P <==> h.l4 + c3 == B
    ensures h.l4 + c3 == B ==> Number(r0, r1, r2, r3, 0) == Value(h) - PolySpec.P
  {
  }

  /** The selected limbs are the accumulator's least residue. */
  lemma ReduceCorrect(h: Limbs)
    requires Canonical(h)
    ensures Canonical(Reduce(h)) && Value(Reduce(h)) == Value(h) % PolySpec.P
  {
    hide Choose, Subtracted, Number;
    var g := Subtracted(h);
    SubtractedCorrect(h);
    ChooseIs(h.l0, g.l0); ChooseIs(h.l1, g.l1); ChooseIs(h.l2, g.l2); ChooseIs(h.l3, g.l3); ChooseIs(h.l4, g.l4);
    CanonicalBound(h);
    assert Reduce(h) == if Value(h) >= PolySpec.P then g else h;
  }

  lemma CanonicalBound(h: Limbs)
    requires Canonical(h)
    ensures Value(h) < 2 * PolySpec.P
  {
  }

  // ---------- packing and the pad ----------

  datatype Words = Words(w0: nat, w1: nat, w2: nat, w3: nat)

  function WordsValue(w: Words): nat {
    w.w0 + TWO_32 * (w.w1 + TWO_32 * (w.w2 + TWO_32 * w.w3))
  }

  function Pack(h: Limbs): Words {
    Words(U32(Or(h.l0, Shl(h.l1, 0x400_0000))), U32(Or(h.l1 / 0x40, Shl(h.l2, 0x10_0000))),
          U32(Or(h.l2 / 0x1000, Shl(h.l3, 0x4000))), U32(Or(h.l3 / 0x4_0000, Shl(h.l4, 0x100))))
  }

  /** The ORs join disjoint bits: packing is exact modulo 2^128. */
  lemma PackCorrect(h: Limbs)
    requires Canonical(h)
    ensures var w := Pack(h); w.w0 < TWO_32 && w.w1 < TWO_32 && w.w2 < TWO_32 && w.w3 < TWO_32
    ensures WordsValue(Pack(h)) == Value(h) % PolySpec.TWO_128
  {
    hide Or, Shl, U32, Pow2, WordsValue, Number;
    Powers();
    PackWord(h.l0, h.l1, 26, 0x400_0000, 0x40);
    PackWord(h.l1 / 0x40, h.l2, 20, 0x10_0000, 0x1000);
    PackWord(h.l2 / 0x1000, h.l3, 14, 0x4000, 0x4_0000);
    PackWord(h.l3 / 0x4_0000, h.l4, 8, 0x100, 0x100_0000);
    PackSum(h.l0, h.l1 / 0x40, h.l1 % 0x40, h.l2 / 0x1000, h.l2 % 0x1000, h.l3 / 0x4_0000, h.l3 % 0x4_0000,
            h.l4 / 0x100_0000, h.l4 % 0x100_0000);
  }

  lemma PackWord(low: nat, high: nat, k: nat, power: nat, rest: nat)
    requires power == Pow2(k) && power * rest == TWO_32 && rest > 0
    requires low < power
    ensures U32(Or(low, Shl(high, power))) == low + power * (high % rest)
  {
    hide Or, Pow2, Shl;
    ShiftDrops(high, power, rest);
    JoinWord(low, high % rest, k, power);
  }

  lemma JoinWord(low: nat, y: nat, k: nat, power: nat)
    requires power == Pow2(k) && low < power && 0 <= y * power <= TWO_32 - power
    ensures U32(Or(low, y * power)) == low + power * y
  {
    hide Or, Pow2, U32;
    OrDisjoint(low, y, k);
    FitsWord(low + y * power);
  }

  lemma FitsWord(x: nat)
    requires x < TWO_32
    ensures U32(x) == x
  {
  }

  /** A left shift keeps the low bits of its operand. */
  lemma ShiftDrops(x: nat, power: nat, rest: nat)
    requires power * rest == TWO_32 && rest > 0
    ensures Shl(x, power) == (x % rest) * power <= TWO_32 - power
  {
    var q, kept := x / rest, x % rest;
    ExpandProduct(power, rest, q, kept);
    MulMonotone(kept, rest - 1, power);
    MulMonotone(0, kept, power);
    ExpandProduct(power, rest, 1, -1);
    DivModUnique(x * power, TWO_32, q, kept * power);
  }

  lemma ExpandProduct(power: nat, rest: nat, q: nat, kept: int)
    ensures (rest * q + kept) * power == (power * rest) * q + kept * power
  {
  }

  lemma PackSum(l0: nat, a1: nat, b1: nat, a2: nat, b2: nat, a3: nat, b3: nat, a4: nat, b4: nat)
    requires l0 < B && a1 < 0x10_0000 && b1 < 0x40 && a2 < 0x4000 && b2 < 0x1000 && a3 < 0x100 && b3 < 0x4_0000
    requires a4 < 4 && b4 < 0x100_0000
    ensures WordsValue(Words(l0 + 0x400_0000 * b1, a1 + 0x10_0000 * b2, a2 + 0x4000 * b3, a3 + 0x100 * b4))
         == Number(l0, 0x40 * a1 + b1, 0x1000 * a2 + b2, 0x4_0000 * a3 + b3, 0x100_0000 * a4 + b4) % PolySpec.TWO_128
  {
    DivModUnique(Number(l0, 0x40 * a1 + b1, 0x1000 * a2 + b2, 0x4_0000 * a3 + b3, 0x100_0000 * a4 + b4),
                 PolySpec.TWO_128, a4,
                 WordsValue(Words(l0 + 0x400_0000 * b1, a1 + 0x10_0000 * b2, a2 + 0x4000 * b3, a3 + 0x100 * b4)));
  }

  function AddPad(h: Words, pad: Words): Words {
    var f0 := U64(h.w0 + pad.w0);
    var f1 := U64(h.w1 + pad.w1 + f0 / TWO_32);
    var f2 := U64(h.w2 + pad.w2 + f1 / TWO_32);
    var f3 := U64(h.w3 + pad.w3 + f2 / TWO_32);
    Words(U32(f0), U32(f1), U32(f2), U32(f3))
  }

  lemma AddPadCorrect(h: Words, pad: Words)
    requires h.w0 < TWO_32 && h.w1 < TWO_32 && h.w2 < TWO_32 && h.w3 < TWO_32
    requires pad.w0 < TWO_32 && pad.w1 < TWO_32 && pad.w2 < TWO_32 && pad.w3 < TWO_32
    ensures WordsValue(AddPad(h, pad)) == (WordsValue(h) + WordsValue(pad)) % PolySpec.TWO_128
  {
    hide WordsValue, U32, U64;
    var q0, r0 := PadLink(h.w0, pad.w0, 0);
    var q1, r1 := PadLink(h.w1, pad.w1, q0);
    var q2, r2 := PadLink(h.w2, pad.w2, q1);
    var q3, r3 := PadLink(h.w3, pad.w3, q2);
    PadChain(h, pad, q0, r0, q1, r1, q2, r2, q3, r3);
  }

  lemma PadLink(x: nat, y: nat, carry: nat) returns (hi: nat, lo: nat)
    requires x < TWO_32 && y < TWO_32 && carry <= 1
    ensures U64(x + y + carry) == x + y + carry == TWO_32 * hi + lo
    ensures (x + y + carry) / TWO_32 == hi <= 1 && U32(x + y + carry) == lo < TWO_32
  {
    hi, lo := (x + y + carry) / TWO_32, (x + y + carry) % TWO_32;
  }

  lemma PadChain(h: Words, pad: Words, q0: nat, r0: nat, q1: nat, r1: nat, q2: nat, r2: nat, q3: nat, r3: nat)
    requires h.w0 + pad.w0 == TWO_32 * q0 + r0 && h.w1 + pad.w1 + q0 == TWO_32 * q1 + r1
    requires h.w2 + pad.w2 + q1 == TWO_32 * q2 + r2 && h.w3 + pad.w3 + q2 == TWO_32 * q3 + r3
    requires r0 < TWO_32 && r1 < TWO_32 && r2 < TWO_32 && r3 < TWO_32
    ensures WordsValue(Words(r0, r1, r2, r3)) == (WordsValue(h) + WordsValue(pad)) % PolySpec.TWO_128
  {
    DivModUnique(WordsValue(h) + WordsValue(pad), PolySpec.TWO_128, q3, WordsValue(Words(r0, r1, r2, r3)));
  }

  // ---------- the tag ----------

  function LoadPad(key: seq<byte>): Words
    requires |key| >= 32
  {
    Words(Le32(key, 16), Le32(key, 20), Le32(key, 24), Le32(key, 28))
  }

  function StoreWords(w: Words): (s: seq<byte>)
    ensures |s| == 16
  {
    LeBytes(w.w0, 4) + LeBytes(w.w1, 4) + LeBytes(w.w2, 4) + LeBytes(w.w3, 4)
  }

  function Finish(h: Limbs, pad: Words): (s: seq<byte>)
    ensures |s| == 16
  {
    StoreWords(AddPad(Pack(Reduce(FinalCarry(h))), pad))
  }

  lemma LoadPadValue(key: PolySpec.OneTimeKey)
    ensures WordsValue(LoadPad(key)) == PolySpec.S(key)
    ensures var w := LoadPad(key); w.w0 < TWO_32 && w.w1 < TWO_32 && w.w2 < TWO_32 && w.w3 < TWO_32
  {
    hide Le32, LeNat;
    Le32Word(key, 16); Le32Word(key, 20); Le32Word(key, 24); Le32Word(key, 28);
    Words16(key[16..]);
  }

  lemma StoreWordsValue(w: Words)
    requires w.w0 < TWO_32 && w.w1 < TWO_32 && w.w2 < TWO_32 && w.w3 < TWO_32
    ensures StoreWords(w) == LeBytes(WordsValue(w), 16)
  {
    hide LeBytes;
    WordFirst(w.w0, w.w1 + TWO_32 * (w.w2 + TWO_32 * w.w3), 12);
    WordFirst(w.w1, w.w2 + TWO_32 * w.w3, 8);
    WordFirst(w.w2, w.w3, 4);
    assert StoreWords(w) == LeBytes(w.w0, 4) + (LeBytes(w.w1, 4) + (LeBytes(w.w2, 4) + LeBytes(w.w3, 4)));
  }

  lemma WordFirst(x: nat, y: nat, n: nat)
    requires x < TWO_32
    ensures LeBytes(x + TWO_32 * y, 4 + n) == LeBytes(x, 4) + LeBytes(y, n)
  {
    assert Pow256(4) == TWO_32;
    hide LeBytes;
    LeBytesConcat(x, y, 4, n);
  }

  /** Settled limbs holding the accumulator finish as RFC 8439 prescribes. */
  lemma FinishCorrect(h: Limbs, key: PolySpec.OneTimeKey, acc: nat)
    requires Settled(h) && Value(h) % PolySpec.P == acc
    ensures Finish(h, LoadPad(key)) == LeBytes((acc + PolySpec.S(key)) % PolySpec.TWO_128, 16)
  {
    hide FinalCarry, Reduce, Pack, AddPad, LoadPad, StoreWords, LeBytes, WordsValue, Number;
    FinalCarryCorrect(h);
    var r := Reduce(FinalCarry(h));
    ReduceCorrect(FinalCarry(h));
    PackCorrect(r);
    LoadPadValue(key);
    AddPadCorrect(Pack(r), LoadPad(key));
    var w := AddPad(Pack(r), LoadPad(key));
    AddPadBound(Pack(r), LoadPad(key));
    StoreWordsValue(w);
    SumResidue(acc, PolySpec.S(key));
  }

  lemma AddPadBound(h: Words, pad: Words)
    ensures var w := AddPad(h, pad); w.w0 < TWO_32 && w.w1 < TWO_32 && w.w2 < TWO_32 && w.w3 < TWO_32
  {
  }

  lemma SumResidue(x: nat, y: nat)
    ensures (x % PolySpec.TWO_128 + y) % PolySpec.TWO_128 == (x + y) % PolySpec.TWO_128
  {
  }
}
