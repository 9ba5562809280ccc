/** Bitwise operations on natural numbers.  The C library works on fixed-width
    unsigned words and the gateway on Python's unbounded integers; both are
    modelled by `nat`, with `& | ^` defined bit by bit and every truncation
    written out as a remainder. */
module Bits {

  function Pow2(n: nat): nat {
    if n == 0 then 1 else 2 * Pow2(n - 1)
  }

  function And(x: nat, y: nat): nat {
    if x == 0 || y == 0 then 0 else 2 * And(x / 2, y / 2) + (x % 2) * (y % 2)
  }

  function Or(x: nat, y: nat): nat {
    if x == 0 then y else if y == 0 then x
    else 2 * Or(x / 2, y / 2) + (if x % 2 == 1 || y % 2 == 1 then 1 else 0)
  }

  function Xor(x: nat, y: nat): nat {
    if x == 0 then y else if y == 0 then x
    else 2 * Xor(x / 2, y / 2) + (x % 2 + y % 2) % 2
  }

  predicate BitAt(x: nat, i: nat) {
    if i == 0 then x % 2 == 1 else BitAt(x / 2, i - 1)
  }

  // ---------- powers of two ----------

  lemma Pow2Positive(n: nat)
    ensures Pow2(n) > 0
  {
  }

  lemma {:induction false} Pow2Add(a: nat, b: nat)
    ensures Pow2(a + b) == Pow2(a) * Pow2(b)
  {
    if a != 0 { Pow2Add(a - 1, b); }
  }

  lemma Powers()
    ensures Pow2(8) == 0x100 && Pow2(16) == 0x1_0000 && Pow2(24) == 0x100_0000
    ensures Pow2(14) == 0x4000 && Pow2(20) == 0x10_0000
    ensures Pow2(15) == 0x8000 && Pow2(26) == 0x400_0000 && Pow2(32) == 0x1_0000_0000
  {
    assert Pow2(2) == 4;
    assert Pow2(8) == 0x100 by { Pow2Add(4, 4); }
    Pow2Add(8, 8);
    assert Pow2(14) == 0x4000 by { Pow2Add(8, 6); assert Pow2(6) == 64; }
    Pow2Add(16, 4);
    Pow2Add(16, 8);
    Pow2Add(24, 2);
    Pow2Add(16, 16);
  }

  lemma {:induction false} Pow2Monotone(a: nat, b: nat)
    requires a <= b
    ensures Pow2(a) <= Pow2(b)
    decreases b
  {
    if a < b { Pow2Monotone(a, b - 1); }
  }

  // ---------- & ----------

  /** Masking splits at any bit position. */
  lemma {:induction false} AndSplit(xh: nat, xl: nat, mh: nat, ml: nat, k: nat)
    requires xl < Pow2(k) && ml < Pow2(k)
    ensures And(Pow2(k) * xh + xl, Pow2(k) * mh + ml) == And(xl, ml) + Pow2(k) * And(xh, mh)
  {
    if k == 0 {
      assert And(0, 0) == 0;
    } else {
      var h := Pow2(k - 1);
      AndSplit(xh, xl / 2, mh, ml / 2, k - 1);
      HalfOf(h, xh, xl);
      HalfOf(h, mh, ml);
      AndHalf(2 * h * xh + xl, 2 * h * mh + ml);
      AndHalf(xl, ml);
      HalfOf(h, And(xh, mh), 0);
    }
  }

  lemma HalfOf(h: nat, high: nat, low: nat)
    ensures 0 <= 2 * h * high && 0 <= h * high
    ensures (2 * h * high + low) / 2 == h * high + low / 2
    ensures (2 * h * high + low) % 2 == low % 2
    ensures 2 * (h * high) == 2 * h * high
  {
    var t := h * high;
    assert 2 * h * high == 2 * t;
  }

  lemma AndHalf(x: nat, y: nat)
    ensures And(x, y) == 2 * And(x / 2, y / 2) + (x % 2) * (y % 2)
  {
  }

  lemma DivModHalf(x: nat, p: nat)
    requires p > 0
    ensures x / (2 * p) == x / 2 / p
    ensures x % (2 * p) / 2 == x / 2 % p
    ensures x % (2 * p) % 2 == x % 2
  {
    var q, r := x / 2 / p, x / 2 % p;
    assert x / 2 == p * q + r;
    assert x == (2 * p) * q + (2 * r + x % 2) by {
      assert 2 * (p * q) == (2 * p) * q;
    }
    DivModUnique(x, 2 * p, q, 2 * r + x % 2);
  }

  lemma DivModUnique(x: int, d: nat, q: int, r: int)
    requires d > 0 && x == d * q + r && 0 <= r < d
    ensures x / d == q && x % d == r
  {
    var q', r' := x / d, x % d;
    assert d * (q - q') == r' - r by { assert d * (q - q') == d * q - d * q'; }
    if q > q' { assert d * (q - q') >= d by { MulMonotone(1, q - q', d); } }
    if q < q' { MulMonotone(q - q', -1, d); }
  }

  lemma MulMonotone(a: int, b: int, c: nat)
    requires a <= b
    ensures a * c <= b * c
    ensures c * a <= c * b
  {
    assert 0 <= (b - a) * c;
  }

  /** `x & (2^k - 1)` keeps the low k bits. */
  lemma {:induction false} AndLowMask(x: nat, k: nat)
    ensures Pow2(k) > 0
    ensures And(x, Pow2(k) - 1) == x % Pow2(k)
  {
    Pow2Positive(k);
    if k != 0 {
      var p := Pow2(k - 1);
      AndLowMask(x / 2, k - 1);
      DivModHalf(x, p);
      AndHalf(x, 2 * p - 1);
      assert (2 * p - 1) / 2 == p - 1 && (2 * p - 1) % 2 == 1;
    }
  }

  lemma {:induction false} AndBound(x: nat, y: nat)
    ensures And(x, y) <= y && And(x, y) <= x
  {
    if x != 0 && y != 0 { AndBound(x / 2, y / 2); }
  }

  lemma AndZero(x: nat)
    ensures And(x, 0) == 0
  {
  }

  // ---------- | ----------

  lemma OrIdentity(x: nat)
    ensures Or(x, 0) == x && Or(0, x) == x
  {
  }

  lemma OrHalf(x: nat, y: nat)
    ensures Or(x, y) == 2 * Or(x / 2, y / 2) + (if x % 2 == 1 || y % 2 == 1 then 1 else 0)
  {
    if x == 0 { assert Or(0, y / 2) == y / 2; }
    else if y == 0 { assert Or(x / 2, 0) == x / 2; }
  }

  /** `|` of two words that share no bit position is their sum. */
  lemma {:induction false} OrDisjoint(x: nat, y: nat, k: nat)
    requires x < Pow2(k)
    ensures Or(x, y * Pow2(k)) == x + y * Pow2(k)
  {
    if k != 0 {
      hide Or;
      var p := Pow2(k - 1);
      OrDisjoint(x / 2, y, k - 1);
      ShiftDouble(y, p);
      OrHalf(x, 2 * (y * p));
    }
  }

  lemma ShiftDouble(y: nat, p: nat)
    ensures 0 <= y * p && y * (2 * p) == 2 * (y * p)
  {
  }

  lemma {:induction false} OrCommutes(x: nat, y: nat)
    ensures Or(x, y) == Or(y, x)
    decreases x
  {
    if x != 0 && y != 0 { OrCommutes(x / 2, y / 2); }
  }

  lemma {:induction false} OrZero(x: nat, y: nat)
    ensures Or(x, y) == 0 <==> x == 0 && y == 0
  {
    if x != 0 && y != 0 { OrZero(x / 2, y / 2); }
  }

  // ---------- ^ ----------

  lemma {:induction false} XorCommutes(x: nat, y: nat)
    ensures Xor(x, y) == Xor(y, x)
  {
    if x != 0 && y != 0 { XorCommutes(x / 2, y / 2); }
  }

  lemma XorHalf(x: nat, y: nat)
    ensures Xor(x, y) / 2 == Xor(x / 2, y / 2)
    ensures Xor(x, y) % 2 == (x % 2 + y % 2) % 2
  {
  }

  lemma XorZero(x: nat)
    ensures Xor(x, 0) == x && Xor(0, x) == x
  {
  }

  lemma {:induction false} XorCancel(x: nat, y: nat)
    ensures Xor(Xor(x, y), y) == x
    decreases x
  {
    hide Xor;
    if x == 0 {
      XorZero(y);
      XorSelf(y);
    } else {
      XorCancel(x / 2, y / 2);
      XorHalf(x, y);
      XorHalf(Xor(x, y), y);
      SameHalves(Xor(Xor(x, y), y), x);
    }
  }

  lemma {:induction false} XorSelf(x: nat)
    ensures Xor(x, x) == 0
  {
    if x != 0 { XorSelf(x / 2); }
  }

  lemma XorZeroIff(x: nat, y: nat)
    ensures Xor(x, y) == 0 <==> x == y
  {
    XorSelf(x);
    XorCancel(x, y);
  }

  lemma {:induction false} XorAssoc(x: nat, y: nat, z: nat)
    ensures Xor(Xor(x, y), z) == Xor(x, Xor(y, z))
    decreases x
  {
    hide Xor;
    if x == 0 {
      XorZero(y);
      XorZero(Xor(y, z));
    } else {
      XorAssoc(x / 2, y / 2, z / 2);
      XorHalf(x, y); XorHalf(y, z);
      XorHalf(Xor(x, y), z); XorHalf(x, Xor(y, z));
      ParityAssoc(x % 2, y % 2, z % 2);
      SameHalves(Xor(Xor(x, y), z), Xor(x, Xor(y, z)));
    }
  }

  lemma SameHalves(x: nat, y: nat)
    requires x / 2 == y / 2 && x % 2 == y % 2
    ensures x == y
  {
  }

  lemma ParityAssoc(a: nat, b: nat, c: nat)
    requires a < 2 && b < 2 && c < 2
    ensures ((a + b) % 2 + c) % 2 == (a + (b + c) % 2) % 2
  {
  }

  /** Xor splits at any bit position. */
  lemma {:induction false} XorSplit(xh: nat, xl: nat, yh: nat, yl: nat, k: nat)
    requires xl < Pow2(k) && yl < Pow2(k)
    ensures Xor(Pow2(k) * xh + xl, Pow2(k) * yh + yl) == Xor(xl, yl) + Pow2(k) * Xor(xh, yh)
  {
    hide Xor;
    if k == 0 {
      XorZero(0);
    } else {
      var h := Pow2(k - 1);
      XorSplit(xh, xl / 2, yh, yl / 2, k - 1);
      HalfOf(h, xh, xl);
      HalfOf(h, yh, yl);
      XorHalf(2 * h * xh + xl, 2 * h * yh + yl);
      XorHalf(xl, yl);
      HalfOf(h, Xor(xh, yh), Xor(xl, yl));
      SameHalves(Xor(2 * h * xh + xl, 2 * h * yh + yl), 2 * h * Xor(xh, yh) + Xor(xl, yl));
    }
  }

  lemma {:induction false} XorBound(x: nat, y: nat, k: nat)
    requires x < Pow2(k) && y < Pow2(k)
    ensures Xor(x, y) < Pow2(k)
  {
    if k != 0 {
      XorBound(x / 2, y / 2, k - 1);
      XorHalf(x, y);
    }
  }

  // ---------- single bits ----------

  lemma {:induction false} OrBit(x: nat, y: nat, i: nat)
    ensures BitAt(Or(x, y), i) <==> BitAt(x, i) || BitAt(y, i)
  {
    if x == 0 { ZeroBit(i); } else if y == 0 { ZeroBit(i); }
    else if i != 0 { OrBit(x / 2, y / 2, i - 1); }
  }

  lemma {:induction false} ZeroBit(i: nat)
    ensures !BitAt(0, i)
  {
    if i != 0 { ZeroBit(i - 1); }
  }

  lemma {:induction false} ShiftBit(x: nat, k: nat, i: nat)
    ensures BitAt(x * Pow2(k), i) <==> i >= k && BitAt(x, i - k)
  {
    if k != 0 {
      assert x * Pow2(k) == 2 * (x * Pow2(k - 1));
      if i != 0 { ShiftBit(x, k - 1, i - 1); }
    }
  }

  lemma {:induction false} PowerBit(k: nat, i: nat)
    ensures BitAt(Pow2(k), i) <==> i == k
  {
    ShiftBit(1, k, i);
    if i > k { assert !BitAt(1, i - k) by { ZeroBit(i - k - 1); } }
  }

  lemma {:induction false} TruncateBit(x: nat, k: nat, i: nat)
    ensures Pow2(k) > 0
    ensures BitAt(x % Pow2(k), i) <==> i < k && BitAt(x, i)
  {
    Pow2Positive(k);
    if k == 0 { ZeroBit(i); }
    else {
      DivModHalf(x, Pow2(k - 1));
      if i != 0 { TruncateBit(x / 2, k - 1, i - 1); }
    }
  }

  /** Testing `x & (1 << k)` reads bit k. */
  lemma {:induction false} AndPowerBit(x: nat, k: nat)
    ensures And(x, Pow2(k)) != 0 <==> BitAt(x, k)
  {
    Pow2Positive(k);
    if x == 0 { ZeroBit(k); }
    else if k != 0 {
      AndPowerBit(x / 2, k - 1);
    } else {
      assert And(x / 2, 0) == 0;
    }
  }
}
