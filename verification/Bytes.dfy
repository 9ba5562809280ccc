/** Bytes, machine words and little-endian encoding. */
module Bytes {
  import opened Bits

  type byte = b: int | 0 <= b < 0x100
  type u16 = w: int | 0 <= w < 0x1_0000
  type u32 = w: int | 0 <= w < 0x1_0000_0000
  type u64 = w: int | 0 <= w < 0x1_0000_0000_0000_0000

  const ONES: nat := 0xffff_ffff
  const TWO_32: nat := 0x1_0000_0000

  /** Truncation of an unsigned C value to 8, 32 or 64 bits. */
  function U8(x: nat): byte { x % 0x100 }
  function U32(x: nat): u32 { x % 0x1_0000_0000 }
  function U64(x: nat): u64 { x % 0x1_0000_0000_0000_0000 }

  /** The number a byte string denotes, least significant byte first. */
  function LeNat(s: seq<byte>): nat {
    if s == [] then 0 else s[0] + 0x100 * LeNat(s[1..])
  }

  /** The n-byte little-endian encoding of x, truncated to n bytes. */
  function LeBytes(x: nat, n: nat): (s: seq<byte>)
    ensures |s| == n
  {
    if n == 0 then [] else [x % 0x100] + LeBytes(x / 0x100, n - 1)
  }

  function Zeros(n: nat): (s: seq<byte>)
    ensures |s| == n
  {
    seq(n, _ => 0)
  }

  function Pow256(n: nat): nat {
    if n == 0 then 1 else 0x100 * Pow256(n - 1)
  }

  function XorByte(a: byte, b: byte): (c: byte)
    ensures c == Xor(a, b)
  {
    assert Pow2(8) == 0x100;
    XorBound(a, b, 8);
    Xor(a, b)
  }

  lemma {:induction false} LeNatBound(s: seq<byte>)
    ensures LeNat(s) < Pow256(|s|)
  {
    if s != [] { LeNatBound(s[1..]); }
  }

  lemma {:induction false} LeNatConcat(s: seq<byte>, t: seq<byte>)
    ensures LeNat(s + t) == LeNat(s) + Pow256(|s|) * LeNat(t)
  {
    if s == [] {
      assert s + t == t;
    } else {
      assert (s + t)[1..] == s[1..] + t;
      LeNatConcat(s[1..], t);
      assert 0x100 * (Pow256(|s| - 1) * LeNat(t)) == Pow256(|s|) * LeNat(t);
    }
  }

  lemma {:induction false} LeNatZeros(n: nat)
    ensures LeNat(Zeros(n)) == 0
  {
    if n != 0 {
      assert Zeros(n)[1..] == Zeros(n - 1);
      LeNatZeros(n - 1);
    }
  }

  lemma {:induction false} LeBytesOfNat(s: seq<byte>)
    ensures LeBytes(LeNat(s), |s|) == s
  {
    if s != [] { LeBytesOfNat(s[1..]); }
  }

  lemma {:induction false} LeNatOfBytes(x: nat, n: nat)
    requires x < Pow256(n)
    ensures LeNat(LeBytes(x, n)) == x
  {
    if n != 0 {
      LeNatOfBytes(x / 0x100, n - 1);
      assert LeBytes(x, n)[1..] == LeBytes(x / 0x100, n - 1);
    }
  }

  lemma {:induction false} LeBytesConcat(x: nat, y: nat, n: nat, m: nat)
    requires x < Pow256(n)
    ensures LeBytes(x + Pow256(n) * y, n + m) == LeBytes(x, n) + LeBytes(y, m)
  {
    if n == 0 {
    } else {
      var z := x + Pow256(n) * y;
      assert Pow256(n) * y == 0x100 * (Pow256(n - 1) * y);
      assert z / 0x100 == x / 0x100 + Pow256(n - 1) * y;
      LeBytesConcat(x / 0x100, y, n - 1, m);
    }
  }

  /** `memcpy(dst + at, src, |src|)` */
  method Memcpy(dst: array<byte>, at: nat, src: seq<byte>)
    requires at + |src| <= dst.Length
    modifies dst
    ensures dst[..] == old(dst[..at]) + src + old(dst[at + |src|..])
    ensures dst[..at + |src|] == old(dst[..at]) + src
  {
    forall j | 0 <= j < |src| { dst[at + j] := src[j]; }
  }
}
