/** Poly1305 as section 2.5 of RFC 8439 defines it and as the gateway computes
    it: one big-integer accumulator modulo 2^130 - 5. */
module PolySpec {
  import opened Bits
  import opened Bytes

  const P: nat := 0x3_ffff_ffff_ffff_ffff_ffff_ffff_ffff_fffb
  const CLAMP: nat := 0x0fff_fffc_0fff_fffc_0fff_fffc_0fff_ffff
  const TWO_128: nat := 0x1_0000_0000_0000_0000_0000_0000_0000_0000

  type OneTimeKey = k: seq<byte> | |k| == 32 witness Zeros(32)

  function R(key: OneTimeKey): nat { And(LeNat(key[..16]), CLAMP) }

  function S(key: OneTimeKey): nat { LeNat(key[16..]) }

  /** The next chunk of at most 16 bytes. */
  function Chunk(msg: seq<byte>): seq<byte> {
    if |msg| <= 16 then msg else msg[..16]
  }

  /** One accumulator step; the appended 1 marks the chunk's length. */
  function Absorb(r: nat, acc: nat, chunk: seq<byte>): nat {
    var t: nat := (acc + LeNat(chunk + [1])) * r;
    t % P
  }

  function Accumulate(r: nat, acc: nat, msg: seq<byte>): nat
    decreases |msg|
  {
    if msg == [] then acc
    else Accumulate(r, Absorb(r, acc, Chunk(msg)), msg[|Chunk(msg)|..])
  }

  function Tag(key: OneTimeKey, msg: seq<byte>): (t: seq<byte>)
    ensures |t| == 16
  {
    LeBytes((Accumulate(R(key), 0, msg) + S(key)) % TWO_128, 16)
  }

  /** The accumulator of a message is that of its second part continued from
      the accumulator of its first part, when the first part is whole blocks. */
  lemma {:induction false} AccumulateConcat(r: nat, acc: nat, a: seq<byte>, b: seq<byte>)
    requires |a| % 16 == 0
    ensures Accumulate(r, acc, a + b) == Accumulate(r, Accumulate(r, acc, a), b)
    decreases |a|
  {
    if a == [] {
      assert a + b == b;
    } else {
      assert Chunk(a) == a[..16] == Chunk(a + b) by {
        assert (a + b)[..16] == a[..16];
        assert a[..|a|] == a;
      }
      assert (a + b)[16..] == a[16..] + b;
      AccumulateConcat(r, Absorb(r, acc, Chunk(a)), a[16..], b);
    }
  }

  /** The gateway's loop over 16-byte chunks. */
  method Poly1305(key: OneTimeKey, msg: seq<byte>) returns (tag: seq<byte>)
    ensures tag == Tag(key, msg)
  {
    var r := And(LeNat(key[..16]), CLAMP);
    var s := LeNat(key[16..]);
    var acc: nat := 0;
    var i := 0;
    assert msg[0..] == msg;
    while i < |msg|
      invariant 0 <= i
      invariant i <= |msg| ==> Accumulate(r, acc, msg[i..]) == Accumulate(r, 0, msg)
      invariant i > |msg| ==> acc == Accumulate(r, 0, msg)
      decreases |msg| - i
    {
      var chunk := msg[i..if i + 16 <= |msg| then i + 16 else |msg|];
      assert chunk == Chunk(msg[i..]);
      assert msg[i..][|chunk|..] == msg[i + |chunk|..];
      var n := LeNat(chunk + [1]);
      acc := (acc + n) * r % P;
      i := i + 16;
    }
    tag := LeBytes((acc + s) % TWO_128, 16);
  }
}
