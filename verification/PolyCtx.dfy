/** The streaming state of the C Poly1305: limbs, pad and a 16-byte buffer for
    the bytes that do not yet fill a block. */
module PolyCtx {
  import opened Bits
  import opened Bytes
  import opened PolyLimbs
  import opened PolyFinish
  import opened PolySpec

  const HIBIT: nat := 0x100_0000    // 2^24, which is 2^128 in the top limb

  /** The limbs after absorbing the whole blocks of m. */
  function BlocksOf(h: Limbs, r: Limbs, m: seq<byte>, hibit: nat): Limbs
    decreases |m|
  {
    if |m| < 16 then h else BlocksOf(Step(h, r, m[..16], hibit), r, m[16..], hibit)
  }

  /** The last, short block: the data, the marker 1, and zeros. */
  function PaddedBlock(chunk: seq<byte>): Block
    requires |chunk| < 16
  {
    chunk + [1] + Zeros(15 - |chunk|)
  }

  lemma FullBlock(h: Limbs, r: Limbs, m: Block)
    requires Settled(h) && Clamped(r)
    ensures Settled(Step(h, r, m, HIBIT))
    ensures Value(Step(h, r, m, HIBIT)) % P == Absorb(Value(r), Value(h) % P, m)
  {
    hide Step, LeNat, Number;
    StepCorrect(h, r, m, HIBIT);
    Marker16(m);
    ReduceFirst(Value(h), LeNat(m + [1]), Value(r));
  }

  lemma Marker16(m: Block)
    ensures LeNat(m + [1]) == LeNat(m) + HIBIT * (B * B * B * B)
  {
    LeNatConcat(m, [1]);
    assert Pow256(16) == 0x1_0000_0000_0000_0000_0000_0000_0000_0000 by {
      assert Pow256(6) == 0x1_0000_0000_0000;
      assert Pow256(11) == 0x100_0000_0000 * Pow256(6);
      assert Pow256(16) == 0x100_0000_0000 * Pow256(11);
    }
    assert LeNat([1]) == 1 by { assert [1 as byte][1..] == []; }
  }

  lemma ShortBlock(h: Limbs, r: Limbs, chunk: seq<byte>)
    requires Settled(h) && Clamped(r) && |chunk| < 16
    ensures Settled(Step(h, r, PaddedBlock(chunk), 0))
    ensures Value(Step(h, r, PaddedBlock(chunk), 0)) % P == Absorb(Value(r), Value(h) % P, chunk)
  {
    hide Step, LeNat, Number;
    StepCorrect(h, r, PaddedBlock(chunk), 0);
    LeNatConcat(chunk + [1], Zeros(15 - |chunk|));
    LeNatZeros(15 - |chunk|);
    ReduceFirst(Value(h), LeNat(chunk + [1]), Value(r));
  }

  /** Reducing the accumulator before a step does not change its residue. */
  lemma ReduceFirst(x: nat, n: nat, r: nat)
    ensures Mul(x + n, r) % P == Mul(x % P + n, r) % P
  {
    var q := x / P;
    assert x == P * q + x % P;
    assert Mul(x + n, r) == Mul(x % P + n, r) + P * (q * r) by { SplitProduct(q, x % P + n, r); }
    SameResidue(Mul(x + n, r), Mul(x % P + n, r), q * r);
  }

  lemma SplitProduct(q: nat, y: nat, r: nat)
    ensures 0 <= q * r && Mul(P * q + y, r) == Mul(y, r) + P * (q * r)
  {
    assert (P * q + y) * r == (P * q) * r + y * r;
    assert (P * q) * r == P * (q * r);
  }

  /** Over any number of blocks the limbs never leave their ranges and hold the
      accumulator of the big-integer definition. */
  lemma {:induction false} BlocksCorrect(h: Limbs, r: Limbs, m: seq<byte>)
    requires Settled(h) && Clamped(r) && |m| % 16 == 0
    ensures Settled(BlocksOf(h, r, m, HIBIT))
    ensures Value(BlocksOf(h, r, m, HIBIT)) % P == Accumulate(Value(r), Value(h) % P, m)
    decreases |m|
  {
    hide Step, Value, Absorb;
    if m != [] {
      FullBlock(h, r, m[..16]);
      BlocksCorrect(Step(h, r, m[..16], HIBIT), r, m[16..]);
      assert Chunk(m) == m[..16];
    }
  }

  /** What the fields hold after `msg` has been absorbed under `key`. */
  ghost predicate Absorbed(key: OneTimeKey, msg: seq<byte>, r: Limbs, h: Limbs, pad: Words, pending: seq<byte>) {
    && |pending| == |msg| % 16
    && pending == msg[|msg| - |pending|..]
    && r == LoadR(key) && pad == LoadPad(key)
    && Settled(h)
    && Value(h) % P == Accumulate(R(key), 0, msg[..|msg| - |pending|])
  }

  lemma AbsorbBlocks(key: OneTimeKey, msg: seq<byte>, r: Limbs, h: Limbs, pad: Words, pending: seq<byte>, m: seq<byte>)
    requires Absorbed(key, msg, r, h, pad, pending) && (|pending| + |m|) % 16 == 0
    ensures Absorbed(key, msg + m, r, BlocksOf(h, r, pending + m, HIBIT), pad, [])
  {
    hide BlocksOf, LoadR, LoadPad, Accumulate, Value, Settled, R, Clamped, LeNat, And, Step;
    RIsLoadR(key);
    WholeBlocks(|msg|, |m|);
    BlocksCorrect(h, r, pending + m);
    AccumulateConcat(R(key), 0, msg[..|msg| - |pending|], pending + m);
    JoinPending(msg, pending, m);
    AbsorbedWhole(key, msg + m, r, BlocksOf(h, r, pending + m, HIBIT), pad);
  }

  /** On a block boundary nothing is pending. */
  lemma AbsorbedWhole(key: OneTimeKey, msg: seq<byte>, r: Limbs, h: Limbs, pad: Words)
    requires |msg| % 16 == 0 && r == LoadR(key) && pad == LoadPad(key) && Settled(h)
    requires Value(h) % P == Accumulate(R(key), 0, msg)
    ensures Absorbed(key, msg, r, h, pad, [])
  {
    hide LoadR, LoadPad, Accumulate, Value, Settled, R;
    assert msg[..|msg|] == msg && msg[|msg|..] == [];
  }

  lemma JoinPending(msg: seq<byte>, pending: seq<byte>, m: seq<byte>)
    requires |pending| <= |msg| && pending == msg[|msg| - |pending|..]
    ensures msg[..|msg| - |pending|] + (pending + m) == msg + m
  {
  }

  /** Starting on a block boundary, whole blocks go to the limbs and the rest waits. */
  lemma AbsorbAligned(key: OneTimeKey, msg: seq<byte>, r: Limbs, h: Limbs, pad: Words, m: seq<byte>, want: nat)
    requires Absorbed(key, msg, r, h, pad, []) && want <= |m| < want + 16 && want % 16 == 0
    ensures Absorbed(key, msg + m, r, BlocksOf(h, r, m[..want], HIBIT), pad, m[want..])
    ensures |m| < 16 ==> BlocksOf(h, r, m[..want], HIBIT) == h
  {
    hide Absorbed;
    AbsorbBlocks(key, msg, r, h, pad, [], m[..want]);
    assert [] + m[..want] == m[..want];
    Buffered(key, msg + m[..want], r, BlocksOf(h, r, m[..want], HIBIT), pad, [], m[want..]);
    assert [] + m[want..] == m[want..];
    assert msg + m[..want] + m[want..] == msg + m;
  }

  lemma AbsorbedNothing(key: OneTimeKey)
    ensures Absorbed(key, [], LoadR(key), Limbs(0, 0, 0, 0, 0), LoadPad(key), [])
  {
    hide LoadR, LoadPad, R;
  }

  lemma WholeBlocks(n: nat, k: nat)
    requires (n % 16 + k) % 16 == 0
    ensures (n + k) % 16 == 0 && (n - n % 16) % 16 == 0
  {
  }

  class Poly1305Ctx {
    var r: Limbs
    var h: Limbs
    var pad: Words
    var leftover: nat
    const buffer: array<byte>
    var final: bool
    ghost var key: OneTimeKey
    ghost var msg: seq<byte>

    ghost predicate Valid()
      reads this, buffer
    {
      && buffer.Length == 16 && leftover < 16 && !final
      && Absorbed(key, msg, r, h, pad, buffer[..leftover])
    }

    constructor (k: OneTimeKey)
      ensures Valid() && fresh(buffer) && key == k && msg == []
    {
      hide Absorbed, LoadR, LoadPad;
      AbsorbedNothing(k);
      r := LoadR(k);
      h := Limbs(0, 0, 0, 0, 0);
      pad := LoadPad(k);
      leftover := 0;
      buffer := new byte[16];
      final := false;
      key := k;
      msg := [];
      new;
      assert buffer[..0] == [];
    }

    method Blocks(m: seq<byte>, bytes: nat)
      requires bytes <= |m|
      modifies this`h
      ensures h == BlocksOf(old(h), r, m[..bytes], if final then 0 else HIBIT)
    {
      hide Step;
      var hibit := if final then 0 else HIBIT;
      var i := 0;
      assert m[0..bytes] == m[..bytes];
      while bytes - i >= 16
        invariant i <= bytes
        invariant BlocksOf(h, r, m[i..bytes], hibit) == BlocksOf(old(h), r, m[..bytes], hibit)
      {
        assert m[i..bytes][..16] == m[i..i + 16] && m[i..bytes][16..] == m[i + 16..bytes];
        h := Step(h, r, m[i..i + 16], hibit);
        i := i + 16;
      }
    }

    /** Tops up a partly filled buffer, and absorbs it once it is full. */
    method TopUp(m: seq<byte>) returns (want: nat)
      requires Valid() && leftover != 0
      modifies this, buffer
      ensures Valid() && key == old(key)
      ensures want <= |m| && msg == old(msg) + m[..want] && (leftover != 0 ==> want == |m|)
    {
      hide Absorbed, BlocksOf;
      want := 16 - leftover;
      if want > |m| { want := |m|; }
      ghost var pending := buffer[..leftover];
      Memcpy(buffer, leftover, m[..want]);
      leftover := leftover + want;
      msg := msg + m[..want];
      if leftover < 16 {
        Buffered(key, old(msg), r, h, pad, pending, m[..want]);
        return;
      }
      assert buffer[..][..16] == buffer[..16] == pending + m[..want];
      AbsorbBlocks(key, old(msg), r, h, pad, pending, m[..want]);
      Blocks(buffer[..], 16);
      leftover := 0;
      assert buffer[..0] == [];
    }

    /** Absorbs whole blocks straight from m and buffers what remains. */
    method Aligned(m: seq<byte>)
      requires Valid() && leftover == 0
      modifies this, buffer
      ensures Valid() && key == old(key) && msg == old(msg) + m
    {
      hide Absorbed, BlocksOf;
      assert buffer[..leftover] == [];
      var want := |m| / 16 * 16;
      AbsorbAligned(key, msg, r, h, pad, m, want);
      if |m| >= 16 {
        Blocks(m, want);
      }
      if |m| - want != 0 {
        Memcpy(buffer, 0, m[want..]);
        leftover := |m| - want;
      }
      assert buffer[..leftover] == m[want..];
      msg := msg + m;
    }

    /** Absorbs m, wherever the block boundaries fall. */
    method Update(m: seq<byte>)
      requires Valid()
      modifies this, buffer
      ensures Valid() && key == old(key) && msg == old(msg) + m
    {
      hide Absorbed;
      var want := 0;
      if leftover != 0 {
        want := TopUp(m);
        if leftover != 0 {
          assert m[..want] == m;
          return;
        }
      }
      Aligned(m[want..]);
      assert m == m[..want] + m[want..];
    }

    /** Produces the tag of everything absorbed and wipes the state. */
    method Finish() returns (mac: seq<byte>)
      requires Valid()
      modifies this, buffer
      ensures mac == Tag(old(key), old(msg))
      ensures h == r == Limbs(0, 0, 0, 0, 0) && pad == Words(0, 0, 0, 0) && leftover == 0 && !final
      ensures forall i | 0 <= i < 16 :: buffer[i] == 0
    {
      hide Absorbed, BlocksOf, Step, Tag, PolyFinish.Finish;
      ghost var pending := buffer[..leftover];
      FinishAbsorbed(key, msg, r, h, pad, pending);
      if leftover != 0 {
        buffer[leftover] := 1;
        forall j | leftover + 1 <= j < 16 { buffer[j] := 0; }
        final := true;
        assert buffer[..] == PaddedBlock(pending);
        assert buffer[..][..16] == buffer[..];
        Blocks(buffer[..], 16);
        OneBlock(old(h), r, buffer[..], 0);
      }
      mac := PolyFinish.Finish(h, pad);
      r, h, pad := Limbs(0, 0, 0, 0, 0), Limbs(0, 0, 0, 0, 0), Words(0, 0, 0, 0);
      leftover, final := 0, false;
      forall j | 0 <= j < 16 { buffer[j] := 0; }
    }
  }

  /** Bytes that do not fill the block stay in the buffer. */
  lemma Buffered(key: OneTimeKey, msg: seq<byte>, r: Limbs, h: Limbs, pad: Words, pending: seq<byte>, m: seq<byte>)
    requires Absorbed(key, msg, r, h, pad, pending) && |pending| + |m| < 16
    ensures Absorbed(key, msg + m, r, h, pad, pending + m)
  {
    hide LoadR, LoadPad, Accumulate, Value, Settled;
    assert (msg + m)[..|msg| - |pending|] == msg[..|msg| - |pending|];
  }

  lemma OneBlock(h: Limbs, r: Limbs, m: Block, hibit: nat)
    ensures BlocksOf(h, r, m, hibit) == Step(h, r, m, hibit)
  {
    hide Step;
    assert m[..16] == m && m[16..] == [];
    assert BlocksOf(Step(h, r, m, hibit), r, [], hibit) == Step(h, r, m, hibit);
  }

  /** The final, possibly padded, block completes the tag. */
  lemma FinishAbsorbed(key: OneTimeKey, msg: seq<byte>, r: Limbs, h: Limbs, pad: Words, pending: seq<byte>)
    requires Absorbed(key, msg, r, h, pad, pending)
    ensures PolyFinish.Finish(if pending == [] then h else Step(h, r, PaddedBlock(pending), 0), pad) == Tag(key, msg)
  {
    hide LoadR, LoadPad, Value, Step, PolyFinish.Finish, Settled, R, Accumulate, Absorb;
    LoadRValue(key);
    var whole := msg[..|msg| - |pending|];
    AccumulateConcat(R(key), 0, whole, pending);
    assert msg == whole + pending;
    assert R(key) == Value(r) by { RIsLoadR(key); }
    if pending == [] {
      assert whole == msg;
      FinishCorrect(h, key, Accumulate(R(key), 0, msg));
    } else {
      ShortBlock(h, r, pending);
      var acc := Accumulate(R(key), 0, whole);
      AccumulateShort(R(key), acc, pending);
      FinishCorrect(Step(h, r, PaddedBlock(pending), 0), key, Absorb(R(key), acc, pending));
    }
  }

  lemma AccumulateShort(r: nat, acc: nat, chunk: seq<byte>)
    requires 0 < |chunk| < 16
    ensures Accumulate(r, acc, chunk) == Absorb(r, acc, chunk)
  {
    hide Absorb;
    assert Chunk(chunk) == chunk && chunk[|chunk|..] == [];
  }

  lemma RIsLoadR(key: OneTimeKey)
    ensures R(key) == Value(LoadR(key)) && Clamped(LoadR(key))
  {
    hide LoadR, And, Value;
    LoadRValue(key);
  }
}
