/** The AEAD of section 2.8 of RFC 8439, as values, as the gateway computes it
    and as the C library computes it over buffers that may overlap.  The ChaCha20
    block function is a parameter: any function that yields 64 bytes. */
module Aead {
  import opened Bits
  import opened Bytes
  import opened PolySpec
  import opened PolyCtx

  type BlockFn = f: (seq<byte>, nat, seq<byte>) -> seq<byte> | forall k, c, n :: |f(k, c, n)| == 64
    witness (k, c, n) => Zeros(64)

  /** Byte i of the key stream that starts at block `counter`. */
  function StreamByte(block: BlockFn, key: seq<byte>, counter: nat, nonce: seq<byte>, i: nat): byte {
    block(key, (counter + i / 64) % TWO_32, nonce)[i % 64]
  }

  function XorStream(block: BlockFn, key: seq<byte>, counter: nat, nonce: seq<byte>, data: seq<byte>): (r: seq<byte>)
    ensures |r| == |data|
  {
    seq(|data|, i requires 0 <= i < |data| => XorByte(data[i], StreamByte(block, key, counter, nonce, i)))
  }

  function XorBytes(a: seq<byte>, b: seq<byte>): (r: seq<byte>)
    requires |a| <= |b|
    ensures |r| == |a|
  {
    seq(|a|, i requires 0 <= i < |a| => XorByte(a[i], b[i]))
  }

  /** Applying the stream twice gives the data back. */
  lemma XorStreamTwice(block: BlockFn, key: seq<byte>, counter: nat, nonce: seq<byte>, data: seq<byte>)
    ensures XorStream(block, key, counter, nonce, XorStream(block, key, counter, nonce, data)) == data
  {
    hide Xor;
    var once := XorStream(block, key, counter, nonce, data);
    forall i | 0 <= i < |data|
      ensures XorByte(once[i], StreamByte(block, key, counter, nonce, i)) == data[i]
    {
      XorCancel(data[i], StreamByte(block, key, counter, nonce, i));
    }
  }

  function Pad16(s: seq<byte>): seq<byte> { Zeros((16 - |s| % 16) % 16) }

  /** What the tag authenticates. */
  function MacData(aad: seq<byte>, ct: seq<byte>): seq<byte> {
    aad + Pad16(aad) + ct + Pad16(ct) + (LeBytes(|aad|, 8) + LeBytes(|ct|, 8))
  }

  function OneTime(block: BlockFn, key: seq<byte>, nonce: seq<byte>): OneTimeKey { block(key, 0, nonce)[..32] }

  function AeadTag(block: BlockFn, key: seq<byte>, nonce: seq<byte>, aad: seq<byte>, ct: seq<byte>): (t: seq<byte>)
    ensures |t| == 16
  {
    Tag(OneTime(block, key, nonce), MacData(aad, ct))
  }

  // ---------- which key-stream bytes are used for what ----------

  /** Plaintext xor ciphertext is the key stream of section 2.4 of RFC 8439: byte
      i comes from block counter + i / 64, so no byte of it is used twice. */
  lemma StreamIsKeyStream(block: BlockFn, key: seq<byte>, counter: nat, nonce: seq<byte>, data: seq<byte>, i: nat)
    requires i < |data| && counter + i / 64 < TWO_32
    ensures Xor(XorStream(block, key, counter, nonce, data)[i], data[i]) == block(key, counter + i / 64, nonce)[i % 64]
  {
    hide Xor;
    var k: nat := StreamByte(block, key, counter, nonce, i);
    XorCommutes(data[i], k);
    XorCancel(k, data[i]);
  }

  /** The tag takes block 0 and nothing else of the key stream. */
  lemma TagUsesBlockZero(f: BlockFn, g: BlockFn, key: seq<byte>, nonce: seq<byte>, aad: seq<byte>, ct: seq<byte>)
    requires f(key, 0, nonce) == g(key, 0, nonce)
    ensures AeadTag(f, key, nonce, aad, ct) == AeadTag(g, key, nonce, aad, ct)
  {
    hide Tag, MacData;
  }

  /** Encryption from counter 1 never takes block 0: the one-time key of the tag is
      no part of the key stream. */
  lemma StreamAvoidsBlockZero(f: BlockFn, g: BlockFn, key: seq<byte>, nonce: seq<byte>, data: seq<byte>)
    requires |data| <= 64 * (TWO_32 - 1)
    requires forall c | 0 < c < TWO_32 :: f(key, c, nonce) == g(key, c, nonce)
    ensures XorStream(f, key, 1, nonce, data) == XorStream(g, key, 1, nonce, data)
  {
    hide XorByte;
    forall i | 0 <= i < |data| ensures StreamByte(f, key, 1, nonce, i) == StreamByte(g, key, 1, nonce, i) {
      assert 0 < 1 + i / 64 < TWO_32;
    }
  }

  /** Where everything lies in what the tag authenticates: both parts from a
      multiple of 16 on, zeros between, the two lengths at the end. */
  lemma MacDataLayout(aad: seq<byte>, ct: seq<byte>)
    ensures var m, at := MacData(aad, ct), (|aad| + 15) / 16 * 16;
            var end := at + (|ct| + 15) / 16 * 16;
            && |m| == end + 16 && at % 16 == 0 && |aad| <= at && at + |ct| <= end
            && m[..|aad|] == aad && m[at..at + |ct|] == ct
            && (forall i | |aad| <= i < at || at + |ct| <= i < end :: m[i] == 0)
            && (|aad| < Pow256(8) ==> LeNat(m[end..end + 8]) == |aad|)
            && (|ct| < Pow256(8) ==> LeNat(m[end + 8..]) == |ct|)
  {
    hide LeBytes, LeNat;
    var m, at := MacData(aad, ct), (|aad| + 15) / 16 * 16;
    var end := at + (|ct| + 15) / 16 * 16;
    RoundUp(|aad|);
    RoundUp(|ct|);
    LayoutOf(aad, Pad16(aad), ct, Pad16(ct), LeBytes(|aad|, 8), LeBytes(|ct|, 8));
    if |aad| < Pow256(8) { LeNatOfBytes(|aad|, 8); }
    if |ct| < Pow256(8) { LeNatOfBytes(|ct|, 8); }
  }

  lemma RoundUp(n: nat)
    ensures n + (16 - n % 16) % 16 == (n + 15) / 16 * 16
  {
  }

  lemma LayoutOf(a: seq<byte>, b: seq<byte>, c: seq<byte>, d: seq<byte>, e: seq<byte>, f: seq<byte>)
    ensures var m, at := a + b + c + d + (e + f), |a| + |b|;
            var end := at + |c| + |d|;
            && m[..|a|] == a && m[at..at + |c|] == c && m[end..end + |e|] == e && m[end + |e|..] == f
            && (forall i | |a| <= i < at :: m[i] == b[i - |a|])
            && (forall i | at + |c| <= i < end :: m[i] == d[i - at - |c|])
  {
  }

  /** Nothing else has the same authenticated bytes. */
  lemma MacDataInjective(a: seq<byte>, c: seq<byte>, a': seq<byte>, c': seq<byte>)
    requires |a| < Pow256(8) && |c| < Pow256(8) && |a'| < Pow256(8) && |c'| < Pow256(8)
    requires MacData(a, c) == MacData(a', c')
    ensures a == a' && c == c'
  {
    hide MacData, LeNat, Pow256;
    MacDataLayout(a, c);
    MacDataLayout(a', c');
    var m := MacData(a, c);
    assert m[|m| - 16..|m| - 8] == m[|m| - 16..][..8];
  }

  // ---------- the gateway's loops ----------

  method XorPy(block: BlockFn, key: seq<byte>, counter: nat, nonce: seq<byte>, data: seq<byte>) returns (out: seq<byte>)
    // struct.pack rejects a counter of 2^32 or more
    requires counter + |data| / 64 < TWO_32
    ensures out == XorStream(block, key, counter, nonce, data)
  {
    hide XorStream, XorBytes;
    out := [];
    var i := 0;
    XorStreamEmpty(block, key, counter, nonce);
    while i < |data|
      invariant i % 64 == 0
      invariant out == XorStream(block, key, counter, nonce, data[..if i <= |data| then i else |data|])
    {
      var end := if i + 64 <= |data| then i + 64 else |data|;
      ExtendStream(block, key, counter, nonce, data, i, end - i);
      assert (counter + i / 64) % TWO_32 == counter + i / 64;
      out := out + XorBytes(data[i..end], block(key, counter + i / 64, nonce));
      i := i + 64;
    }
    assert data[..|data|] == data;
  }

  /** Compares two tags without an early exit. */
  method SameTag(wanted: seq<byte>, tag: seq<byte>) returns (same: bool)
    requires |wanted| == |tag|
    ensures same <==> wanted == tag
  {
    hide Xor, Or;
    var diff: nat := 0;
    for i := 0 to |wanted|
      invariant diff == 0 <==> wanted[..i] == tag[..i]
    {
      assert wanted[..i + 1] == wanted[..i] + [wanted[i]] && tag[..i + 1] == tag[..i] + [tag[i]];
      OrZero(diff, Xor(wanted[i], tag[i]));
      XorZeroIff(wanted[i], tag[i]);
      diff := Or(diff, Xor(wanted[i], tag[i]));
    }
    assert wanted[..|wanted|] == wanted && tag[..|tag|] == tag;
    same := diff == 0;
  }

  // ---------- the C library over buffers ----------

  /** One pass of the inner loop: the n bytes `data` against one block of key stream. */
  method XorBlock(ks: seq<byte>, inp: array<byte>, inAt: nat, n: nat, out: array<byte>, outAt: nat, ghost data: seq<byte>)
    requires n <= |ks| && inAt + n <= inp.Length && outAt + n <= out.Length
    requires inp != out || outAt <= inAt || inAt + n <= outAt
    requires |data| == n && forall k | inAt <= k < inAt + n :: inp[k] == data[k - inAt]
    modifies out
    ensures forall k | outAt <= k < outAt + n :: out[k] == XorByte(data[k - outAt], ks[k - outAt])
    ensures forall k | 0 <= k < outAt || outAt + n <= k < out.Length :: out[k] == old(out[k])
  {
    hide Xor, XorByte;
    for i := 0 to n
      invariant forall k | outAt <= k < outAt + i :: out[k] == XorByte(data[k - outAt], ks[k - outAt])
      invariant forall k | inAt + i <= k < inAt + n :: inp[k] == data[k - inAt]
      invariant forall k | 0 <= k < outAt || outAt + i <= k < out.Length :: out[k] == old(out[k])
    {
      out[outAt + i] := XorByte(inp[inAt + i], ks[i]);
    }
  }

  /** The 32-bit block counter when `done` bytes have been processed. */
  function CounterAt(start: nat, done: nat): nat { (start + done / 64) % TWO_32 }

  lemma FirstCounter(start: u32)
    ensures CounterAt(start, 0) == start
  {
  }

  /** `chacha20_xor`.  Input and output may be one buffer, as long as no input
      byte is overwritten before it is read. */
  method Chacha20Xor(block: BlockFn, key: seq<byte>, start: u32, nonce: seq<byte>,
                     inp: array<byte>, inAt: nat, len: nat, out: array<byte>, outAt: nat)
    requires inAt + len <= inp.Length && outAt + len <= out.Length
    requires inp != out || outAt <= inAt || inAt + len <= outAt
    modifies out
    ensures out[outAt..outAt + len] == XorStream(block, key, start, nonce, old(inp[inAt..inAt + len]))
    ensures forall k | 0 <= k < outAt || outAt + len <= k < out.Length :: out[k] == old(out[k])
  {
    hide Xor, XorByte, XorStream, StreamByte, CounterAt;
    FirstCounter(start);
    ghost var data := inp[inAt..inAt + len];
    var counter: nat, done := start, 0;
    while done < len
      invariant done <= len && (done < len ==> done % 64 == 0 && counter == CounterAt(start, done))
      invariant forall k | outAt <= k < outAt + done ::
                  out[k] == XorByte(data[k - outAt], StreamByte(block, key, start, nonce, k - outAt))
      invariant forall k | inAt + done <= k < inAt + len :: inp[k] == data[k - inAt]
      invariant forall k | 0 <= k < outAt || outAt + done <= k < out.Length :: out[k] == old(out[k])
    {
      var ks := block(key, counter, nonce);
      BlockStream(block, key, start, nonce, done);
      counter := (counter + 1) % TWO_32;
      var n := if len - done < 64 then len - done else 64;
      XorBlock(ks, inp, inAt + done, n, out, outAt + done, data[done..done + n]);
      NextBlock(start, done);
      done := done + n;
    }
    IsStream(block, key, start, nonce, data, out[outAt..outAt + len]);
  }

  lemma IsStream(block: BlockFn, key: seq<byte>, start: nat, nonce: seq<byte>, data: seq<byte>, s: seq<byte>)
    requires |s| == |data|
    requires forall i | 0 <= i < |data| :: s[i] == XorByte(data[i], StreamByte(block, key, start, nonce, i))
    ensures s == XorStream(block, key, start, nonce, data)
  {
    hide XorByte, StreamByte;
  }

  lemma BlockStream(block: BlockFn, key: seq<byte>, start: nat, nonce: seq<byte>, done: nat)
    requires done % 64 == 0
    ensures forall i | done <= i < done + 64 ::
              StreamByte(block, key, start, nonce, i) == block(key, CounterAt(start, done), nonce)[i - done]
  {
    forall i | done <= i < done + 64
      ensures StreamByte(block, key, start, nonce, i) == block(key, CounterAt(start, done), nonce)[i - done]
    {
      assert i / 64 == done / 64 && i % 64 == i - done;
    }
  }

  lemma XorStreamEmpty(block: BlockFn, key: seq<byte>, start: nat, nonce: seq<byte>)
    ensures XorStream(block, key, start, nonce, []) == []
  {
  }

  /** A stream extends by one block, or by part of one at the end. */
  lemma ExtendStream(block: BlockFn, key: seq<byte>, start: nat, nonce: seq<byte>, data: seq<byte>, done: nat, n: nat)
    requires done % 64 == 0 && n <= 64 && done + n <= |data|
    ensures XorStream(block, key, start, nonce, data[..done + n])
         == XorStream(block, key, start, nonce, data[..done])
            + XorBytes(data[done..done + n], block(key, CounterAt(start, done), nonce))
  {
    hide Xor;
    forall i | done <= i < done + n
      ensures StreamByte(block, key, start, nonce, i) == block(key, (start + done / 64) % TWO_32, nonce)[i - done]
    {
      assert i / 64 == done / 64 && i % 64 == i - done;
    }
  }

  lemma NextBlock(start: nat, done: nat)
    requires done % 64 == 0
    ensures (done + 64) / 64 == done / 64 + 1 && (done + 64) % 64 == 0
    ensures (CounterAt(start, done) + 1) % TWO_32 == CounterAt(start, done + 64)
  {
  }

  /** `aead_mac`: the same tag as AeadTag, streamed through the context. */
  method AeadMac(block: BlockFn, key: seq<byte>, nonce: seq<byte>, aad: seq<byte>, ct: seq<byte>) returns (tag: seq<byte>)
    ensures tag == AeadTag(block, key, nonce, aad, ct)
  {
    hide Tag, Absorbed, LeBytes;
    var st := new Poly1305Ctx(block(key, 0, nonce)[..32]);
    st.Update(aad);
    if |aad| % 16 != 0 { st.Update(Zeros(16 - |aad| % 16)); }
    assert st.msg == aad + Pad16(aad);
    st.Update(ct);
    if |ct| % 16 != 0 { st.Update(Zeros(16 - |ct| % 16)); }
    assert st.msg == aad + Pad16(aad) + ct + Pad16(ct);
    st.Update(LeBytes(|aad|, 8) + LeBytes(|ct|, 8));
    tag := st.Finish();
  }

  /** `cc20p1305_encrypt` over any buffers: the ciphertext may be written over the
      plaintext, and the tag over either, as long as nothing is overwritten before
      it is read.  No other byte changes. */
  method Encrypt(block: BlockFn, key: seq<byte>, nonce: seq<byte>, aad: array<byte>, aadAt: nat, aadLen: nat,
                 pt: array<byte>, ptAt: nat, len: nat, ct: array<byte>, ctAt: nat, tag: array<byte>, tagAt: nat)
    requires aadAt + aadLen <= aad.Length && ptAt + len <= pt.Length
    requires ctAt + len <= ct.Length && tagAt + 16 <= tag.Length
    requires pt != ct || ctAt <= ptAt || ptAt + len <= ctAt
    requires aad != ct || aadAt + aadLen <= ctAt || ctAt + len <= aadAt
    requires tag != ct || tagAt + 16 <= ctAt || ctAt + len <= tagAt
    modifies ct, tag
    ensures var c := XorStream(block, key, 1, nonce, old(pt[ptAt..ptAt + len]));
            && ct[ctAt..ctAt + len] == c
            && tag[tagAt..tagAt + 16] == AeadTag(block, key, nonce, old(aad[aadAt..aadAt + aadLen]), c)
    ensures forall k | 0 <= k < ct.Length && !(ctAt <= k < ctAt + len) && !(ct == tag && tagAt <= k < tagAt + 16) ::
              ct[k] == old(ct[k])
    ensures forall k | 0 <= k < tag.Length && !(tagAt <= k < tagAt + 16) && !(ct == tag && ctAt <= k < ctAt + len) ::
              tag[k] == old(tag[k])
  {
    hide XorStream, AeadTag;
    ghost var a, c := aad[aadAt..aadAt + aadLen], XorStream(block, key, 1, nonce, pt[ptAt..ptAt + len]);
    Chacha20Xor(block, key, 1, nonce, pt, ptAt, len, ct, ctAt);
    assert aad[aadAt..aadAt + aadLen] == a;
    var mac := AeadMac(block, key, nonce, aad[aadAt..aadAt + aadLen], ct[ctAt..ctAt + len]);
    ghost var before := tag[..];
    Memcpy(tag, tagAt, mac);
    Placed(tag[..], before, tagAt, mac);
    assert ct[ctAt..ctAt + len] == c;
  }

  lemma Placed(now: seq<byte>, was: seq<byte>, at: nat, put: seq<byte>)
    requires at + |put| <= |was| && now == was[..at] + put + was[at + |put|..]
    ensures |now| == |was| && now[at..at + |put|] == put
    ensures forall k | 0 <= k < |was| && !(at <= k < at + |put|) :: now[k] == was[k]
  {
  }

  lemma Assembled(now: seq<byte>, was: seq<byte>, at: nat, put: seq<byte>)
    requires at + |put| <= |was| && |now| == |was| && now[at..at + |put|] == put
    requires forall k | 0 <= k < at || at + |put| <= k < |was| :: now[k] == was[k]
    ensures now == was[..at] + put + was[at + |put|..]
  {
    assert now == now[..at] + now[at..at + |put|] + now[at + |put|..];
  }

  /** `cc20p1305_decrypt`: checks the tag first, and writes nothing when it is wrong. */
  method Decrypt(block: BlockFn, key: seq<byte>, nonce: seq<byte>, aad: array<byte>, aadAt: nat, aadLen: nat,
                 ct: array<byte>, ctAt: nat, len: nat, tag: array<byte>, tagAt: nat, pt: array<byte>, ptAt: nat)
    returns (ok: bool)
    requires aadAt + aadLen <= aad.Length && ctAt + len <= ct.Length
    requires tagAt + 16 <= tag.Length && ptAt + len <= pt.Length
    requires pt != ct || ptAt <= ctAt || ctAt + len <= ptAt
    modifies pt
    ensures ok <==> old(tag[tagAt..tagAt + 16])
                    == AeadTag(block, key, nonce, old(aad[aadAt..aadAt + aadLen]), old(ct[ctAt..ctAt + len]))
    ensures !ok ==> pt[..] == old(pt[..])
    ensures ok ==> pt[..] == old(pt[..ptAt]) + XorStream(block, key, 1, nonce, old(ct[ctAt..ctAt + len]))
                             + old(pt[ptAt + len..])
  {
    hide XorStream, AeadTag;
    var computed := AeadMac(block, key, nonce, aad[aadAt..aadAt + aadLen], ct[ctAt..ctAt + len]);
    ok := SameTag(computed, tag[tagAt..tagAt + 16]);
    if !ok { return; }
    ghost var was, text := pt[..], XorStream(block, key, 1, nonce, ct[ctAt..ctAt + len]);
    Chacha20Xor(block, key, 1, nonce, ct, ctAt, len, pt, ptAt);
    Assembled(pt[..], was, ptAt, text);
  }
}
