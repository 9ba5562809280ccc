/** On-air frames: header, nonce, seal and open, as the gateway computes them on
    values and as the C library computes them in buffers. */
module Frames {
  import opened Bits
  import opened Bytes
  import opened Aead
  import opened Protocol

  const MAGIC: byte := 0xA5
  const HDR_LEN: nat := 8
  const TAG_LEN: nat := 16
  const MAX_FRAME: nat := 46    // SPS_MAX_FRAME

  const MSG_ALERT: byte := 1
  const MSG_HEARTBEAT: byte := 2
  const MSG_ACK: byte := 3
  const MSG_CMD: byte := 4

  type Key = k: seq<byte> | |k| == 32 witness Zeros(32)

  datatype Header = Header(netId: byte, msgType: byte, nodeId: u16, seqNo: u32)

  /** The payload length of a message type, 0 when the type is unknown. */
  function PayloadLen(msgType: byte): nat {
    if msgType == MSG_ALERT then 10
    else if msgType == MSG_HEARTBEAT then 22
    else if msgType == MSG_ACK then 4
    else if msgType == MSG_CMD then 4
    else 0
  }

  /** A header whose SEQ is cut to its 24 bits on the wire. */
  function OnWire(h: Header): Header { h.(seqNo := h.seqNo % SEQ_SPACE) }

  function HeaderBytes(h: Header): (s: seq<byte>)
    ensures |s| == HDR_LEN
  {
    [MAGIC, h.netId, h.msgType] + LeBytes(h.nodeId, 2) + LeBytes(h.seqNo, 3)
  }

  function Nonce(nodeId: u16, msgType: byte, seqNo: u32): (s: seq<byte>)
    ensures |s| == 12
  {
    LeBytes(nodeId, 2) + [msgType] + LeBytes(seqNo, 3) + Zeros(6)
  }

  function NonceOf(h: Header): seq<byte> { Nonce(h.nodeId, h.msgType, h.seqNo) }

  /** HEADER || CIPHERTEXT || TAG */
  function SealedFrame(block: BlockFn, key: Key, h: Header, payload: seq<byte>): (s: seq<byte>)
    ensures |s| == HDR_LEN + |payload| + TAG_LEN
  {
    var aad := HeaderBytes(h);
    var ct := XorStream(block, key, 1, NonceOf(h), payload);
    aad + ct + AeadTag(block, key, NonceOf(h), aad, ct)
  }

  /** How the gateway's functions end: a value, or one of its exceptions. */
  datatype Outcome<T> = Ok(value: T) | FrameError | AuthError | OverflowError

  /** `seal`: SEQ above 24 bits does not fit to_bytes(3). */
  function Seal(block: BlockFn, key: Key, h: Header, payload: seq<byte>): Outcome<seq<byte>> {
    if h.seqNo >= SEQ_SPACE then OverflowError else Ok(SealedFrame(block, key, h, payload))
  }

  function UnpackHeader(s: seq<byte>): Outcome<Header> {
    if |s| < HDR_LEN then FrameError
    else if s[0] != MAGIC then FrameError
    else Ok(Header(s[1], s[2], Le16(s, 3), Le24(s, 5)))
  }

  function Le16(s: seq<byte>, i: nat): u16
    requires i + 2 <= |s|
  {
    (s[i] as int) + 0x100 * (s[i + 1] as int)
  }

  function Le24(s: seq<byte>, i: nat): (w: u32)
    requires i + 3 <= |s|
    ensures w < SEQ_SPACE
  {
    Sum24(s[i], s[i + 1], s[i + 2])
  }

  function Sum24(b0: byte, b1: byte, b2: byte): (w: u32)
    ensures w < SEQ_SPACE
  {
    (b0 as int) + 0x100 * (b1 as int) + 0x1_0000 * (b2 as int)
  }

  /** `open_frame` */
  function Open(block: BlockFn, key: Key, frame: seq<byte>): Outcome<(Header, seq<byte>)> {
    var hdr := UnpackHeader(frame);
    if !hdr.Ok? then FrameError else
    var h := hdr.value;
    var plen := PayloadLen(h.msgType);
    if plen == 0 then FrameError
    else if |frame| != HDR_LEN + plen + TAG_LEN then FrameError
    else
      var aad, ct, tag := frame[..HDR_LEN], frame[HDR_LEN..HDR_LEN + plen], frame[HDR_LEN + plen..];
      if tag != AeadTag(block, key, NonceOf(h), aad, ct) then AuthError
      else Ok((h, XorStream(block, key, 1, NonceOf(h), ct)))
  }

  // ---------- encodings are inverse ----------

  lemma Le16Bytes(x: u16)
    ensures LeBytes(x, 2) == [x % 0x100, x / 0x100]
  {
    assert LeBytes(x / 0x100, 1) == [x / 0x100 % 0x100] + LeBytes(x / 0x1_0000, 0);
  }

  lemma Le24Bytes(x: nat)
    requires x < SEQ_SPACE
    ensures LeBytes(x, 3) == [x % 0x100, x / 0x100 % 0x100, x / 0x1_0000]
  {
    assert LeBytes(x / 0x100, 2) == [x / 0x100 % 0x100] + LeBytes(x / 0x100 / 0x100, 1);
    assert LeBytes(x / 0x1_0000, 1) == [x / 0x1_0000 % 0x100] + LeBytes(x / 0x1_0000 / 0x100, 0);
  }

  /** The eight header bytes, one by one. */
  lemma HeaderList(h: Header)
    requires h.seqNo < SEQ_SPACE
    ensures HeaderBytes(h) == [MAGIC, h.netId, h.msgType, h.nodeId % 0x100, h.nodeId / 0x100,
                               h.seqNo % 0x100, h.seqNo / 0x100 % 0x100, h.seqNo / 0x1_0000]
  {
    hide LeBytes;
    Le16Bytes(h.nodeId);
    Le24Bytes(h.seqNo);
  }

  /** Reading back a packed header gives the header. */
  lemma UnpackPack(h: Header, rest: seq<byte>)
    requires h.seqNo < SEQ_SPACE
    ensures UnpackHeader(HeaderBytes(h) + rest) == Ok(h)
  {
    hide HeaderBytes, Sum24;
    HeaderList(h);
    Join24(h.seqNo);
  }

  lemma Join24(x: nat)
    requires x < SEQ_SPACE
    ensures Sum24(x % 0x100, x / 0x100 % 0x100, x / 0x1_0000) == x
  {
  }

  /** Packing what was read gives back the same eight bytes. */
  lemma PackUnpack(s: seq<byte>)
    requires UnpackHeader(s).Ok?
    ensures HeaderBytes(UnpackHeader(s).value) == s[..HDR_LEN]
  {
    hide HeaderBytes;
    HeaderList(UnpackHeader(s).value);
    Split16(s[3], s[4]);
    Split24(s[5], s[6], s[7]);
  }

  lemma Split16(b0: byte, b1: byte)
    ensures ((b0 as int) + 0x100 * (b1 as int)) % 0x100 == b0 && ((b0 as int) + 0x100 * (b1 as int)) / 0x100 == b1
  {
  }

  lemma Split24(b0: byte, b1: byte, b2: byte)
    ensures var x := Sum24(b0, b1, b2); x % 0x100 == b0 && x / 0x100 % 0x100 == b1 && x / 0x1_0000 == b2
  {
  }

  /** Opening a sealed frame gives the header and payload that were sealed,
      exactly when the payload has the length of a known message type. */
  lemma OpenInvertsSeal(block: BlockFn, key: Key, h: Header, payload: seq<byte>)
    requires h.seqNo < SEQ_SPACE
    ensures Open(block, key, SealedFrame(block, key, h, payload)) == Ok((h, payload))
       <==> PayloadLen(h.msgType) == |payload| != 0
  {
    hide XorStream, AeadTag, HeaderBytes, UnpackHeader;
    var aad := HeaderBytes(h);
    var ct := XorStream(block, key, 1, NonceOf(h), payload);
    var tag := AeadTag(block, key, NonceOf(h), aad, ct);
    var frame := aad + ct + tag;
    assert frame == aad + (ct + tag);
    UnpackPack(h, ct + tag);
    assert frame[..HDR_LEN] == aad && frame[HDR_LEN..HDR_LEN + |payload|] == ct && frame[HDR_LEN + |payload|..] == tag;
    XorStreamTwice(block, key, 1, NonceOf(h), payload);
  }

  /** A frame opens only if it is, byte for byte, the seal of what it opens to. */
  lemma OpensOnlySealed(block: BlockFn, key: Key, frame: seq<byte>)
    requires Open(block, key, frame).Ok?
    ensures var (h, payload) := Open(block, key, frame).value;
            h.seqNo < SEQ_SPACE && |payload| == PayloadLen(h.msgType) && frame == SealedFrame(block, key, h, payload)
  {
    hide XorStream, AeadTag, HeaderBytes;
    var (h, payload) := Open(block, key, frame).value;
    var plen := PayloadLen(h.msgType);
    var ct := frame[HDR_LEN..HDR_LEN + plen];
    PackUnpack(frame);
    XorStreamTwice(block, key, 1, NonceOf(h), ct);
    assert frame == frame[..HDR_LEN] + ct + frame[HDR_LEN + plen..];
  }

  /** Frames with one nonce come from one node, one type and one SEQ. */
  lemma NonceInjective(n1: u16, t1: byte, s1: u32, n2: u16, t2: byte, s2: u32)
    requires s1 < SEQ_SPACE && s2 < SEQ_SPACE
    requires Nonce(n1, t1, s1) == Nonce(n2, t2, s2)
    ensures n1 == n2 && t1 == t2 && s1 == s2
  {
    var a, b := Nonce(n1, t1, s1), Nonce(n2, t2, s2);
    assert a[..2] == LeBytes(n1, 2) && b[..2] == LeBytes(n2, 2);
    assert a[2] == t1 && b[2] == t2;
    assert a[3..6] == LeBytes(s1, 3) && b[3..6] == LeBytes(s2, 3);
    assert Pow256(2) == 0x1_0000 && Pow256(3) == SEQ_SPACE;
    hide LeBytes, LeNat;
    LeNatOfBytes(n1, 2); LeNatOfBytes(n2, 2);
    LeNatOfBytes(s1, 3); LeNatOfBytes(s2, 3);
  }

  /** Headers with one nonce name the same node, type and SEQ; they can only
      differ in the network. */
  lemma HeaderNonceInjective(h1: Header, h2: Header)
    requires h1.seqNo < SEQ_SPACE && h2.seqNo < SEQ_SPACE && NonceOf(h1) == NonceOf(h2)
    ensures h1.nodeId == h2.nodeId && h1.msgType == h2.msgType && h1.seqNo == h2.seqNo
  {
    hide Nonce;
    NonceInjective(h1.nodeId, h1.msgType, h1.seqNo, h2.nodeId, h2.msgType, h2.seqNo);
  }

  /** The twelve nonce bytes, one by one. */
  lemma NonceLayout(h: Header)
    requires h.seqNo < SEQ_SPACE
    ensures NonceOf(h) == [h.nodeId % 0x100, h.nodeId / 0x100, h.msgType,
                           h.seqNo % 0x100, h.seqNo / 0x100 % 0x100, h.seqNo / 0x1_0000, 0, 0, 0, 0, 0, 0]
  {
    hide LeBytes;
    Le16Bytes(h.nodeId);
    Le24Bytes(h.seqNo);
  }

  // ---------- what a sealed frame is made of ----------

  /** Header in clear; payload xor ciphertext is the key stream from block 1 on; the
      tag is Poly1305 under half of block 0.  All blocks are those of the nonce that
      holds this header's node, type and SEQ. */
  lemma FrameParts(block: BlockFn, key: Key, h: Header, payload: seq<byte>)
    ensures var s, n := SealedFrame(block, key, h, payload), Nonce(h.nodeId, h.msgType, h.seqNo);
            var body, tag := s[HDR_LEN..HDR_LEN + |payload|], s[HDR_LEN + |payload|..];
            && s[..HDR_LEN] == HeaderBytes(h)
            && (forall i | 0 <= i < |payload| && 1 + i / 64 < TWO_32 ::
                  Xor(body[i], payload[i]) == block(key, 1 + i / 64, n)[i % 64])
            && tag == PolySpec.Tag(block(key, 0, n)[..32], MacData(s[..HDR_LEN], body))
  {
    hide XorStream, AeadTag, HeaderBytes, Nonce, Xor;
    var aad, ct := HeaderBytes(h), XorStream(block, key, 1, NonceOf(h), payload);
    var tag := AeadTag(block, key, NonceOf(h), aad, ct);
    Parts3(aad, ct, tag);
    TagIs(block, key, NonceOf(h), aad, ct);
    forall i | 0 <= i < |payload| && 1 + i / 64 < TWO_32
      ensures Xor(ct[i], payload[i]) == block(key, 1 + i / 64, NonceOf(h))[i % 64]
    {
      StreamIsKeyStream(block, key, 1, NonceOf(h), payload, i);
    }
  }

  lemma Parts3(a: seq<byte>, b: seq<byte>, c: seq<byte>)
    ensures var s := a + b + c; s[..|a|] == a && s[|a|..|a| + |b|] == b && s[|a| + |b|..] == c
  {
  }

  /** Sealing looks at the block function under this key and this header's nonce
      only: frames with different nonces share no key stream.  And without block 0,
      which makes the tag's key, the ciphertext is the same. */
  lemma SealUsesOwnNonce(f: BlockFn, g: BlockFn, key: Key, h: Header, payload: seq<byte>)
    requires |payload| <= 64 * (TWO_32 - 1)
    requires forall c | 0 < c < TWO_32 :: f(key, c, NonceOf(h)) == g(key, c, NonceOf(h))
    ensures SealedFrame(f, key, h, payload)[..HDR_LEN + |payload|] == SealedFrame(g, key, h, payload)[..HDR_LEN + |payload|]
    ensures f(key, 0, NonceOf(h)) == g(key, 0, NonceOf(h)) ==>
              SealedFrame(f, key, h, payload) == SealedFrame(g, key, h, payload)
  {
    hide XorStream, AeadTag, HeaderBytes, Nonce;
    var aad, ct := HeaderBytes(h), XorStream(f, key, 1, NonceOf(h), payload);
    StreamAvoidsBlockZero(f, g, key, NonceOf(h), payload);
    if f(key, 0, NonceOf(h)) == g(key, 0, NonceOf(h)) { TagUsesBlockZero(f, g, key, NonceOf(h), aad, ct); }
    Front(aad + ct, AeadTag(f, key, NonceOf(h), aad, ct));
    Front(aad + ct, AeadTag(g, key, NonceOf(h), aad, ct));
  }

  lemma Front(a: seq<byte>, b: seq<byte>)
    ensures (a + b)[..|a|] == a
  {
  }

  // ---------- what opening distinguishes ----------

  /** A frame of this shape is of a known type and has the right length. */
  predicate WellFormed(frame: seq<byte>) {
    && |frame| >= HDR_LEN && frame[0] == MAGIC
    && PayloadLen(frame[2]) != 0 && |frame| == HDR_LEN + PayloadLen(frame[2]) + TAG_LEN
  }

  /** The byte strings that sealing under this key yields. */
  ghost predicate IsSealed(block: BlockFn, key: Key, frame: seq<byte>) {
    exists h: Header, payload: seq<byte> ::
      h.seqNo < SEQ_SPACE && frame == SealedFrame(block, key, h, payload)
  }

  /** Opening tells three cases apart: the malformed; the well-formed that are no
      seal under this key, which are the forgeries; and the seals. */
  lemma OpenTellsApart(block: BlockFn, key: Key, frame: seq<byte>)
    ensures Open(block, key, frame).FrameError? <==> !WellFormed(frame)
    ensures Open(block, key, frame).AuthError? <==> WellFormed(frame) && !IsSealed(block, key, frame)
    ensures Open(block, key, frame).Ok? <==> WellFormed(frame) && IsSealed(block, key, frame)
  {
    hide SealedFrame, XorStream, AeadTag;
    if Open(block, key, frame).Ok? {
      OpensOnlySealed(block, key, frame);
    } else if WellFormed(frame) && IsSealed(block, key, frame) {
      var h: Header, payload: seq<byte> :| h.seqNo < SEQ_SPACE && frame == SealedFrame(block, key, h, payload);
      SealedType(block, key, h, payload);
      OpenInvertsSeal(block, key, h, payload);
    }
  }

  lemma SealedType(block: BlockFn, key: Key, h: Header, payload: seq<byte>)
    requires h.seqNo < SEQ_SPACE
    ensures SealedFrame(block, key, h, payload)[2] == h.msgType
  {
    hide XorStream, AeadTag;
    HeaderList(h);
  }

  // ---------- the C library ----------

  datatype SpsErr = SPS_OK | BAD_MAGIC | BAD_TYPE | BAD_LEN | AUTH | BUF

  /** How sps_frame_seal ends: the bytes it writes, or its error. */
  datatype CSeal = Written(bytes: seq<byte>) | Refused(err: SpsErr)

  /** SEQ is cut to 24 bits, the payload's length is checked against the type. */
  function SealC(block: BlockFn, key: Key, h: Header, payload: seq<byte>, cap: nat): CSeal {
    if cap < HDR_LEN + |payload| + TAG_LEN then Refused(BUF)
    else if PayloadLen(h.msgType) != |payload| then Refused(BAD_LEN)
    else Written(SealedFrame(block, key, OnWire(h), payload))
  }

  method HeaderWrite(h: Header, out: array<byte>)
    requires out.Length >= HDR_LEN
    modifies out
    ensures out[..] == HeaderBytes(OnWire(h)) + old(out[HDR_LEN..])
  {
    hide HeaderBytes;
    out[0], out[1], out[2] := MAGIC, h.netId, h.msgType;
    out[3], out[4] := U8(h.nodeId), U8(h.nodeId / 0x100);
    var s := h.seqNo % SEQ_SPACE;
    out[5], out[6], out[7] := U8(s), U8(s / 0x100), U8(s / 0x1_0000);
    HeaderList(OnWire(h));
    assert out[..HDR_LEN] == HeaderBytes(OnWire(h));
    assert out[..] == out[..HDR_LEN] + out[HDR_LEN..];
  }

  /** `sps_frame_seal`: SealC's bytes in `out` and their number, or SealC's error
      and an untouched buffer.  The payload may already lie in `out`, behind the
      header's place. */
  method FrameSeal(block: BlockFn, key: Key, h: Header, payload: array<byte>, at: nat, plen: nat,
                   out: array<byte>, cap: nat) returns (err: SpsErr, len: nat)
    requires at + plen <= payload.Length && cap <= out.Length
    requires payload != out || at >= HDR_LEN
    modifies out
    ensures match SealC(block, key, h, old(payload[at..at + plen]), cap)
            case Refused(e) => err == e != SPS_OK && out[..] == old(out[..])
            case Written(s) =>
              err == SPS_OK && len == |s| <= out.Length && out[..] == s + old(out[|s|..])
  {
    hide XorStream, AeadTag, HeaderBytes;
    var need := HDR_LEN + plen + TAG_LEN;
    if cap < need { return BUF, 0; }
    if PayloadLen(h.msgType) != plen { return BAD_LEN, 0; }
    HeaderWrite(h, out);
    assert payload[at..at + plen] == old(payload[at..at + plen]);
    assert out[..HDR_LEN] == HeaderBytes(OnWire(h));
    ghost var before := out[..];
    Encrypt(block, key, Nonce(h.nodeId, h.msgType, h.seqNo % SEQ_SPACE), out, 0, HDR_LEN, payload, at, plen,
            out, HDR_LEN, out, HDR_LEN + plen);
    assert out[..HDR_LEN] == before[..HDR_LEN] && out[need..] == before[need..];
    Parts(out[..], HDR_LEN, HDR_LEN + plen, need);
    return SPS_OK, need;
  }

  lemma Parts(s: seq<byte>, i: nat, j: nat, k: nat)
    requires i <= j <= k <= |s|
    ensures s == s[..i] + s[i..j] + s[j..k] + s[k..]
  {
  }

  /** `sps_header_read` */
  method HeaderRead(buf: seq<byte>) returns (err: SpsErr, h: Header)
    ensures err == if |buf| < HDR_LEN then BAD_LEN
                   else if buf[0] != MAGIC then BAD_MAGIC
                   else if PayloadLen(buf[2]) == 0 then BAD_TYPE else SPS_OK
    ensures err == SPS_OK || err == BAD_TYPE ==> UnpackHeader(buf) == Ok(h)
  {
    h := Header(0, 0, 0, 0);
    if |buf| < HDR_LEN { return BAD_LEN, h; }
    if buf[0] != MAGIC { return BAD_MAGIC, h; }
    h := Header(buf[1], buf[2], Le16(buf, 3), Le24(buf, 5));
    if PayloadLen(h.msgType) == 0 { return BAD_TYPE, h; }
    err := SPS_OK;
  }

  /** `sps_frame_open` accepts exactly what the gateway's open_frame accepts,
      with the same header and payload; on any error no payload byte is written. */
  method FrameOpen(block: BlockFn, key: Key, frame: array<byte>, len: nat, payload: array<byte>, at: nat)
    returns (err: SpsErr, h: Header, plen: nat)
    requires len <= frame.Length && (len >= HDR_LEN ==> at + PayloadLen(frame[2]) <= payload.Length)
    requires payload != frame || at <= HDR_LEN
    modifies payload
    ensures err == SPS_OK <==> Open(block, key, old(frame[..len])).Ok?
    ensures err == AUTH <==> Open(block, key, old(frame[..len])).AuthError?
    ensures err != SPS_OK && err != AUTH ==>
              err == if len < HDR_LEN then BAD_LEN else if old(frame[0]) != MAGIC then BAD_MAGIC
                     else if PayloadLen(old(frame[2])) == 0 then BAD_TYPE else BAD_LEN
    ensures err != SPS_OK ==> payload[..] == old(payload[..])
    ensures err == SPS_OK ==>
              var (h', pt) := Open(block, key, old(frame[..len])).value;
              && h == h' && plen == |pt|
              && payload[..] == old(payload[..at]) + pt + old(payload[at + plen..])
  {
    hide XorStream, AeadTag;
    plen := 0;
    err, h := HeaderRead(frame[..len]);
    if err != SPS_OK { return; }
    var n := PayloadLen(h.msgType);
    if len != HDR_LEN + n + TAG_LEN { return BAD_LEN, h, plen; }
    assert frame[..len][..HDR_LEN] == frame[..HDR_LEN];
    assert frame[..len][HDR_LEN..HDR_LEN + n] == frame[HDR_LEN..HDR_LEN + n];
    assert frame[..len][HDR_LEN + n..] == frame[HDR_LEN + n..HDR_LEN + n + 16];
    var ok := Decrypt(block, key, NonceOf(h), frame, 0, HDR_LEN, frame, HDR_LEN, n, frame, HDR_LEN + n, payload, at);
    if !ok { return AUTH, h, plen; }
    return SPS_OK, h, n;
  }

  /** `seal` in the gateway, loop and all. */
  method SealPy(block: BlockFn, key: Key, h: Header, payload: seq<byte>) returns (r: Outcome<seq<byte>>)
    // struct.pack rejects a block counter of 2^32 or more
    requires 1 + |payload| / 64 < TWO_32
    ensures r == Seal(block, key, h, payload)
  {
    hide XorStream, AeadTag, HeaderBytes, PolySpec.Tag, MacData, OneTime, Nonce;
    if h.seqNo >= SEQ_SPACE { return OverflowError; }
    var aad := HeaderBytes(h);
    var ct := XorPy(block, key, 1, NonceOf(h), payload);
    var tag := PolySpec.Poly1305(OneTime(block, key, NonceOf(h)), MacData(aad, ct));
    assert tag == AeadTag(block, key, NonceOf(h), aad, ct) by { TagIs(block, key, NonceOf(h), aad, ct); }
    r := Ok(aad + ct + tag);
  }

  // ---------- do the two seals agree? ----------

  /** Both sides succeed, with the same bytes. */
  predicate SameBytes(c: CSeal, p: Outcome<seq<byte>>) { c.Written? && p == Ok(c.bytes) }

  /** Given room for the frame, the C library and the gateway seal to the same
      bytes exactly when SEQ fits 24 bits and the payload fits the type. */
  lemma SealsAgree(block: BlockFn, key: Key, h: Header, payload: seq<byte>, cap: nat)
    requires cap >= HDR_LEN + |payload| + TAG_LEN
    ensures SameBytes(SealC(block, key, h, payload, cap), Seal(block, key, h, payload))
       <==> h.seqNo < SEQ_SPACE && PayloadLen(h.msgType) == |payload|
  {
    hide SealedFrame;
    if PayloadLen(h.msgType) != |payload| {
      WrongLengthDiverges(block, key, h, payload, cap);
    } else if h.seqNo >= SEQ_SPACE {
      LongSeqDiverges(block, key, h, payload, cap);
    } else {
      assert OnWire(h) == h;
    }
  }

  /** Beyond 24 bits the gateway raises; the C library seals the frame of another
      SEQ, which a receiver opens under that SEQ. */
  lemma LongSeqDiverges(block: BlockFn, key: Key, h: Header, payload: seq<byte>, cap: nat)
    requires cap >= HDR_LEN + |payload| + TAG_LEN
    requires h.seqNo >= SEQ_SPACE && PayloadLen(h.msgType) == |payload|
    ensures Seal(block, key, h, payload) == OverflowError
    ensures var c := SealC(block, key, h, payload, cap);
            c.Written? && (|payload| != 0 ==> Open(block, key, c.bytes) == Ok((OnWire(h), payload)) && OnWire(h) != h)
  {
    hide SealedFrame, Open;
    OpenInvertsSeal(block, key, OnWire(h), payload);
  }

  /** A payload that does not fit its type is refused by the C library; the
      gateway seals it, but to a frame that no receiver opens. */
  lemma WrongLengthDiverges(block: BlockFn, key: Key, h: Header, payload: seq<byte>, cap: nat)
    requires cap >= HDR_LEN + |payload| + TAG_LEN && PayloadLen(h.msgType) != |payload|
    ensures SealC(block, key, h, payload, cap) == Refused(BAD_LEN)
    ensures h.seqNo < SEQ_SPACE ==>
              var p := Seal(block, key, h, payload);
              p.Ok? && Open(block, key, p.value) == FrameError
  {
    hide XorStream, AeadTag, HeaderBytes, UnpackHeader;
    if h.seqNo < SEQ_SPACE {
      var aad := HeaderBytes(h);
      var ct := XorStream(block, key, 1, NonceOf(h), payload);
      var tag := AeadTag(block, key, NonceOf(h), aad, ct);
      assert aad + ct + tag == aad + (ct + tag);
      UnpackPack(h, ct + tag);
    }
  }

  /** One input for each way in which the two differ. */
  lemma SealsDiffer(block: BlockFn, key: Key)
    ensures var h := Header(0, MSG_ALERT, 0, SEQ_SPACE);
            Seal(block, key, h, Zeros(10)) == OverflowError && SealC(block, key, h, Zeros(10), 34).Written?
    ensures var h := Header(0, MSG_ALERT, 0, 1);
            Seal(block, key, h, Zeros(3)).Ok? && SealC(block, key, h, Zeros(3), 34) == Refused(BAD_LEN)
  {
    hide SealedFrame;
    LongSeqDiverges(block, key, Header(0, MSG_ALERT, 0, SEQ_SPACE), Zeros(10), 34);
    WrongLengthDiverges(block, key, Header(0, MSG_ALERT, 0, 1), Zeros(3), 34);
  }

  lemma TagIs(block: BlockFn, key: Key, nonce: seq<byte>, aad: seq<byte>, ct: seq<byte>)
    ensures AeadTag(block, key, nonce, aad, ct) == PolySpec.Tag(OneTime(block, key, nonce), MacData(aad, ct))
  {
    hide PolySpec.Tag, MacData, OneTime;
  }
}
