/** The serial link between gateway and radio bridge: raw frames, the two
    senders, and the two self-synchronising receivers. */
module SerialFraming {
  import opened Bytes
  import opened Options
  import opened Cobs
  import Crc16
  import CrcDetection
  import Bits

  type i16 = x: int | -0x8000 <= x < 0x8000
  type i8 = x: int | -0x80 <= x < 0x80

  const RAW_MAX: nat := 262     // LL_RAW_MAX
  const COBS_MAX: nat := 272    // LL_COBS_MAX, the bridge's receive buffer
  const PY_MAX: nat := 512      // max_frame of the gateway's framer

  datatype LoRaFrame = LoRaFrame(mtype: byte, payload: seq<byte>, rssi: i16, snr: i8)

  predicate Sendable(f: LoRaFrame) { |f.payload| <= 255 }

  // ---------- raw frames ----------

  /** LEN TYPE PAYLOAD RSSI SNR, the bytes the CRC covers. */
  function Covered(len: byte, mtype: byte, payload: seq<byte>, rssi: i16, snr: i8): seq<byte> {
    [len, mtype] + payload + [rssi % 0x100, rssi / 0x100 % 0x100, snr % 0x100]
  }

  function CrcBytes(data: seq<byte>): (s: seq<byte>)
    ensures |s| == 2
  {
    [Crc16.Crc(data) % 0x100, Crc16.Crc(data) / 0x100 % 0x100]
  }

  function WithCrc(data: seq<byte>): seq<byte> { data + CrcBytes(data) }

  function RawFrame(f: LoRaFrame): seq<byte>
    requires Sendable(f)
  {
    WithCrc(Covered(|f.payload|, f.mtype, f.payload, f.rssi, f.snr))
  }

  function Signed16(lo: byte, hi: byte): i16 {
    var u := (lo as int) + 0x100 * (hi as int);
    if u >= 0x8000 then u - 0x1_0000 else u
  }

  function Signed8(b: byte): i8 { if b >= 0x80 then (b as int) - 0x100 else b }

  /** `_parse_raw`; None stands for its ValueErrors. */
  function ParseRaw(raw: seq<byte>): Option<LoRaFrame> {
    if |raw| < 7 then None
    else
      var plen: nat := raw[0];
      if |raw| != plen + 7 then None
      else if CrcBytes(raw[..|raw| - 2]) != raw[|raw| - 2..] then None
      else Some(LoRaFrame(raw[1], raw[2..2 + plen], Signed16(raw[2 + plen], raw[3 + plen]), Signed8(raw[4 + plen])))
  }

  lemma SignedRoundTrip(rssi: i16, snr: i8)
    ensures Signed16(rssi % 0x100, rssi / 0x100 % 0x100) == rssi && Signed8(snr % 0x100) == snr
  {
  }

  lemma UnsignedRoundTrip(lo: byte, hi: byte, b: byte)
    ensures Signed16(lo, hi) % 0x100 == lo && Signed16(lo, hi) / 0x100 % 0x100 == hi && Signed8(b) % 0x100 == b
  {
  }

  lemma ParseInvertsRaw(f: LoRaFrame)
    requires Sendable(f)
    ensures ParseRaw(RawFrame(f)) == Some(f)
  {
    hide CrcBytes;
    var covered := Covered(|f.payload|, f.mtype, f.payload, f.rssi, f.snr);
    var raw := RawFrame(f);
    assert raw[..|raw| - 2] == covered && raw[|raw| - 2..] == CrcBytes(covered);
    assert raw[2..2 + |f.payload|] == f.payload;
    SignedRoundTrip(f.rssi, f.snr);
  }

  /** Whatever parses is, byte for byte, the raw frame of what it parses to. */
  lemma RawInvertsParse(raw: seq<byte>)
    requires ParseRaw(raw).Some?
    ensures Sendable(ParseRaw(raw).value) && RawFrame(ParseRaw(raw).value) == raw
  {
    hide CrcBytes;
    var f := ParseRaw(raw).value;
    var plen: nat := raw[0];
    UnsignedRoundTrip(raw[2 + plen], raw[3 + plen], raw[4 + plen]);
    assert raw[..|raw| - 2] == Covered(plen, f.mtype, f.payload, f.rssi, f.snr);
    assert raw == raw[..|raw| - 2] + raw[|raw| - 2..];
  }

  /** A change confined to two adjacent bytes before the CRC is always rejected. */
  lemma BurstRejected(before: seq<byte>, a0: byte, a1: byte, b0: byte, b1: byte, after: seq<byte>, crc: seq<byte>)
    requires |crc| == 2 && (a0 != b0 || a1 != b1)
    requires ParseRaw(before + [a0, a1] + after + crc).Some?
    ensures ParseRaw(before + [b0, b1] + after + crc) == None
  {
    hide Crc16.Crc, ParseRaw;
    var good, bad := before + [a0, a1] + after, before + [b0, b1] + after;
    Crc16.BurstChangesCrc(before, a0, a1, b0, b1, after);
    if ParseRaw(bad + crc).Some? { SameCrcField(good, bad, crc); }
  }

  /** Valid frames with one CRC field have data with one CRC. */
  lemma SameCrcField(good: seq<byte>, bad: seq<byte>, crc: seq<byte>)
    requires |crc| == 2 && ParseRaw(good + crc).Some? && ParseRaw(bad + crc).Some?
    ensures Crc16.Crc(good) == Crc16.Crc(bad)
  {
    hide Crc16.Crc, ParseRaw, CrcBytes;
    FieldIsCrc(good, crc);
    FieldIsCrc(bad, crc);
    CrcBytesAre(good, crc[0], crc[1]);
    CrcBytesAre(bad, crc[0], crc[1]);
  }

  lemma FieldIsCrc(data: seq<byte>, crc: seq<byte>)
    requires |crc| == 2 && ParseRaw(data + crc).Some?
    ensures CrcBytes(data) == crc == [crc[0], crc[1]]
  {
    hide CrcBytes, Signed16, Signed8;
    assert (data + crc)[..|data + crc| - 2] == data && (data + crc)[|data + crc| - 2..] == crc;
  }

  /** So is any change within 16 adjacent bits before the CRC, at any alignment:
      bit by bit the triples differ by a 16-bit word u shifted by k. */
  lemma BurstOf16Rejected(before: seq<byte>, a0: byte, a1: byte, a2: byte, b0: byte, b1: byte, b2: byte,
                          after: seq<byte>, crc: seq<byte>, u: nat, k: nat)
    requires |crc| == 2 && 0 < u < 0x1_0000 && k <= 8
    requires CrcDetection.Difference(a0, a1, a2, b0, b1, b2) == u * Bits.Pow2(k)
    requires ParseRaw(before + [a0, a1, a2] + after + crc).Some?
    ensures ParseRaw(before + [b0, b1, b2] + after + crc) == None
  {
    hide Crc16.Crc, Bits.Pow2, CrcDetection.Difference, ParseRaw;
    var good, bad := before + [a0, a1, a2] + after, before + [b0, b1, b2] + after;
    CrcDetection.BurstOf16ChangesCrc(before, a0, a1, a2, b0, b1, b2, after, u, k);
    if ParseRaw(bad + crc).Some? { SameCrcField(good, bad, crc); }
  }

  /** A valid frame has an even number of one bits, its CRC included. */
  lemma ValidFrameIsEven(raw: seq<byte>)
    requires ParseRaw(raw).Some?
    ensures CrcDetection.OnesIn(raw) % 2 == 0
  {
    hide ParseRaw, CrcBytes, Crc16.Crc, CrcDetection.OnesIn, CrcDetection.Ones;
    var data := raw[..if |raw| >= 2 then |raw| - 2 else 0];
    EndsInCrc(raw);
    CrcDetection.CrcParity(data);
    CrcDetection.OnesInConcat(data, CrcBytes(data));
    OnesOfCrcBytes(data);
  }

  lemma EndsInCrc(raw: seq<byte>)
    requires ParseRaw(raw).Some?
    ensures |raw| >= 7 && raw == raw[..|raw| - 2] + CrcBytes(raw[..|raw| - 2])
  {
    hide CrcBytes;
    assert raw == raw[..|raw| - 2] + raw[|raw| - 2..];
  }

  lemma OnesOfCrcBytes(data: seq<byte>)
    ensures CrcDetection.OnesIn(CrcBytes(data)) == CrcDetection.Ones(Crc16.Crc(data))
  {
    hide Crc16.Crc, CrcDetection.OnesIn, CrcDetection.Ones;
    var crc := Crc16.Crc(data);
    CrcIsWord(data);
    CrcDetection.OnesJoin(crc / 0x100, crc % 0x100);
    OnesOfTwo(crc % 0x100, crc / 0x100);
  }

  lemma OnesOfTwo(lo: byte, hi: byte)
    ensures CrcDetection.OnesIn([lo, hi]) == CrcDetection.Ones(lo) + CrcDetection.Ones(hi)
  {
    hide CrcDetection.Ones;
    assert [lo, hi][1..] == [hi] && [hi][1..] == [];
    assert CrcDetection.OnesIn([hi]) == CrcDetection.Ones(hi) + CrcDetection.OnesIn([]);
  }

  /** Hence an odd number of flipped bits, anywhere in the frame and its CRC, is
      always rejected. */
  lemma OddFlipsRejected(raw: seq<byte>, bad: seq<byte>)
    requires |raw| == |bad| && ParseRaw(raw).Some? && CrcDetection.Flips(raw, bad) % 2 == 1
    ensures ParseRaw(bad) == None
  {
    hide ParseRaw, CrcDetection.OnesIn, CrcDetection.Flips;
    CrcDetection.FlipsParity(raw, bad);
    ValidFrameIsEven(raw);
    if ParseRaw(bad).Some? { ValidFrameIsEven(bad); }
  }

  lemma CrcBytesAre(data: seq<byte>, lo: byte, hi: byte)
    ensures CrcBytes(data) == [lo, hi] <==> Crc16.Crc(data) == lo + 0x100 * hi
  {
    hide Crc16.Crc;
    CrcIsWord(data);
    WordOf(Crc16.Crc(data), lo, hi);
  }

  lemma WordOf(c: nat, lo: byte, hi: byte)
    requires c < 0x1_0000
    ensures c % 0x100 == lo && c / 0x100 % 0x100 == hi <==> c == lo + 0x100 * hi
  {
  }

  lemma CrcIsWord(data: seq<byte>)
    ensures Crc16.Crc(data) < 0x1_0000
  {
    Crc16.CrcFromConcat(0xFFFF, data, []);
  }

  // ---------- bodies and streams ----------

  /** What a receiver with room for `max` bytes makes of the bytes between two
      delimiters. */
  function Parse(max: nat, body: seq<byte>): Option<LoRaFrame> {
    if 0 < |body| <= max then
      match Decode(body) case None => None case Some(raw) => ParseRaw(raw)
    else None
  }

  function Deliver(max: nat, body: seq<byte>): seq<LoRaFrame> {
    match Parse(max, body) case None => [] case Some(f) => [f]
  }

  /** The frames delivered by the stream s after the undelimited bytes `pending`. */
  function Frames(max: nat, pending: seq<byte>, s: seq<byte>): seq<LoRaFrame>
    decreases |s|
  {
    if s == [] then []
    else if s[0] == 0 then Deliver(max, pending) + Frames(max, [], s[1..])
    else Frames(max, pending + [s[0]], s[1..])
  }

  /** The bytes after the last delimiter. */
  function Rest(pending: seq<byte>, s: seq<byte>): seq<byte>
    decreases |s|
  {
    if s == [] then pending else Rest(if s[0] == 0 then [] else pending + [s[0]], s[1..])
  }

  /** How many nonempty bodies were thrown away. */
  function Drops(max: nat, pending: seq<byte>, s: seq<byte>): nat
    decreases |s|
  {
    if s == [] then 0
    else if s[0] == 0 then
      (if pending != [] && Parse(max, pending) == None then 1 else 0) + Drops(max, [], s[1..])
    else Drops(max, pending + [s[0]], s[1..])
  }

  lemma EndOfStream(max: nat, pending: seq<byte>)
    ensures Frames(max, pending, []) == [] && Rest(pending, []) == pending && Drops(max, pending, []) == 0
  {
  }

  /** The next byte of a stream is a delimiter or joins the body. */
  lemma StreamTurn(max: nat, pending: seq<byte>, s: seq<byte>, i: nat)
    requires i < |s|
    ensures s[i] == 0 ==>
              && Frames(max, pending, s[i..]) == Deliver(max, pending) + Frames(max, [], s[i + 1..])
              && Rest(pending, s[i..]) == Rest([], s[i + 1..])
              && Drops(max, pending, s[i..]) ==
                   (if pending != [] && Parse(max, pending) == None then 1 else 0) + Drops(max, [], s[i + 1..])
    ensures s[i] != 0 ==>
              && Frames(max, pending, s[i..]) == Frames(max, pending + [s[i]], s[i + 1..])
              && Rest(pending, s[i..]) == Rest(pending + [s[i]], s[i + 1..])
              && Drops(max, pending, s[i..]) == Drops(max, pending + [s[i]], s[i + 1..])
  {
    hide Parse, Deliver;
    assert s[i..][0] == s[i] && s[i..][1..] == s[i + 1..];
  }

  /** How many nonempty bodies a delimiter ended. */
  function Bodies(pending: seq<byte>, s: seq<byte>): nat
    decreases |s|
  {
    if s == [] then 0
    else if s[0] == 0 then (if pending == [] then 0 else 1) + Bodies([], s[1..])
    else Bodies(pending + [s[0]], s[1..])
  }

  /** Every one of them is either delivered or counted as dropped. */
  lemma {:induction false} BodiesAccounted(max: nat, pending: seq<byte>, s: seq<byte>)
    ensures |Frames(max, pending, s)| + Drops(max, pending, s) == Bodies(pending, s)
    decreases |s|
  {
    hide Decode, ParseRaw;
    if s == [] {
    } else if s[0] == 0 {
      BodiesAccounted(max, [], s[1..]);
    } else {
      BodiesAccounted(max, pending + [s[0]], s[1..]);
    }
  }

  /** Chunk boundaries do not matter: a stream may be cut anywhere. */
  lemma {:induction false} FramesConcat(max: nat, pending: seq<byte>, a: seq<byte>, b: seq<byte>)
    ensures Frames(max, pending, a + b) == Frames(max, pending, a) + Frames(max, Rest(pending, a), b)
    ensures Rest(pending, a + b) == Rest(Rest(pending, a), b)
    decreases |a|
  {
    hide Deliver;
    if a == [] {
      assert a + b == b;
    } else {
      assert (a + b)[1..] == a[1..] + b;
      FramesConcat(max, if a[0] == 0 then [] else pending + [a[0]], a[1..], b);
    }
  }

  lemma {:induction false} RestSnoc(pending: seq<byte>, a: seq<byte>)
    requires a != [] && a[|a| - 1] == 0
    ensures Rest(pending, a) == []
    decreases |a|
  {
    if |a| == 1 {
      assert Rest([], a[1..]) == [];
    } else {
      RestSnoc(if a[0] == 0 then [] else pending + [a[0]], a[1..]);
    }
  }

  /** Corruption does not outlive the next delimiter: after any bytes that end
      in one, the stream is received as from a fresh start. */
  lemma Resynchronises(max: nat, garbage: seq<byte>, s: seq<byte>)
    requires garbage != [] && garbage[|garbage| - 1] == 0
    ensures Frames(max, [], garbage + s) == Frames(max, [], garbage) + Frames(max, [], s)
  {
    FramesConcat(max, [], garbage, s);
    RestSnoc([], garbage);
  }

  // ---------- the wire ----------

  function Wire(f: LoRaFrame): seq<byte>
    requires Sendable(f)
  {
    Encode(RawFrame(f)) + [0]
  }

  function WireAll(fs: seq<LoRaFrame>): seq<byte>
    requires forall f | f in fs :: Sendable(f)
  {
    if fs == [] then [] else Wire(fs[0]) + WireAll(fs[1..])
  }

  lemma {:induction false} FramesNoZero(max: nat, pending: seq<byte>, s: seq<byte>)
    requires 0 !in s
    ensures Frames(max, pending, s) == [] && Rest(pending, s) == pending + s
    decreases |s|
  {
    if s == [] {
      assert pending + s == pending;
    } else {
      assert 0 !in s[1..] && s[0] in s;
      FramesNoZero(max, pending + [s[0]], s[1..]);
      assert pending + [s[0]] + s[1..] == pending + s;
    }
  }

  lemma ReceivesWire(max: nat, f: LoRaFrame)
    requires Sendable(f) && max >= COBS_MAX
    ensures Frames(max, [], Wire(f)) == [f] && Rest([], Wire(f)) == []
    ensures |Wire(f)| <= 265
  {
    hide Encode, Decode, ParseRaw;
    var raw := RawFrame(f);
    RawLength(f);
    var body := Encode(raw);
    EncodeShape(raw);
    DecodeInvertsEncode(raw);
    ParseInvertsRaw(f);
    FramesConcat(max, [], body, [0]);
    FramesNoZero(max, [], body);
    assert [] + body == body;
    assert [0 as byte][1..] == [];
    assert Frames(max, body, [0]) == Deliver(max, body) + Frames(max, [], []);
    RestSnoc([], Wire(f));
  }

  lemma RawLength(f: LoRaFrame)
    requires Sendable(f)
    ensures |RawFrame(f)| == |f.payload| + 7 <= RAW_MAX
  {
    hide CrcBytes;
  }

  /** Either receiver gets exactly the frames sent, in order, after any garbage
      that ends in a delimiter. */
  lemma {:induction false} ReceivesAll(max: nat, fs: seq<LoRaFrame>)
    requires max >= COBS_MAX && forall f | f in fs :: Sendable(f)
    ensures Frames(max, [], WireAll(fs)) == fs
    decreases |fs|
  {
    hide Wire, Frames;
    if fs == [] {
      assert Frames(max, [], []) == [] by { NoFrames(max); }
    } else {
      assert forall f | f in fs[1..] :: f in fs;
      ReceivesWire(max, fs[0]);
      FramesConcat(max, [], Wire(fs[0]), WireAll(fs[1..]));
      ReceivesAll(max, fs[1..]);
    }
  }

  lemma NoFrames(max: nat)
    ensures Frames(max, [], []) == []
  {
  }

  lemma ResyncReceivesAll(max: nat, garbage: seq<byte>, fs: seq<LoRaFrame>)
    requires max >= COBS_MAX && forall f | f in fs :: Sendable(f)
    requires garbage != [] && garbage[|garbage| - 1] == 0
    ensures Frames(max, [], garbage + WireAll(fs)) == Frames(max, [], garbage) + fs
  {
    hide Frames, WireAll;
    Resynchronises(max, garbage, WireAll(fs));
    ReceivesAll(max, fs);
  }

  // ---------- the two receivers agree ----------

  /** A body too long for the bridge's buffer decodes to more than any frame. */
  lemma LongBodyNoFrame(body: seq<byte>)
    requires |body| > COBS_MAX
    ensures Decode(body).Some? ==> |Decode(body).value| > RAW_MAX
  {
    if Decode(body).Some? { DecodeLength(body); }
  }

  lemma ParseAgrees(body: seq<byte>)
    ensures Parse(COBS_MAX, body) == Parse(PY_MAX, body)
  {
    hide Decode;
    if |body| > COBS_MAX { LongBodyNoFrame(body); }
  }

  /** On every byte stream the bridge's receiver (272-byte buffer) and the
      gateway's (512) deliver the same frames, and cut anywhere. */
  lemma {:induction false} ReceiversAgree(pending: seq<byte>, s: seq<byte>)
    ensures Frames(COBS_MAX, pending, s) == Frames(PY_MAX, pending, s)
    decreases |s|
  {
    hide Parse;
    if s != [] {
      ParseAgrees(pending);
      ReceiversAgree(if s[0] == 0 then [] else pending + [s[0]], s[1..]);
    }
  }

  // ---------- the gateway ----------

  class SerialFramer {
    const max: nat
    var buf: seq<byte>
    var overflow: bool
    var dropped: nat
    ghost var pending: seq<byte>

    ghost predicate Valid()
      reads this
    {
      overflow == (|pending| > max) && buf == if overflow then pending[..max] else pending
    }

    constructor (maxFrame: nat := 512)
      ensures Valid() && max == maxFrame && pending == [] && dropped == 0
    {
      max, buf, overflow, dropped, pending := maxFrame, [], false, 0, [];
    }

    /** The frames yielded for a chunk, wherever the stream was cut. */
    method Feed(chunk: seq<byte>) returns (frames: seq<LoRaFrame>)
      requires Valid()
      modifies this
      ensures Valid()
      ensures frames == Frames(max, old(pending), chunk)
      ensures pending == Rest(old(pending), chunk)
      ensures dropped == old(dropped) + Drops(max, old(pending), chunk)
    {
      hide Parse, Deliver, Frames, Rest, Drops;
      frames := [];
      assert chunk[0..] == chunk;
      EndOfStream(max, pending);
      for i := 0 to |chunk|
        invariant Valid()
        invariant frames + Frames(max, pending, chunk[i..]) == Frames(max, old(pending), chunk)
        invariant Rest(pending, chunk[i..]) == Rest(old(pending), chunk)
        invariant dropped + Drops(max, pending, chunk[i..]) == old(dropped) + Drops(max, old(pending), chunk)
      {
        var b := chunk[i];
        StreamTurn(max, pending, chunk, i);
        if b == 0 {
          var f := Boundary();
          frames := frames + f;
        } else {
          if |buf| < max { buf := buf + [b]; } else { overflow := true; }
          pending := pending + [b];
        }
      }
      assert chunk[|chunk|..] == [];
      EndOfStream(max, pending);
    }

    /** A delimiter: at most one frame, and the state is fresh again. */
    method Boundary() returns (frames: seq<LoRaFrame>)
      requires Valid()
      modifies this
      ensures Valid() && pending == [] && frames == Deliver(max, old(pending))
      ensures dropped == old(dropped) + if old(pending) != [] && Parse(max, old(pending)) == None then 1 else 0
    {
      hide Decode, ParseRaw;
      frames := [];
      pending := [];
      if overflow {
        dropped, buf, overflow := dropped + 1, [], false;
        return;
      }
      if buf == [] { return; }
      var frame := buf;
      buf := [];
      var raw := DecodePy(frame);
      var f := if raw.Some? then ParseRaw(raw.value) else None;
      if f.Some? {
        frames := [f.value];
      } else {
        dropped := dropped + 1;
      }
    }
  }

  datatype SendResult = Bytes(wire: seq<byte>) | ValueError | OverflowError

  /** `encode_frame`, with the exceptions Python raises. */
  method EncodeFrame(mtype: nat, payload: seq<byte>, rssi: int, snr: int) returns (r: SendResult)
    ensures r == if |payload| > 255 then ValueError
                 else if !(-0x8000 <= rssi < 0x8000 && -0x80 <= snr < 0x80) then OverflowError
                 else Bytes(Wire(LoRaFrame(mtype % 0x100, payload, rssi, snr)))
  {
    hide Encode, Crc16.Crc;
    if |payload| > 255 { return ValueError; }
    var raw: seq<byte> := [|payload|, mtype % 0x100] + payload;
    if !(-0x8000 <= rssi < 0x8000 && -0x80 <= snr < 0x80) { return OverflowError; }
    raw := raw + [rssi % 0x100, rssi / 0x100 % 0x100];
    raw := raw + [snr % 0x100];
    assert raw == Covered(|payload|, mtype % 0x100, payload, rssi, snr);
    var crc := Crc16.Compute(raw);
    var enc := EncodePy(raw + [crc % 0x100, crc / 0x100 % 0x100]);
    r := Bytes(enc + [0]);
  }

  // ---------- the bridge ----------

  /** The first half of ll_send: the raw frame in its buffer. */
  method FillRaw(raw: array<byte>, mtype: byte, bytes: seq<byte>, len: byte, rssi: i16, snr: i8) returns (n: nat)
    requires raw.Length == RAW_MAX && |bytes| <= 255
    modifies raw
    ensures n <= RAW_MAX && raw[..n] == WithCrc(Covered(len, mtype, bytes, rssi, snr))
  {
    hide Crc16.Crc;
    Memcpy(raw, 0, [len, mtype]);
    Memcpy(raw, 2, bytes);
    n := 2 + |bytes|;
    assert raw[..n] == [len, mtype] + bytes;
    Memcpy(raw, n, [rssi % 0x100, rssi / 0x100 % 0x100, snr % 0x100]);
    n := n + 3;
    assert raw[..n] == Covered(len, mtype, bytes, rssi, snr);
    var crc := Crc16.Compute(raw[..n]);
    Memcpy(raw, n, [crc % 0x100, crc / 0x100 % 0x100]);
    n := n + 2;
  }

  /** `ll_send`: everything fits its two buffers.  A null payload with a nonzero
      length is sent with the length but without the bytes. */
  method LlSend(mtype: byte, payload: Option<seq<byte>>, len: byte, rssi: i16, snr: i8) returns (wire: seq<byte>)
    requires payload.Some? ==> |payload.value| == len
    ensures payload.Some? || len == 0 ==>
              wire == Wire(LoRaFrame(mtype, if payload.Some? then payload.value else [], rssi, snr))
    ensures payload.None? && len > 0 ==> wire == Encode(WithCrc(Covered(len, mtype, [], rssi, snr))) + [0]
  {
    hide Encode, WithCrc, Covered;
    var raw := new byte[RAW_MAX](_ => 0);
    var n := FillRaw(raw, mtype, if payload.Some? then payload.value else [], len, rssi, snr);
    var enc := new byte[COBS_MAX](_ => 0);
    var elen := EncodeC(raw[..n], enc);
    enc[elen] := 0;
    assert enc[..elen + 1] == enc[..elen] + [0];
    wire := enc[..elen + 1];
  }

  class LlRx {
    const buf: array<byte>
    var n: nat
    var overflow: bool
    ghost var pending: seq<byte>

    ghost predicate Valid()
      reads this, buf
    {
      && buf.Length == COBS_MAX && n <= COBS_MAX
      && overflow == (|pending| > COBS_MAX)
      && buf[..n] == if overflow then pending[..COBS_MAX] else pending
    }

    constructor ()
      ensures Valid() && fresh(buf) && pending == []
    {
      buf := new byte[COBS_MAX](_ => 0);
      n, overflow, pending := 0, false, [];
    }

    /** The frames handed to the callback, wherever the stream was cut. */
    method Feed(data: seq<byte>) returns (frames: seq<LoRaFrame>)
      requires Valid()
      modifies this, buf
      ensures Valid()
      ensures frames == Frames(COBS_MAX, old(pending), data)
      ensures pending == Rest(old(pending), data)
    {
      hide Parse, Deliver;
      frames := [];
      assert data[0..] == data;
      for i := 0 to |data|
        invariant Valid()
        invariant frames + Frames(COBS_MAX, pending, data[i..]) == Frames(COBS_MAX, old(pending), data)
        invariant Rest(pending, data[i..]) == Rest(old(pending), data)
      {
        var b := data[i];
        assert data[i..][0] == b && data[i..][1..] == data[i + 1..];
        if b == 0 {
          var f := Boundary();
          frames := frames + f;
        } else {
          Store(b);
        }
      }
    }

    /** A delimiter: at most one frame, and the state is fresh again. */
    method Boundary() returns (frames: seq<LoRaFrame>)
      requires Valid()
      modifies this, buf
      ensures Valid() && pending == [] && frames == Deliver(COBS_MAX, old(pending))
    {
      hide Parse;
      frames := [];
      if !overflow && n > 0 {
        var f := Receive(buf[..n]);
        if f.Some? { frames := [f.value]; }
      } else {
        OutOfRange(pending);
      }
      pending := [];
      n, overflow := 0, false;
      assert buf[..0] == [];
    }

    /** A body byte is kept while there is room. */
    method Store(b: byte)
      requires Valid()
      modifies this, buf
      ensures Valid() && pending == old(pending) + [b]
    {
      if n < COBS_MAX {
        buf[n] := b;
        n := n + 1;
        assert buf[..n] == pending + [b];
      } else {
        overflow := true;
      }
      pending := pending + [b];
    }

    lemma OutOfRange(body: seq<byte>)
      requires body == [] || |body| > COBS_MAX
      ensures Parse(COBS_MAX, body) == None
    {
    }

    /** Decode, length check and CRC check of one body. */
    method Receive(body: seq<byte>) returns (f: Option<LoRaFrame>)
      requires 0 < |body| <= COBS_MAX
      ensures f == Parse(COBS_MAX, body)
    {
      hide Decode, Crc16.Crc, Signed16, Signed8;
      var raw := new byte[RAW_MAX](_ => 0);
      var rn := DecodeC(body, raw, RAW_MAX);
      if rn < 7 { return None; }
      f := Unpack(raw[..rn]);
    }

    method Unpack(raw: seq<byte>) returns (f: Option<LoRaFrame>)
      requires |raw| >= 7
      ensures f == ParseRaw(raw)
    {
      hide Crc16.Crc, Signed16, Signed8, CrcBytes;
      var rn, plen: nat := |raw|, raw[0];
      if rn != plen + 7 { return None; }
      var crc := Crc16.Compute(raw[..rn - 2]);
      CrcBytesAre(raw[..rn - 2], raw[rn - 2], raw[rn - 1]);
      assert raw[rn - 2..] == [raw[rn - 2], raw[rn - 1]];
      if crc != (raw[rn - 2] as int) + 0x100 * (raw[rn - 1] as int) { return None; }
      f := Some(LoRaFrame(raw[1], raw[2..2 + plen], Signed16(raw[2 + plen], raw[3 + plen]), Signed8(raw[4 + plen])));
    }
  }
}
