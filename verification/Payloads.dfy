/** The payloads of the four message types: packed field by field as the gateway
    packs them, and written at fixed offsets as the C library writes them. */
module Payloads {
  import opened Bytes
  import opened Protocol
  import Frames

  type i32 = x: int | -0x8000_0000 <= x < 0x8000_0000

  datatype Alert = Alert(timestamp: u32, eventClass: byte, confidence: byte, peakAmp: u16, batteryMv: u16)

  datatype Heartbeat = Heartbeat(timestamp: u32, batteryMv: u16, latE7: i32, lonE7: i32, healthFlags: byte,
                                 noiseFloor: u16, fwVersion: byte, resetCount: u16, csiNoise: u16)

  datatype Ack = Ack(ackSeq: u32, status: byte)

  datatype Cmd = Cmd(cmd: byte, param: byte, value: u16)

  // ---------- the gateway ----------

  function AlertBytes(a: Alert): seq<byte> {
    LeBytes(a.timestamp, 4) + [a.eventClass, a.confidence] + LeBytes(a.peakAmp, 2) + LeBytes(a.batteryMv, 2)
  }

  function HeartbeatBytes(hb: Heartbeat): seq<byte> {
    LeBytes(hb.timestamp, 4) + LeBytes(hb.batteryMv, 2) + LeBytes(Unsigned(hb.latE7), 4) + LeBytes(Unsigned(hb.lonE7), 4)
    + [hb.healthFlags] + LeBytes(hb.noiseFloor, 2) + [hb.fwVersion] + LeBytes(hb.resetCount, 2) + LeBytes(hb.csiNoise, 2)
  }

  function AckBytes(a: Ack): seq<byte> { LeBytes(a.ackSeq, 3) + [a.status] }

  function CmdBytes(c: Cmd): seq<byte> { [c.cmd, c.param] + LeBytes(c.value, 2) }

  /** Two's complement in 32 bits. */
  function Unsigned(x: i32): u32 { x % 0x1_0000_0000 }

  function Signed(x: u32): i32 { if x >= 0x8000_0000 then x - 0x1_0000_0000 else x }

  // ---------- the C library ----------

  function Get16(s: seq<byte>, i: nat): u16
    requires i + 2 <= |s|
  {
    Frames.Le16(s, i)
  }

  function Get32(s: seq<byte>, i: nat): u32
    requires i + 4 <= |s|
  {
    Get16(s, i) + 0x1_0000 * Get16(s, i + 2)
  }

  function AlertRead(s: seq<byte>): Alert
    requires |s| >= 10
  {
    Alert(Get32(s, 0), s[4], s[5], Get16(s, 6), Get16(s, 8))
  }

  function HeartbeatRead(s: seq<byte>): Heartbeat
    requires |s| >= 22
  {
    Heartbeat(Get32(s, 0), Get16(s, 4), Signed(Get32(s, 6)), Signed(Get32(s, 10)), s[14], Get16(s, 15), s[17],
              Get16(s, 18), Get16(s, 20))
  }

  function AckRead(s: seq<byte>): Ack
    requires |s| >= 4
  {
    Ack(Frames.Le24(s, 0), s[3])
  }

  function CmdRead(s: seq<byte>): Cmd
    requires |s| >= 4
  {
    Cmd(s[0], s[1], Get16(s, 2))
  }

  method Put16(out: array<byte>, at: nat, v: u16)
    requires at + 2 <= out.Length
    modifies out
    ensures out[..at + 2] == old(out[..at]) + LeBytes(v, 2)
    ensures forall k | at + 2 <= k < out.Length :: out[k] == old(out[k])
  {
    hide LeBytes;
    Frames.Le16Bytes(v);
    out[at], out[at + 1] := U8(v), U8(v / 0x100);
  }

  method Put24(out: array<byte>, at: nat, v: u32)
    requires at + 3 <= out.Length && v < SEQ_SPACE
    modifies out
    ensures out[..at + 3] == old(out[..at]) + LeBytes(v, 3)
    ensures forall k | at + 3 <= k < out.Length :: out[k] == old(out[k])
  {
    hide LeBytes;
    Frames.Le24Bytes(v);
    out[at], out[at + 1], out[at + 2] := U8(v), U8(v / 0x100), U8(v / 0x1_0000);
  }

  method Put32(out: array<byte>, at: nat, v: u32)
    requires at + 4 <= out.Length
    modifies out
    ensures out[..at + 4] == old(out[..at]) + LeBytes(v, 4)
    ensures forall k | at + 4 <= k < out.Length :: out[k] == old(out[k])
  {
    hide LeBytes;
    Halves(v);
    Put16(out, at, v % 0x1_0000);
    Put16(out, at + 2, v / 0x1_0000);
  }

  /** A 32-bit word is stored as its two halves. */
  lemma Halves(v: u32)
    ensures LeBytes(v, 4) == LeBytes(v % 0x1_0000, 2) + LeBytes(v / 0x1_0000, 2)
  {
    hide LeBytes;
    assert Pow256(2) == 0x1_0000;
    LeBytesConcat(v % 0x1_0000, v / 0x1_0000, 2, 2);
  }

  method AlertWrite(a: Alert, out: array<byte>)
    requires out.Length >= 10
    modifies out
    ensures out[..10] == AlertBytes(a)
    ensures forall k | 10 <= k < out.Length :: out[k] == old(out[k])
  {
    hide LeBytes;
    Put32(out, 0, a.timestamp);
    out[4], out[5] := a.eventClass, a.confidence;
    Put16(out, 6, a.peakAmp);
    Put16(out, 8, a.batteryMv);
  }

  method HeartbeatWrite(hb: Heartbeat, out: array<byte>)
    requires out.Length >= 22
    modifies out
    ensures out[..22] == HeartbeatBytes(hb)
    ensures forall k | 22 <= k < out.Length :: out[k] == old(out[k])
  {
    hide LeBytes;
    Put32(out, 0, hb.timestamp);
    Put16(out, 4, hb.batteryMv);
    Put32(out, 6, Unsigned(hb.latE7));
    Put32(out, 10, Unsigned(hb.lonE7));
    ghost var front := out[..14];
    assert front == LeBytes(hb.timestamp, 4) + LeBytes(hb.batteryMv, 2) + LeBytes(Unsigned(hb.latE7), 4)
                    + LeBytes(Unsigned(hb.lonE7), 4);
    out[14] := hb.healthFlags;
    assert out[..15] == front + [hb.healthFlags];
    Put16(out, 15, hb.noiseFloor);
    ghost var middle := out[..17];
    out[17] := hb.fwVersion;
    assert out[..18] == middle + [hb.fwVersion];
    Put16(out, 18, hb.resetCount);
    Put16(out, 20, hb.csiNoise);
  }

  /** A sequence number is cut to 24 bits. */
  method AckWrite(a: Ack, out: array<byte>)
    requires out.Length >= 4
    modifies out
    ensures out[..4] == AckBytes(a.(ackSeq := a.ackSeq % SEQ_SPACE))
    ensures forall k | 4 <= k < out.Length :: out[k] == old(out[k])
  {
    hide LeBytes;
    Put24(out, 0, a.ackSeq % SEQ_SPACE);
    out[3] := a.status;
  }

  method CmdWrite(c: Cmd, out: array<byte>)
    requires out.Length >= 4
    modifies out
    ensures out[..4] == CmdBytes(c)
    ensures forall k | 4 <= k < out.Length :: out[k] == old(out[k])
  {
    hide LeBytes;
    out[0], out[1] := c.cmd, c.param;
    Put16(out, 2, c.value);
  }

  // ---------- what is read is what was written ----------

  lemma Get16Put(s: seq<byte>, i: nat, v: u16)
    requires i + 2 <= |s| && s[i..i + 2] == LeBytes(v, 2)
    ensures Get16(s, i) == v
  {
    hide LeBytes;
    Frames.Le16Bytes(v);
    assert s[i] == s[i..i + 2][0] && s[i + 1] == s[i..i + 2][1];
  }

  lemma Get32Put(s: seq<byte>, i: nat, v: u32)
    requires i + 4 <= |s| && s[i..i + 4] == LeBytes(v, 4)
    ensures Get32(s, i) == v
  {
    hide LeBytes, Get16;
    Halves(v);
    assert s[i..i + 2] == s[i..i + 4][..2] && s[i + 2..i + 4] == s[i..i + 4][2..];
    Get16Put(s, i, v % 0x1_0000);
    Get16Put(s, i + 2, v / 0x1_0000);
  }

  lemma AlertRoundTrip(a: Alert)
    ensures |AlertBytes(a)| == Frames.PayloadLen(Frames.MSG_ALERT) == 10 && AlertRead(AlertBytes(a)) == a
  {
    hide LeBytes, Get16, Get32;
    var s := AlertBytes(a);
    Get32Put(s, 0, a.timestamp);
    Get16Put(s, 6, a.peakAmp);
    Get16Put(s, 8, a.batteryMv);
  }

  lemma HeartbeatRoundTrip(hb: Heartbeat)
    ensures |HeartbeatBytes(hb)| == Frames.PayloadLen(Frames.MSG_HEARTBEAT) == 22
    ensures HeartbeatRead(HeartbeatBytes(hb)) == hb
  {
    hide LeBytes, Get16, Get32;
    var s := HeartbeatBytes(hb);
    Get32Put(s, 0, hb.timestamp);
    Get16Put(s, 4, hb.batteryMv);
    Get32Put(s, 6, Unsigned(hb.latE7));
    Get32Put(s, 10, Unsigned(hb.lonE7));
    Get16Put(s, 15, hb.noiseFloor);
    Get16Put(s, 18, hb.resetCount);
    Get16Put(s, 20, hb.csiNoise);
  }

  lemma AckRoundTrip(a: Ack)
    requires a.ackSeq < SEQ_SPACE
    ensures |AckBytes(a)| == Frames.PayloadLen(Frames.MSG_ACK) == 4 && AckRead(AckBytes(a)) == a
  {
    hide LeBytes, Frames.Sum24;
    Frames.Le24Bytes(a.ackSeq);
    Frames.Join24(a.ackSeq);
  }

  lemma CmdRoundTrip(c: Cmd)
    ensures |CmdBytes(c)| == Frames.PayloadLen(Frames.MSG_CMD) == 4 && CmdRead(CmdBytes(c)) == c
  {
    hide LeBytes, Get16;
    Get16Put(CmdBytes(c), 2, c.value);
  }

  // ---------- the writers are onto: every payload of the right length is one ----------

  lemma Put16Get(s: seq<byte>, i: nat)
    requires i + 2 <= |s|
    ensures LeBytes(Get16(s, i), 2) == s[i..i + 2]
  {
    hide LeBytes;
    Frames.Le16Bytes(Get16(s, i));
    Frames.Split16(s[i], s[i + 1]);
  }

  lemma Put32Get(s: seq<byte>, i: nat)
    requires i + 4 <= |s|
    ensures LeBytes(Get32(s, i), 4) == s[i..i + 4]
  {
    hide LeBytes, Get16;
    Halves(Get32(s, i));
    Put16Get(s, i);
    Put16Get(s, i + 2);
    assert s[i..i + 4] == s[i..i + 2] + s[i + 2..i + 4];
  }

  lemma AlertReadRoundTrip(s: seq<byte>)
    requires |s| == Frames.PayloadLen(Frames.MSG_ALERT)
    ensures AlertBytes(AlertRead(s)) == s
  {
    hide LeBytes, Get16, Get32;
    Put32Get(s, 0);
    Put16Get(s, 6);
    Put16Get(s, 8);
  }

  lemma HeartbeatReadRoundTrip(s: seq<byte>)
    requires |s| == Frames.PayloadLen(Frames.MSG_HEARTBEAT)
    ensures HeartbeatBytes(HeartbeatRead(s)) == s
  {
    hide LeBytes, Get16, Get32;
    Put32Get(s, 0);
    Put16Get(s, 4);
    Put32Get(s, 6);
    Put32Get(s, 10);
    Put16Get(s, 15);
    Put16Get(s, 18);
    Put16Get(s, 20);
  }

  lemma AckReadRoundTrip(s: seq<byte>)
    requires |s| == Frames.PayloadLen(Frames.MSG_ACK)
    ensures AckRead(s).ackSeq < SEQ_SPACE && AckBytes(AckRead(s)) == s
  {
    hide LeBytes;
    Frames.Le24Bytes(Frames.Le24(s, 0));
    Frames.Split24(s[0], s[1], s[2]);
  }

  /** Every frame of a known type fits the radio's buffer, and a heartbeat fills it. */
  lemma LongestFrame(msgType: byte)
    ensures Frames.HDR_LEN + Frames.PayloadLen(msgType) + Frames.TAG_LEN <= Frames.MAX_FRAME
    ensures Frames.HDR_LEN + Frames.PayloadLen(Frames.MSG_HEARTBEAT) + Frames.TAG_LEN == Frames.MAX_FRAME
  {
  }
}
