/** The gateway's trust boundary: every radio frame through header, key, AEAD,
    replay check, acknowledgement and database, in that order; and commands out. */
module Ingest {
  import opened Bytes
  import opened Machine
  import opened Protocol
  import opened Options
  import opened Aead
  import opened Replay
  import opened Delivery
  import opened DeliverySafety
  import Frames
  import Payloads
  import Downlink
  import LoRaLink

  datatype Verdict = Malformed | WrongNet | UnknownNode | AuthFail | ReplayVerdict | OkVerdict

  datatype Row = Row(node: nat, f: Uplink)

  /** What a frame turns out to be before any state is looked at. */
  datatype Reading = Rejected(v: Verdict) | OwnEcho | Genuine(node: nat, f: Uplink)

  /** Header, network, own echoes, key and seal, checked in this order. */
  function Read(block: BlockFn, keys: map<nat, Frames.Key>, netId: byte, frame: seq<byte>): Reading {
    match Frames.UnpackHeader(frame)
    case Ok(h) =>
      if h.netId != netId then Rejected(WrongNet)
      else if h.msgType == Frames.MSG_ACK || h.msgType == Frames.MSG_CMD then OwnEcho
      else if h.nodeId !in keys then Rejected(UnknownNode)
      else (match Frames.Open(block, keys[h.nodeId], frame)
            case Ok((h', pl)) =>
              Genuine(h'.nodeId, Uplink(if h'.msgType == Frames.MSG_ALERT then Alert else Heartbeat, h'.seqNo, pl))
            case AuthError => Rejected(AuthFail)
            case _ => Rejected(Malformed))
    case _ => Rejected(Malformed)
  }

  /** A frame is taken for genuine only if it is, byte for byte, what sealing its
      contents under the node's key yields. */
  lemma GenuineIsSealed(block: BlockFn, keys: map<nat, Frames.Key>, netId: byte, frame: seq<byte>)
    requires Read(block, keys, netId, frame).Genuine?
    ensures var r := Read(block, keys, netId, frame);
            && r.node in keys && r.node < 0x1_0000 && r.f.seqNo < SEQ_SPACE
            && frame == Frames.SealedFrame(block, keys[r.node], UplinkHeader(netId, r.node, r.f), r.f.body)
  {
    hide Frames.SealedFrame;
    var h := Frames.UnpackHeader(frame).value;
    Frames.OpensOnlySealed(block, keys[h.nodeId], frame);
  }

  /** The acknowledgement for a frame: the node's own SEQ, and OK or DUP. */
  function AckFrame(block: BlockFn, key: Frames.Key, netId: byte, node: u16, n: u32, isNew: bool): seq<byte> {
    Frames.SealedFrame(block, key, Frames.Header(netId, Frames.MSG_ACK, node, n),
                       Payloads.AckBytes(Payloads.Ack(n, if isNew then 0 else 1)))
  }

  /** The converse: every frame a known node seals is taken for genuine. */
  lemma SealedIsGenuine(block: BlockFn, keys: map<nat, Frames.Key>, netId: byte, node: u16, f: Uplink)
    requires node in keys && f.seqNo < SEQ_SPACE && |f.body| == Frames.PayloadLen(TypeOf(f.kind))
    ensures Read(block, keys, netId,
                 Frames.SealedFrame(block, keys[node], UplinkHeader(netId, node, f), f.body))
         == Genuine(node, f)
  {
    hide Frames.SealedFrame, Frames.UnpackHeader;
    var h := UplinkHeader(netId, node, f);
    var frame := Frames.SealedFrame(block, keys[node], h, f.body);
    Frames.OpenInvertsSeal(block, keys[node], h, f.body);
    OpenKeepsHeader(block, keys[node], frame);
  }

  /** The bytes of an acknowledgement reach the node as the acknowledgement that
      the gateway meant. */
  lemma AckIsHeard(me: LoRaLink.Identity, n: u32, isNew: bool)
    requires n < SEQ_SPACE
    ensures LoRaLink.AckOf(me, AckFrame(me.block, me.psk, me.netId, me.nodeId, n, isNew)) == Some(Ack(n, n, !isNew))
  {
    hide Frames.SealedFrame, LoRaLink.AckOf;
    LoRaLink.AckPacketHeard(me, n, Payloads.Ack(n, if isNew then 0 else 1));
  }

  /** And the bytes of a command as that command. */
  lemma CommandIsHeard(me: LoRaLink.Identity, n: u32, cmd: Payloads.Cmd)
    requires n < SEQ_SPACE
    ensures var c := Downlink.Command(n, Payloads.CmdBytes(cmd));
            LoRaLink.CommandOf(me, LoRaLink.CommandPacket(me, c)) == Some(c) && Payloads.CmdRead(c.body) == cmd
  {
    hide LoRaLink.CommandOf, LoRaLink.CommandPacket, Payloads.CmdBytes, Payloads.CmdRead;
    Payloads.CmdRoundTrip(cmd);
    var c := Downlink.Command(n, Payloads.CmdBytes(cmd));
    LoRaLink.CommandOfIff(me, LoRaLink.CommandPacket(me, c), c);
  }

  /** A frame whose header names this network, an uplink type and a known node. */
  predicate Addressed(keys: map<nat, Frames.Key>, netId: byte, frame: seq<byte>) {
    var hdr := Frames.UnpackHeader(frame);
    hdr.Ok? && hdr.value.netId == netId && hdr.value.nodeId in keys && !Downward(hdr.value)
  }

  /** Only the gateway sends these. */
  predicate Downward(h: Frames.Header) { h.msgType == Frames.MSG_ACK || h.msgType == Frames.MSG_CMD }

  /** What each reading says about the bytes.  Of the addressed frames, those sealed
      under the named node's key are genuine and the other well-formed ones are
      forgeries; the gateway never takes its own frames for uplink. */
  lemma ReadTellsApart(block: BlockFn, keys: map<nat, Frames.Key>, netId: byte, frame: seq<byte>)
    ensures var hdr := Frames.UnpackHeader(frame);
            var r := Read(block, keys, netId, frame);
            && (r == Rejected(WrongNet) <==> hdr.Ok? && hdr.value.netId != netId)
            && (r == OwnEcho <==> hdr.Ok? && hdr.value.netId == netId && Downward(hdr.value))
            && (r == Rejected(UnknownNode) <==>
                  hdr.Ok? && hdr.value.netId == netId && !Downward(hdr.value) && hdr.value.nodeId !in keys)
            && (r == Rejected(Malformed) <==> !hdr.Ok? || (Addressed(keys, netId, frame) && !Frames.WellFormed(frame)))
    ensures Addressed(keys, netId, frame) ==>
              var sealed := Frames.IsSealed(block, keys[Frames.UnpackHeader(frame).value.nodeId], frame);
              var r := Read(block, keys, netId, frame);
              && (r.Genuine? <==> Frames.WellFormed(frame) && sealed)
              && (r == Rejected(AuthFail) <==> Frames.WellFormed(frame) && !sealed)
  {
    hide Frames.Open, Frames.UnpackHeader, Frames.WellFormed, Frames.IsSealed;
    if Addressed(keys, netId, frame) {
      Frames.OpenTellsApart(block, keys[Frames.UnpackHeader(frame).value.nodeId], frame);
    }
  }

  // ---------- one frame, step by step ----------

  /** What the world does to one call of handle_frame: whether the acknowledgement
      can be sent, which database writes commit, and after how many of the
      machine's four steps a crash cuts the call short. */
  datatype Fate = Fate(acked: bool, saved: bool, logged: bool, inserted: bool, stages: nat)

  /** Replay check, acknowledgement, replay state, row: always in this order. */
  function FrameSteps(f: Uplink, fate: Fate): seq<Step> {
    [GwReceive(f), GwAck(fate.acked), GwSave(fate.saved), GwInsert(fate.logged && fate.inserted)]
  }

  /** Where handle_frame leaves the lane. */
  function Handled(s: Lane, f: Uplink, fate: Fate): Lane { Run(Delivery.Apply, s, Upto(FrameSteps(f, fate), fate.stages)) }

  lemma HandledStages(s: Lane, f: Uplink, fate: Fate)
    ensures Handled(s, f, fate) ==
              if fate.stages == 0 then s
              else var s1 := Received(s, f);
              if fate.stages == 1 then s1
              else var s2 := Acknowledged(s1, fate.acked);
              if fate.stages == 2 then s2
              else var s3 := Saved(s2, fate.saved);
              if fate.stages == 3 then s3 else InsertedRow(s3, fate.logged && fate.inserted)
  {
    hide Run, Upto, Received, Acknowledged, Saved, InsertedRow;
    Stages(Delivery.Apply, s, GwReceive(f), GwAck(fate.acked), GwSave(fate.saved), GwInsert(fate.logged && fate.inserted),
           fate.stages);
  }

  /** Does an acknowledgement go out? */
  predicate Acks(f: Uplink, fate: Fate) { f.kind == Alert && fate.acked && fate.stages >= 2 }

  lemma HandledAcks(s: Lane, f: Uplink, fate: Fate)
    requires s.gw.handler == Free && f in s.air
    ensures Handled(s, f, fate).acks
         == s.acks + (if Acks(f, fate) then {Ack(f.seqNo, f.seqNo, !CheckPy(s.gw.mem, f.seqNo).1)} else {})
  {
    hide CheckPy, Extend, Handled;
    HandledStages(s, f, fate);
  }

  lemma NoAckToSend(s: Lane, sent: bool)
    requires !s.gw.handler.ToAck?
    ensures Acknowledged(s, sent) == s
  {
  }

  predicate Undisturbed(fate: Fate) { fate.saved && fate.logged && fate.inserted && fate.stages >= 4 }

  /** What one undisturbed frame does to the gateway's state for its node. */
  function Turn(gw: Gateway, f: Uplink): Gateway {
    var (mem, isNew) := CheckPy(gw.mem, f.seqNo);
    Gateway(mem, Some(mem), gw.handler, if isNew then gw.rows + [f] else gw.rows)
  }

  lemma TurnIsRun(s: Lane, f: Uplink, fate: Fate)
    requires s.gw.handler == Free && f in s.air && Undisturbed(fate)
    ensures Handled(s, f, fate).gw == Turn(s.gw, f)
  {
    hide CheckPy, Extend, Handled;
    HandledStages(s, f, fate);
  }

  // ---------- the database ----------

  datatype Tables = Tables(raw: seq<(seq<byte>, Verdict)>, alerts: seq<Row>, heartbeats: seq<Row>)

  /** What one genuine frame leaves in the tables. */
  function Stores(t: Tables, frame: seq<byte>, node: nat, f: Uplink, isNew: bool, fate: Fate): Tables {
    if fate.stages < 4 || !fate.saved || !fate.logged then t else
    var logged := t.(raw := t.raw + [(frame, if isNew then OkVerdict else ReplayVerdict)]);
    if !isNew || !fate.inserted then logged
    else if f.kind == Alert then logged.(alerts := t.alerts + [Row(node, f)])
    else logged.(heartbeats := t.heartbeats + [Row(node, f)])
  }

  lemma StoresNothing(t: Tables, frame: seq<byte>, node: nat, f: Uplink, isNew: bool, fate: Fate)
    requires fate.stages < 4
    ensures Stores(t, frame, node, f, isNew, fate) == t
  {
  }

  /** The tables the gateway keeps.  A method commits before it returns, or raises
      without effect; the result stands for which. */
  class Db {
    var replayState: map<nat, Window>
    var alerts: seq<Row>
    var heartbeats: seq<Row>
    var raw: seq<(seq<byte>, Verdict)>
    var downSeq: map<nat, nat>
    ghost var inserted: seq<Row>              // the rows of both tables, in the order of insertion

    ghost function Contents(): Tables
      reads this
    {
      Tables(raw, alerts, heartbeats)
    }

    ghost predicate Valid()
      reads this
    {
      alerts == OfKind(inserted, Alert) && heartbeats == OfKind(inserted, Heartbeat)
    }

    constructor ()
      ensures Valid() && replayState == map[] && raw == [] && downSeq == map[] && inserted == []
    {
      replayState, alerts, heartbeats, raw, downSeq, inserted := map[], [], [], [], map[], [];
    }

    method SaveReplay(node: nat, w: Window, commits: bool)
      modifies this`replayState
      ensures replayState == if commits then old(replayState)[node := w] else old(replayState)
    {
      if commits { replayState := replayState[node := w]; }
    }

    method AddRow(node: nat, f: Uplink, commits: bool)
      requires Valid()
      modifies this`alerts, this`heartbeats, this`inserted
      ensures Valid()
      ensures alerts == if commits && f.kind == Alert then old(alerts) + [Row(node, f)] else old(alerts)
      ensures heartbeats == if commits && f.kind == Heartbeat then old(heartbeats) + [Row(node, f)] else old(heartbeats)
      ensures inserted == if commits then old(inserted) + [Row(node, f)] else old(inserted)
      ensures forall n :: OfNode(inserted, n) == OfNode(old(inserted), n) + if commits && n == node then [f] else []
    {
      hide OfKind, OfNode;
      if !commits { return; }
      if f.kind == Alert { alerts := alerts + [Row(node, f)]; } else { heartbeats := heartbeats + [Row(node, f)]; }
      KindSnoc(inserted, Row(node, f));
      NodeSnoc(inserted, Row(node, f));
      inserted := inserted + [Row(node, f)];
    }

    method AddRaw(frame: seq<byte>, v: Verdict, commits: bool)
      modifies this`raw
      ensures raw == if commits then old(raw) + [(frame, v)] else old(raw)
    {
      if commits { raw := raw + [(frame, v)]; }
    }

    /** Atomic increment of the node's downlink counter; 0 stands for an exception. */
    method NextDownSeq(node: nat, commits: bool) returns (n: nat)
      modifies this`downSeq
      ensures commits ==> n == Count(old(downSeq), node) + 1 && downSeq == old(downSeq)[node := n]
      ensures !commits ==> n == 0 && downSeq == old(downSeq)
    {
      if !commits { return 0; }
      n := Count(downSeq, node) + 1;
      downSeq := downSeq[node := n];
    }
  }

  /** The rows of one table, or of one node, out of all. */
  function OfKind(rows: seq<Row>, kind: Kind): seq<Row> {
    if rows == [] then []
    else
      var n := |rows| - 1;
      OfKind(rows[..n], kind) + if rows[n].f.kind == kind then [rows[n]] else []
  }

  function OfNode(rows: seq<Row>, node: nat): seq<Uplink> {
    if rows == [] then []
    else
      var n := |rows| - 1;
      OfNode(rows[..n], node) + if rows[n].node == node then [rows[n].f] else []
  }

  lemma KindSnoc(rows: seq<Row>, row: Row)
    ensures forall kind :: OfKind(rows + [row], kind) == OfKind(rows, kind) + if row.f.kind == kind then [row] else []
  {
    assert (rows + [row])[..|rows|] == rows;
  }

  lemma NodeSnoc(rows: seq<Row>, row: Row)
    ensures forall n :: OfNode(rows + [row], n) == OfNode(rows, n) + if row.node == n then [row.f] else []
  {
    assert (rows + [row])[..|rows|] == rows;
  }

  // ---------- one row per node and SEQ, over both tables ----------

  predicate Same(a: Row, b: Row) { a.node == b.node && a.f.seqNo == b.f.seqNo }

  predicate Unique(rows: seq<Row>) { forall i, j | 0 <= i < j < |rows| :: !Same(rows[i], rows[j]) }

  predicate DistinctSeqs(fs: seq<Uplink>) { forall i, j | 0 <= i < j < |fs| :: fs[i].seqNo != fs[j].seqNo }

  lemma {:induction false} OfNodeHas(rows: seq<Row>, i: nat) returns (k: nat)
    requires i < |rows|
    ensures k < |OfNode(rows, rows[i].node)| && OfNode(rows, rows[i].node)[k] == rows[i].f
  {
    var n := |rows| - 1;
    if i == n {
      k := |OfNode(rows[..n], rows[i].node)|;
    } else {
      k := OfNodeHas(rows[..n], i);
    }
  }

  lemma {:induction false} UniqueOverall(rows: seq<Row>)
    requires forall n :: DistinctSeqs(OfNode(rows, n))
    ensures Unique(rows)
  {
    if rows != [] {
      var n, last := |rows| - 1, rows[|rows| - 1];
      forall m ensures DistinctSeqs(OfNode(rows[..n], m)) { DistinctFront(rows, m); }
      UniqueOverall(rows[..n]);
      forall i | 0 <= i < n ensures !Same(rows[i], last) {
        if rows[i].node == last.node {
          var k := OfNodeHas(rows[..n], i);
          var all := OfNode(rows, last.node);
          assert all[k] == rows[i].f && all[|all| - 1] == last.f && DistinctSeqs(all);
        }
      }
      forall i, j | 0 <= i < j < |rows| ensures !Same(rows[i], rows[j]) {
        if j < n { assert rows[..n][i] == rows[i] && rows[..n][j] == rows[j]; }
      }
    }
  }

  lemma DistinctFront(rows: seq<Row>, m: nat)
    requires rows != [] && DistinctSeqs(OfNode(rows, m))
    ensures DistinctSeqs(OfNode(rows[..|rows| - 1], m))
  {
    var front, all := OfNode(rows[..|rows| - 1], m), OfNode(rows, m);
    assert all[..|front|] == front;
    forall i, j | 0 <= i < j < |front| ensures front[i].seqNo != front[j].seqNo {
      assert front[i] == all[i] && front[j] == all[j];
    }
  }

  lemma {:induction false} OfKindHas(rows: seq<Row>, kind: Kind, k: nat) returns (i: nat)
    requires k < |OfKind(rows, kind)|
    ensures i < |rows| && rows[i] == OfKind(rows, kind)[k] && rows[i].f.kind == kind
  {
    var n := |rows| - 1;
    if k < |OfKind(rows[..n], kind)| { i := OfKindHas(rows[..n], kind, k); } else { i := n; }
  }

  lemma {:induction false} UniqueInTable(rows: seq<Row>, kind: Kind)
    requires Unique(rows)
    ensures Unique(OfKind(rows, kind))
  {
    if rows != [] {
      var n := |rows| - 1;
      UniqueInTable(rows[..n], kind);
      var front := OfKind(rows[..n], kind);
      forall k | 0 <= k < |front| ensures !Same(front[k], rows[n]) {
        var i := OfKindHas(rows[..n], kind, k);
        assert rows[i] == front[k];
      }
    }
  }

  /** When the rows of every node are those of a reachable state of its machine,
      as HandleFrame keeps them, no (node, SEQ) occurs twice in the alert table and
      the heartbeat table together. */
  lemma OneRowPerSeq(rows: seq<Row>)
    requires forall n :: exists cfg, rtc: u32, steps :: OfNode(rows, n) == At(cfg, rtc, steps).gw.rows
    ensures var a, h := OfKind(rows, Alert), OfKind(rows, Heartbeat);
            Unique(a) && Unique(h) && forall i, j | 0 <= i < |a| && 0 <= j < |h| :: !Same(a[i], h[j])
  {
    hide At, OfNode, OfKind;
    forall n ensures DistinctSeqs(OfNode(rows, n)) {
      var cfg, rtc: u32, steps :| OfNode(rows, n) == At(cfg, rtc, steps).gw.rows;
      RowsAtMostOnce(cfg, rtc, steps);
    }
    UniqueOverall(rows);
    UniqueInTable(rows, Alert);
    UniqueInTable(rows, Heartbeat);
    var a, h := OfKind(rows, Alert), OfKind(rows, Heartbeat);
    forall i, j | 0 <= i < |a| && 0 <= j < |h| ensures !Same(a[i], h[j]) {
      var p := OfKindHas(rows, Alert, i);
      var q := OfKindHas(rows, Heartbeat, j);
      if p < q { assert !Same(rows[p], rows[q]); } else { assert !Same(rows[q], rows[p]); }
    }
  }

  function Stored(windows: map<nat, Window>, node: nat): Option<Window> {
    if node in windows then Some(windows[node]) else None
  }

  function Count(downSeq: map<nat, nat>, node: nat): nat { if node in downSeq then downSeq[node] else 0 }

  // ---------- the daemon ----------

  datatype CmdResult = CmdSent | CmdNotSent | CmdRaised

  class Gate {
    const block: BlockFn
    const keys: map<nat, Frames.Key>
    const netId: byte
    const db: Db
    const ackSender: bool                     // is there a radio link?
    var replay: map<nat, Window>
    ghost var busyWith: nat                   // the node whose frame is being handled,
    ghost var handler: Handler                // and how far it has got

    ghost predicate Valid()
      reads this, db
    {
      replay.Keys == keys.Keys && db.Valid()
    }

    /** The machine's view of one node: memory, disk, handler and rows. */
    ghost function View(node: nat): Gateway
      reads this, db
      requires Valid() && node in keys
    {
      Gateway(replay[node], Stored(db.replayState, node), if node == busyWith then handler else Free, OfNode(db.inserted, node))
    }

    /** Start-up, also after a crash: for every node this is the machine's crash
        step, whatever the gateway was doing when it went down. */
    constructor (block: BlockFn, keys: map<nat, Frames.Key>, netId: byte, db: Db, ackSender: bool)
      requires db.Valid()
      ensures Valid() && this.block == block && this.keys == keys && this.netId == netId && this.db == db
      ensures this.ackSender == ackSender && handler == Free
      ensures forall n, s: Lane | n in keys && s.gw.disk == Stored(db.replayState, n) && s.gw.rows == OfNode(db.inserted, n) ::
                View(n) == Crashed(s).gw
    {
      hide Init;
      this.block, this.keys, this.netId, this.db, this.ackSender := block, keys, netId, db, ackSender;
      replay := map n | n in keys :: if n in db.replayState then db.replayState[n] else Init(8);
      busyWith, handler := 0, Free;
    }

    /** One received frame; `sent` is what goes back to the radio.  A genuine frame
        is, for its node, a run of the machine's four gateway steps or of the first
        few of them, and leaves every other node alone; any other frame changes
        nothing but the log.  `lane` is the machine of the frame's node. */
    method HandleFrame(frame: seq<byte>, fate: Fate, ghost lane: Lane) returns (sent: seq<seq<byte>>)
      requires Valid() && handler == Free
      // only sealed frames open: a frame that opens was radiated by its node
      requires match Read(block, keys, netId, frame)
               case Genuine(node, f) => node in keys && lane.gw == View(node) && f in lane.air
               case _ => true
      modifies this, db
      ensures Valid() && db.downSeq == old(db.downSeq)
      ensures match Read(block, keys, netId, frame)
              case Rejected(v) =>
                sent == [] && db.raw == (if fate.logged then old(db.raw) + [(frame, v)] else old(db.raw))
                && forall n | n in keys :: View(n) == old(View(n))
              case OwnEcho =>
                sent == [] && db.raw == old(db.raw) && forall n | n in keys :: View(n) == old(View(n))
              case Genuine(node, f) =>
                && node in keys && node < 0x1_0000 && f.seqNo < SEQ_SPACE
                && View(node) == Handled(lane, f, Linked(fate)).gw
                && var isNew := CheckPy(lane.gw.mem, f.seqNo).1;
                && sent == Reply(node, f, isNew, Linked(fate))
                && Handled(lane, f, Linked(fate)).acks
                     == lane.acks + (if sent != [] then {Ack(f.seqNo, f.seqNo, !isNew)} else {})
                && db.Contents() == Stores(old(db.Contents()), frame, node, f, isNew, fate)
                && forall n | n in keys && n != node :: View(n) == old(View(n))
    {
      hide Frames.Open, CheckPy, AckFrame, Handled, OfNode, OfKind, Stores;
      sent := [];
      var hdr := Frames.UnpackHeader(frame);
      if !hdr.Ok? { db.AddRaw(frame, Malformed, fate.logged); return; }
      var h := hdr.value;
      if h.netId != netId { db.AddRaw(frame, WrongNet, fate.logged); return; }
      if h.msgType == Frames.MSG_ACK || h.msgType == Frames.MSG_CMD { return; }
      if h.nodeId !in keys { db.AddRaw(frame, UnknownNode, fate.logged); return; }
      var key := keys[h.nodeId];
      var plain := Frames.Open(block, key, frame);
      if plain.AuthError? { db.AddRaw(frame, AuthFail, fate.logged); return; }
      if !plain.Ok? { db.AddRaw(frame, Malformed, fate.logged); return; }
      GenuineIsSealed(block, keys, netId, frame);
      OpenKeepsHeader(block, key, frame);
      var (h', pl) := plain.value;
      var f := Uplink(if h'.msgType == Frames.MSG_ALERT then Alert else Heartbeat, h'.seqNo, pl);
      HandledAcks(lane, f, Linked(fate));
      sent := Process(frame, h'.nodeId, f, fate, lane);
    }

    /** Without a radio link no acknowledgement goes out. */
    function Linked(fate: Fate): Fate { fate.(acked := fate.acked && ackSender) }

    /** What goes back to the radio. */
    function Reply(node: u16, f: Uplink, isNew: bool, fate: Fate): seq<seq<byte>>
      requires node in keys && f.seqNo < SEQ_SPACE
    {
      if Acks(f, fate) then [AckFrame(block, keys[node], netId, node, f.seqNo, isNew)] else []
    }

    /** Replay check, acknowledgement, replay state, row. */
    method Process(frame: seq<byte>, node: u16, f: Uplink, fate: Fate, ghost lane: Lane) returns (sent: seq<seq<byte>>)
      requires Valid() && node in keys && f.seqNo < SEQ_SPACE && handler == Free
      requires lane.gw == View(node) && f in lane.air
      modifies this, db
      ensures Valid() && db.downSeq == old(db.downSeq)
      ensures View(node) == Handled(lane, f, Linked(fate)).gw
      ensures sent == Reply(node, f, CheckPy(lane.gw.mem, f.seqNo).1, Linked(fate))
      ensures db.Contents() == Stores(old(db.Contents()), frame, node, f, CheckPy(lane.gw.mem, f.seqNo).1, fate)
      ensures forall n | n in keys && n != node :: View(n) == old(View(n))
    {
      hide CheckPy, AckFrame, Handled, Received, Acknowledged, Saved, InsertedRow, View, Stores, OfNode, OfKind;
      if fate.stages < 4 { StoresNothing(db.Contents(), frame, node, f, CheckPy(lane.gw.mem, f.seqNo).1, fate); }
      HandledStages(lane, f, Linked(fate));
      sent := [];
      if fate.stages == 0 { return; }
      var w, isNew := CheckReplay(node, f, lane);
      if fate.stages == 1 { return; }
      ghost var checked := Received(lane, f);
      if f.kind == Alert {
        sent := SendAck(node, f, isNew, fate.acked, checked);
      } else {
        NoAckToSend(checked, Linked(fate).acked);
      }
      if fate.stages == 2 { return; }
      Keep(frame, node, f, w, isNew, fate, Acknowledged(checked, Linked(fate).acked));
    }

    method CheckReplay(node: u16, f: Uplink, ghost lane: Lane) returns (w: Window, isNew: bool)
      requires Valid() && node in keys && handler == Free && lane.gw == View(node) && f in lane.air
      modifies this`replay, this`busyWith, this`handler
      ensures Valid() && View(node) == Received(lane, f).gw && Received(lane, f).acks == lane.acks
      ensures Received(lane, f).gw.handler == handler
      ensures (w, isNew) == CheckPy(lane.gw.mem, f.seqNo)
      ensures busyWith == node && handler == (if f.kind == Alert then ToAck(f, isNew) else ToSave(f, isNew))
      ensures replay[node] == w && forall n | n in keys && n != node :: View(n) == old(View(n))
    {
      hide CheckPy, Extend;
      var (v, ok) := CheckPy(replay[node], f.seqNo);
      w, isNew := v, ok;
      replay := replay[node as nat := w];
      busyWith, handler := node, if f.kind == Alert then ToAck(f, isNew) else ToSave(f, isNew);
    }

    /** A missing or failing sender never stops the rest. */
    method SendAck(node: u16, f: Uplink, isNew: bool, works: bool, ghost lane: Lane) returns (sent: seq<seq<byte>>)
      requires Valid() && node in keys && f.seqNo < SEQ_SPACE && busyWith == node && handler == ToAck(f, isNew)
      requires lane.gw == View(node)
      modifies this`handler
      ensures Valid() && View(node) == Acknowledged(lane, works && ackSender).gw && handler == ToSave(f, isNew)
      ensures sent == if works && ackSender then [AckFrame(block, keys[node], netId, node, f.seqNo, isNew)] else []
      ensures Acknowledged(lane, works && ackSender).acks
           == lane.acks + if works && ackSender then {Ack(f.seqNo, f.seqNo, !isNew)} else {}
      ensures forall n | n in keys && n != node :: View(n) == old(View(n))
    {
      hide AckFrame;
      sent := [];
      if ackSender && works { sent := [AckFrame(block, keys[node], netId, node, f.seqNo, isNew)]; }
      handler := ToSave(f, isNew);
    }

    /** The replay state goes to the database before the row. */
    method Keep(frame: seq<byte>, node: u16, f: Uplink, w: Window, isNew: bool, fate: Fate, ghost lane: Lane)
      requires Valid() && node in keys && busyWith == node && handler == ToSave(f, isNew) && replay[node] == w
      requires lane.gw == View(node) && fate.stages >= 3
      modifies this`handler, db
      ensures Valid() && db.downSeq == old(db.downSeq)
      ensures var saved := Saved(lane, fate.saved);
              var end := if fate.stages == 3 then saved else InsertedRow(saved, fate.logged && fate.inserted);
              View(node) == end.gw && end.acks == lane.acks
      ensures db.Contents() == Stores(old(db.Contents()), frame, node, f, isNew, fate)
      ensures forall n | n in keys && n != node :: View(n) == old(View(n))
    {
      hide OfNode, OfKind;
      db.SaveReplay(node, w, fate.saved);
      handler := if fate.saved && isNew then ToInsert(f) else Free;
      if !fate.saved || fate.stages == 3 { return; }

      handler := Free;
      if !isNew {
        db.AddRaw(frame, ReplayVerdict, fate.logged);
        return;
      }
      db.AddRaw(frame, OkVerdict, fate.logged);
      if !fate.logged { return; }
      db.AddRow(node, f, fate.inserted);
    }

    /** A command in `copies` identical frames under a new counter value.  `counted`
        says whether the counter's write commits, `works` how many calls of the
        sender succeed before one raises.  Sealing raises when the counter needs
        more than 24 bits.  For the node this is one step of Downlink's machine. */
    method SendCmd(node: u16, cmd: byte, param: byte, value: u16, copies: nat, counted: bool, works: nat,
                   ghost down: Downlink.State)
      returns (r: CmdResult, sent: seq<seq<byte>>)
      requires down.downSeq == Count(db.downSeq, node)
      modifies db`downSeq
      ensures node !in keys || !ackSender ==> r == CmdNotSent && sent == [] && db.downSeq == old(db.downSeq)
      ensures node in keys && ackSender && !counted ==> r == CmdRaised && sent == [] && db.downSeq == old(db.downSeq)
      ensures node in keys && ackSender && counted ==>
                var n, total := Count(old(db.downSeq), node) + 1, if copies > 1 then copies else 1;
                var body := Payloads.CmdBytes(Payloads.Cmd(cmd, param, value));
                var down' := Downlink.Apply(down, Downlink.Send(body, sent != []));
                && db.downSeq == old(db.downSeq)[node as nat := n] && down'.downSeq == n
                && (if n >= SEQ_SPACE then r == CmdRaised && sent == [] && down'.air == down.air
                    else && r == (if works < total then CmdNotSent else CmdSent)
                         && |sent| == (if works < total then works else total)
                         && (forall i | 0 <= i < |sent| ::
                               sent[i] == Frames.SealedFrame(block, keys[node],
                                            Downlink.CommandHeader(netId, node, Downlink.Command(n, body)), body))
                         && down'.air == down.air + (if sent == [] then {} else {Downlink.Command(n, body)}))
    {
      hide Frames.SealedFrame, Payloads.CmdBytes;
      r, sent := CmdNotSent, [];
      if node !in keys { return; }
      if !ackSender { return; }
      var n := db.NextDownSeq(node, counted);
      if n == 0 { return CmdRaised, []; }
      if n >= SEQ_SPACE { return CmdRaised, []; }
      var body := Payloads.CmdBytes(Payloads.Cmd(cmd, param, value));
      var frame := Frames.SealedFrame(block, keys[node], Downlink.CommandHeader(netId, node, Downlink.Command(n, body)), body);
      var total := if copies > 1 then copies else 1;
      for i := 0 to total
        invariant |sent| == i <= works && forall j | 0 <= j < i :: sent[j] == frame
      {
        if i == works { return CmdNotSent, sent; }
        sent := sent + [frame];
      }
      r := CmdSent;
    }
  }

  lemma OpenKeepsHeader(block: BlockFn, key: Frames.Key, frame: seq<byte>)
    requires Frames.Open(block, key, frame).Ok?
    ensures Frames.UnpackHeader(frame) == Frames.Ok(Frames.Open(block, key, frame).value.0)
  {
  }
}
