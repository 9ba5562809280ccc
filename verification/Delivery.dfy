/** One node, its radio channel and the gateway's share for that node, as a
    machine that moves one transmission, reception, file write or reset at a
    time.  A frame once radiated may be received any number of times, in any
    order, or never.  Frames are symbolic: the only frames that open under the
    node's key are those the node or the gateway sealed. */
module Delivery {
  import opened Bytes
  import opened Machine
  import opened Protocol
  import opened Options
  import opened Replay
  import S = SeqCounter

  datatype Kind = Alert | Heartbeat

  /** `body` is the payload that was sealed. */
  datatype Uplink = Uplink(kind: Kind, seqNo: nat, body: seq<byte>)

  datatype Ack = Ack(hdrSeq: nat, ackSeq: nat, dup: bool)

  /** Between two radio actions the node is idle, about to transmit, or waiting
      for the acknowledgement of its last transmission. */
  datatype Task = Idle | Sending(f: Uplink, attempt: nat) | Waiting(f: Uplink, attempt: nat)

  datatype Config = Config(ackEnable: bool, retxCount: nat)

  datatype Node = Node(sq: S.State, ackWin: Window, task: Task)

  /** Where handle_frame stands with a frame that opened. */
  datatype Handler =
    | Free
    | ToAck(f: Uplink, isNew: bool)
    | ToSave(f: Uplink, isNew: bool)
    | ToInsert(f: Uplink)

  datatype Gateway = Gateway(mem: Window, disk: Option<Window>, handler: Handler, rows: seq<Uplink>)

  /** What happened, for stating properties: the SEQs sendReliable reported as
      ACKED, those the gateway accepted as isNew, those whose row it lost to a
      crash or a failed write, and the sets the replay windows stand for. */
  datatype History = History(acked: seq<nat>, accepted: set<nat>, lost: set<nat>,
                             memSet: set<nat>, diskSet: set<nat>, ackSet: set<nat>)

  datatype Lane = Lane(cfg: Config, node: Node, gw: Gateway, air: set<Uplink>, acks: set<Ack>, past: History)

  datatype Step =
    | NodeReset(rtc: u32)
    | NodeBoot
    | Ask(kind: Kind, body: seq<byte>)
    | FlashWrite(kind: Kind, body: seq<byte>, committed: bool, reported: bool)
    | Grant(kind: Kind, body: seq<byte>)
    | Transmit(radiated: bool, ok: bool)
    | HearAck(k: Ack)
    | Timeout
    | GwReceive(f: Uplink)
    | GwAck(sent: bool)
    | GwSave(ok: bool)
    | GwInsert(ok: bool)
    | GwCrash

  predicate GatewayStep(step: Step) {
    step.GwReceive? || step.GwAck? || step.GwSave? || step.GwInsert? || step.GwCrash?
  }

  // ---------- the node ----------

  /** A step of nextSeq; when it hands out a SEQ the node goes on to send. */
  function SeqStep(s: Lane, step: S.Step, kind: Kind, body: seq<byte>): Lane {
    var n := s.node;
    if n.task != Idle then s
    else
      var sq := S.Apply(n.sq, step);
      if |sq.issued| > |n.sq.issued| then
        s.(node := n.(sq := sq, task := Sending(Uplink(kind, sq.issued[|sq.issued| - 1], body), 0)))
      else s.(node := n.(sq := sq))
  }

  function Reported(s: Lane, n: nat): Lane { s.(past := s.past.(acked := s.past.acked + [n])) }

  /** sendOnce for heartbeats, one turn of sendReliable's loop for alerts. */
  function Transmitted(s: Lane, radiated: bool, ok: bool): Lane {
    match s.node.task
    case Sending(f, a) =>
      var air := if radiated then s.air + {f} else s.air;
      var done := s.(node := s.node.(task := Idle));
      if f.kind == Heartbeat then done.(air := air)
      else if a >= s.cfg.retxCount then
        if s.cfg.ackEnable then done else Reported(done, f.seqNo)
      else if !ok then
        if a + 1 == s.cfg.retxCount then done.(air := air)
        else s.(node := s.node.(task := Sending(f, a + 1)), air := air)
      else if s.cfg.ackEnable then s.(node := s.node.(task := Waiting(f, a)), air := air)
      else s.(node := s.node.(task := Sending(f, a + 1)), air := air)
    case _ => s
  }

  /** An acknowledgement arrives in the wait window. */
  function Heard(s: Lane, k: Ack): Lane {
    if s.node.task.Waiting? && k in s.acks then
      var (win, ok) := CheckC(s.node.ackWin, k.hdrSeq);
      var f := s.node.task.f;
      var node := s.node.(ackWin := win);
      var past := s.past.(ackSet := Extend(s.past.ackSet, s.node.ackWin.size, k.hdrSeq));
      if ok && k.ackSeq == f.seqNo % SEQ_SPACE then
        Reported(s.(node := node.(task := Idle), past := past), f.seqNo)
      else s.(node := node, past := past)
    else s
  }

  // ---------- the gateway ----------

  function Received(s: Lane, f: Uplink): Lane {
    if s.gw.handler == Free && f in s.air then
      var (mem, isNew) := CheckPy(s.gw.mem, f.seqNo);
      s.(gw := s.gw.(mem := mem, handler := if f.kind == Alert then ToAck(f, isNew) else ToSave(f, isNew)),
         past := s.past.(memSet := Extend(s.past.memSet, s.gw.mem.size, f.seqNo),
                         accepted := if isNew then s.past.accepted + {f.seqNo} else s.past.accepted))
    else s
  }

  function Acknowledged(s: Lane, sent: bool): Lane {
    match s.gw.handler
    case ToAck(f, isNew) =>
      s.(gw := s.gw.(handler := ToSave(f, isNew)),
         acks := if sent then s.acks + {Ack(f.seqNo, f.seqNo, !isNew)} else s.acks)
    case _ => s
  }

  function Lost(s: Lane, isNew: bool, n: nat): History {
    if isNew then s.past.(lost := s.past.lost + {n}) else s.past
  }

  function Saved(s: Lane, ok: bool): Lane {
    match s.gw.handler
    case ToSave(f, isNew) =>
      if !ok then s.(gw := s.gw.(handler := Free), past := Lost(s, isNew, f.seqNo))
      else s.(gw := s.gw.(disk := Some(s.gw.mem), handler := if isNew then ToInsert(f) else Free),
              past := s.past.(diskSet := s.past.memSet))
    case _ => s
  }

  function InsertedRow(s: Lane, ok: bool): Lane {
    match s.gw.handler
    case ToInsert(f) =>
      if ok then s.(gw := s.gw.(handler := Free, rows := s.gw.rows + [f]))
      else s.(gw := s.gw.(handler := Free), past := Lost(s, true, f.seqNo))
    case _ => s
  }

  /** Everything in memory is gone; the window comes back from the database. */
  function Crashed(s: Lane): Lane {
    var past := match s.gw.handler
      case Free => s.past
      case ToAck(f, isNew) => Lost(s, isNew, f.seqNo)
      case ToSave(f, isNew) => Lost(s, isNew, f.seqNo)
      case ToInsert(f) => Lost(s, true, f.seqNo);
    s.(gw := s.gw.(mem := if s.gw.disk.Some? then s.gw.disk.value else Init(8), handler := Free),
       past := past.(memSet := s.past.diskSet))
  }

  function Apply(s: Lane, step: Step): Lane {
    match step
    case NodeReset(rtc) =>
      s.(node := Node(S.Apply(s.node.sq, S.Reset(rtc)), Init(8), Idle), past := s.past.(ackSet := {}))
    case NodeBoot => SeqStep(s, S.Boot, Heartbeat, [])
    case Ask(kind, body) => SeqStep(s, S.Ask, kind, body)
    case FlashWrite(kind, body, committed, reported) => SeqStep(s, S.Write(committed, reported), kind, body)
    case Grant(kind, body) => SeqStep(s, S.Grant, kind, body)
    case Transmit(radiated, ok) => Transmitted(s, radiated, ok)
    case HearAck(k) => Heard(s, k)
    case Timeout =>
      if s.node.task.Waiting? then s.(node := s.node.(task := Sending(s.node.task.f, s.node.task.attempt + 1))) else s
    case GwReceive(f) => Received(s, f)
    case GwAck(sent) => Acknowledged(s, sent)
    case GwSave(ok) => Saved(s, ok)
    case GwInsert(ok) => InsertedRow(s, ok)
    case GwCrash => Crashed(s)
  }

  function Start(cfg: Config, rtc: u32): Lane {
    Lane(cfg, Node(S.Factory(rtc), Init(8), Idle), Gateway(Init(8), None, Free, []), {}, {},
         History([], {}, {}, {}, {}, {}))
  }

  // ---------- the invariant ----------

  /** The node's last SEQ is the one it is busy with, and no other frame has it. */
  ghost predicate NodeInv(s: Lane) {
    && S.Inv(s.node.sq)
    && (forall f | f in s.air :: f.seqNo in s.node.sq.issued)
    && (forall f, g | f in s.air && g in s.air && f.seqNo == g.seqNo :: f == g)
    && (s.node.task.Waiting? ==> s.node.task.f.kind == Alert)
    && (s.node.task != Idle ==>
          && s.node.task.f.seqNo in s.node.sq.issued
          && (forall n | n in s.node.sq.issued :: n <= s.node.task.f.seqNo)
          && (forall f | f in s.air && f.seqNo == s.node.task.f.seqNo :: f == s.node.task.f))
  }

  /** Accepted, or overtaken by something accepted. */
  ghost predicate Settled(accepted: set<nat>, n: nat) {
    n in accepted || exists m :: m in accepted && m > n
  }

  ghost predicate AckInv(s: Lane) {
    && (forall k | k in s.acks :: k.hdrSeq == k.ackSeq && k.ackSeq in s.node.sq.issued && Settled(s.past.accepted, k.ackSeq))
    && Holds(s.node.ackWin, s.past.ackSet, 31) && s.node.ackWin.size == 8
    && (forall a | a in s.past.ackSet :: a in s.node.sq.issued && (s.node.task != Idle ==> a < s.node.task.f.seqNo))
    && (s.cfg.ackEnable ==> forall n | n in s.past.acked :: n in s.past.accepted)
  }

  ghost predicate SetsInv(s: Lane) {
    && Holds(s.gw.mem, s.past.memSet, 32) && s.gw.mem.size == 8
    && (s.gw.disk.Some? ==> Holds(s.gw.disk.value, s.past.diskSet, 32) && s.gw.disk.value.size == 8)
    && (s.gw.disk.None? ==> s.past.diskSet == {})
    && s.past.diskSet <= s.past.memSet <= s.past.accepted
    && (forall n | n in s.past.accepted :: n in s.node.sq.issued)
  }

  predicate InHand(h: Handler, n: nat) {
    match h
    case Free => false
    case ToAck(f, isNew) => isNew && f.seqNo == n
    case ToSave(f, isNew) => isNew && f.seqNo == n
    case ToInsert(f) => f.seqNo == n
  }

  predicate HasRow(rows: seq<Uplink>, n: nat) { exists i | 0 <= i < |rows| :: rows[i].seqNo == n }

  ghost predicate RowsInv(s: Lane) {
    && (forall i | 0 <= i < |s.gw.rows| :: s.gw.rows[i] in s.air && s.gw.rows[i].seqNo in s.past.diskSet)
    && (forall i, j | 0 <= i < j < |s.gw.rows| :: s.gw.rows[i].seqNo != s.gw.rows[j].seqNo)
    && (s.gw.handler != Free ==> s.gw.handler.f in s.air)
    && (forall n | InHand(s.gw.handler, n) :: n in s.past.memSet && !HasRow(s.gw.rows, n))
    && (s.gw.handler.ToInsert? ==> s.gw.handler.f.seqNo in s.past.diskSet)
    && (s.gw.handler.ToAck? ==> Settled(s.past.accepted, s.gw.handler.f.seqNo))
    && (forall n | n in s.past.accepted :: HasRow(s.gw.rows, n) || InHand(s.gw.handler, n) || n in s.past.lost)
  }

  ghost predicate Inv(s: Lane) { NodeInv(s) && AckInv(s) && SetsInv(s) && RowsInv(s) }

  // ---------- every step keeps it ----------

  lemma SeqStepKeeps(s: Lane, step: S.Step, kind: Kind, body: seq<byte>)
    requires Inv(s) && !step.Reset?
    ensures Inv(SeqStep(s, step, kind, body))
  {
    hide Holds, Settled, S.Inv, HasRow, InHand;
    if s.node.task == Idle {
      S.ApplyKeeps(s.node.sq, step);
      IssuedGrows(s.node.sq, step);
    }
  }

  /** A step of the counter hands out at most one SEQ, above all before it. */
  lemma IssuedGrows(q: S.State, step: S.Step)
    requires S.Inv(q)
    ensures var q' := S.Apply(q, step);
            q'.issued == q.issued ||
            (|q'.issued| == |q.issued| + 1 && q'.issued == q.issued + [q'.issued[|q.issued|]]
             && forall n | n in q.issued :: n < q'.issued[|q.issued|])
  {
    hide S.Increasing;
  }

  lemma TransmitKeeps(s: Lane, radiated: bool, ok: bool)
    requires Inv(s)
    ensures Inv(Transmitted(s, radiated, ok))
  {
    hide NodeInv, AckInv, SetsInv, RowsInv, Transmitted;
    TransmitKeepsNode(s, radiated, ok);
    TransmitKeepsAcks(s, radiated, ok);
    TransmitKeepsGateway(s, radiated, ok);
  }

  lemma TransmitKeepsNode(s: Lane, radiated: bool, ok: bool)
    requires NodeInv(s)
    ensures NodeInv(Transmitted(s, radiated, ok))
  {
    hide S.Inv;
  }

  lemma TransmitKeepsAcks(s: Lane, radiated: bool, ok: bool)
    requires AckInv(s)
    ensures AckInv(Transmitted(s, radiated, ok))
  {
    hide Holds, Settled;
  }

  lemma TransmitKeepsGateway(s: Lane, radiated: bool, ok: bool)
    requires SetsInv(s) && RowsInv(s)
    ensures SetsInv(Transmitted(s, radiated, ok)) && RowsInv(Transmitted(s, radiated, ok))
  {
    hide Transmitted, SetsInv, RowsInv;
    TransmitTouches(s, radiated, ok);
    GatewaySideKept(s, Transmitted(s, radiated, ok));
  }

  lemma TransmitTouches(s: Lane, radiated: bool, ok: bool)
    ensures var t := Transmitted(s, radiated, ok);
            t.gw == s.gw && t.node.sq == s.node.sq && s.air <= t.air && t.past == s.past.(acked := t.past.acked)
  {
  }

  lemma GatewaySideKept(s: Lane, t: Lane)
    requires SetsInv(s) && RowsInv(s)
    requires t.gw == s.gw && t.node.sq == s.node.sq && s.air <= t.air && t.past == s.past.(acked := t.past.acked)
    ensures SetsInv(t) && RowsInv(t)
  {
    hide Holds, Settled, HasRow, InHand;
  }

  lemma IssuedSmall(q: S.State, n: nat)
    requires S.Inv(q) && n in q.issued
    ensures 0 < n < SEQ_SPACE
  {
  }

  /** An acknowledgement of the SEQ being waited for is never taken for a replay. */
  lemma GenuineAckPasses(s: Lane, k: Ack)
    requires Inv(s) && s.node.task.Waiting? && k in s.acks && k.ackSeq == s.node.task.f.seqNo
    ensures CheckC(s.node.ackWin, k.hdrSeq).1
    ensures Heard(s, k).past.acked == s.past.acked + [k.ackSeq] && Heard(s, k).node.task == Idle
  {
    hide Holds, Settled, S.Inv, CheckC;
    IssuedSmall(s.node.sq, k.ackSeq);
    StepC(s.node.ackWin, s.past.ackSet, k.hdrSeq);
  }

  lemma HearKeeps(s: Lane, k: Ack)
    requires Inv(s)
    ensures Inv(Heard(s, k))
  {
    hide Holds, S.Inv, CheckC, HasRow, InHand, RowsInv, SetsInv;
    if s.node.task.Waiting? && k in s.acks {
      IssuedSmall(s.node.sq, k.hdrSeq);
      IssuedSmall(s.node.sq, s.node.task.f.seqNo);
      StepC(s.node.ackWin, s.past.ackSet, k.hdrSeq);
      SizeKept(s.node.ackWin, k.hdrSeq);
      AcceptedIssued(s);
      if k.ackSeq == s.node.task.f.seqNo { GenuineAckPasses(s, k); }
      HeardRest(s, k);
    }
  }

  lemma AcceptedIssued(s: Lane)
    requires SetsInv(s)
    ensures forall n | n in s.past.accepted :: n in s.node.sq.issued
  {
  }

  lemma HeardRest(s: Lane, k: Ack)
    requires SetsInv(s) && RowsInv(s)
    ensures SetsInv(Heard(s, k)) && RowsInv(Heard(s, k))
  {
    hide Holds, CheckC, Extend, HasRow, InHand;
  }

  lemma ReceiveKeeps(s: Lane, f: Uplink)
    requires Inv(s)
    ensures Inv(Received(s, f))
  {
    hide Holds, S.Inv, CheckPy;
    if s.gw.handler == Free && f in s.air {
      StepPy(s.gw.mem, s.past.memSet, f.seqNo);
      SizeKept(s.gw.mem, f.seqNo);
      FreshIsNew(s.past.memSet, 8, f.seqNo);
    }
  }

  /** What is accepted was not accepted before; what is rejected was accepted or
      lies below something accepted. */
  lemma FreshIsNew(accepted: set<nat>, size: nat, n: nat)
    ensures Fresh(accepted, size, n) ==> n !in accepted
    ensures !Fresh(accepted, size, n) ==> n in accepted || exists m :: m in accepted && m > n
  {
    if !Fresh(accepted, size, n) && n !in accepted {
      var m :| m in accepted && m >= n;
    }
  }

  lemma AckKeeps(s: Lane, sent: bool)
    requires Inv(s)
    ensures Inv(Acknowledged(s, sent))
  {
    hide Holds, Settled, S.Inv, HasRow;
  }

  lemma SaveKeeps(s: Lane, ok: bool)
    requires Inv(s)
    ensures Inv(Saved(s, ok))
  {
    hide Holds, Settled, S.Inv, HasRow;
  }

  lemma InsertKeeps(s: Lane, ok: bool)
    requires Inv(s)
    ensures Inv(InsertedRow(s, ok))
  {
    hide NodeInv, AckInv, SetsInv, RowsInv, InsertedRow;
    InsertKeepsOthers(s, ok);
    InsertKeepsRows(s, ok);
  }

  lemma InsertKeepsOthers(s: Lane, ok: bool)
    requires NodeInv(s) && AckInv(s) && SetsInv(s)
    ensures NodeInv(InsertedRow(s, ok)) && AckInv(InsertedRow(s, ok)) && SetsInv(InsertedRow(s, ok))
  {
    hide Holds, Settled, S.Inv;
  }

  lemma InsertKeepsRows(s: Lane, ok: bool)
    requires RowsInv(s)
    ensures RowsInv(InsertedRow(s, ok))
  {
    hide Settled;
    if s.gw.handler.ToInsert? && ok {
      var rows := s.gw.rows + [s.gw.handler.f];
      assert InHand(s.gw.handler, s.gw.handler.f.seqNo);
      assert rows[|s.gw.rows|].seqNo == s.gw.handler.f.seqNo;
      forall n | HasRow(s.gw.rows, n) ensures HasRow(rows, n) {
        var i :| 0 <= i < |s.gw.rows| && s.gw.rows[i].seqNo == n;
        assert rows[i].seqNo == n;
      }
    }
  }

  lemma CrashKeeps(s: Lane)
    requires Inv(s)
    ensures Inv(Crashed(s))
  {
    hide Settled, S.Inv, HasRow;
  }

  lemma ResetKeeps(s: Lane, rtc: u32)
    requires Inv(s)
    ensures Inv(Apply(s, NodeReset(rtc)))
  {
    hide Settled, HasRow, InHand;
    S.ApplyKeeps(s.node.sq, S.Reset(rtc));
  }

  lemma ApplyKeeps(s: Lane, step: Step)
    requires Inv(s)
    ensures Inv(Apply(s, step))
  {
    hide Inv, SeqStep, Transmitted, Heard, Received, Acknowledged, Saved, InsertedRow, Crashed;
    match step
    case NodeReset(rtc) => ResetKeeps(s, rtc);
    case NodeBoot => SeqStepKeeps(s, S.Boot, Heartbeat, []);
    case Ask(kind, body) => SeqStepKeeps(s, S.Ask, kind, body);
    case FlashWrite(kind, body, committed, reported) => SeqStepKeeps(s, S.Write(committed, reported), kind, body);
    case Grant(kind, body) => SeqStepKeeps(s, S.Grant, kind, body);
    case Transmit(radiated, ok) => TransmitKeeps(s, radiated, ok);
    case HearAck(k) => HearKeeps(s, k);
    case Timeout => TimeoutKeeps(s);
    case GwReceive(f) => ReceiveKeeps(s, f);
    case GwAck(sent) => AckKeeps(s, sent);
    case GwSave(ok) => SaveKeeps(s, ok);
    case GwInsert(ok) => InsertKeeps(s, ok);
    case GwCrash => CrashKeeps(s);
  }

  lemma TimeoutKeeps(s: Lane)
    requires Inv(s)
    ensures Inv(Apply(s, Timeout))
  {
    hide Holds, Settled, S.Inv, HasRow, InHand;
  }

  lemma {:induction false} RunInv(s: Lane, steps: seq<Step>)
    requires Inv(s)
    ensures Inv(Run(Apply, s, steps))
    decreases |steps|
  {
    hide Inv, Apply;
    if steps != [] {
      ApplyKeeps(s, steps[0]);
      RunInv(Apply(s, steps[0]), steps[1..]);
    }
  }

  /** Every reachable state keeps it. */
  lemma RunKeeps(cfg: Config, rtc: u32, steps: seq<Step>)
    ensures var s := Run(Apply, Start(cfg, rtc), steps); Inv(s) && s.cfg == cfg
  {
    hide Inv, Apply, Run;
    StartOk(cfg, rtc);
    forall s, t | Inv(s) && s.cfg == cfg ensures Inv(Apply(s, t)) && Apply(s, t).cfg == cfg {
      ApplyKeeps(s, t);
      ConfigKept(s, t);
    }
    Keeps(Apply, s => Inv(s) && s.cfg == cfg, Start(cfg, rtc), steps);
  }

  lemma ConfigKept(s: Lane, step: Step)
    ensures Apply(s, step).cfg == s.cfg
  {
    hide CheckC, CheckPy, S.Apply;
  }

  lemma StartOk(cfg: Config, rtc: u32)
    ensures Inv(Start(cfg, rtc)) && Start(cfg, rtc).cfg == cfg
  {
  }
}
