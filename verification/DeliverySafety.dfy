/** What holds over whole runs of Delivery's machine. */
module DeliverySafety {
  import opened Bytes
  import opened Machine
  import opened Protocol
  import opened Options
  import opened Replay
  import opened Delivery
  import Frames
  import S = SeqCounter

  function At(cfg: Config, rtc: u32, steps: seq<Step>): Lane { Run(Apply, Start(cfg, rtc), steps) }

  lemma Reached(cfg: Config, rtc: u32, steps: seq<Step>)
    ensures Inv(At(cfg, rtc, steps)) && At(cfg, rtc, steps).cfg == cfg
  {
    hide Inv, Run;
    RunKeeps(cfg, rtc, steps);
  }

  // ---------- nonces ----------

  function TypeOf(kind: Kind): byte {
    match kind case Alert => Frames.MSG_ALERT case Heartbeat => Frames.MSG_HEARTBEAT
  }

  /** The header a node seals a frame under. */
  function UplinkHeader(netId: byte, node: u16, f: Uplink): Frames.Header
    requires f.seqNo < TWO_32
  {
    Frames.Header(netId, TypeOf(f.kind), node, f.seqNo)
  }

  /** No two different uplink frames are ever sealed under one nonce and radiated: a
      nonce comes back only with a retransmission of the very same frame. */
  lemma NonceNeverReused(cfg: Config, rtc: u32, steps: seq<Step>, netId: byte, node: u16, f: Uplink, g: Uplink)
    requires f in At(cfg, rtc, steps).air && g in At(cfg, rtc, steps).air
    ensures 0 < f.seqNo <= SEQ_MAX && 0 < g.seqNo <= SEQ_MAX
    ensures Frames.NonceOf(UplinkHeader(netId, node, f)) == Frames.NonceOf(UplinkHeader(netId, node, g)) ==> f == g
  {
    hide Frames.NonceOf, AckInv, SetsInv, RowsInv, Run;
    Reached(cfg, rtc, steps);
    var h1, h2 := UplinkHeader(netId, node, f), UplinkHeader(netId, node, g);
    if Frames.NonceOf(h1) == Frames.NonceOf(h2) { Frames.HeaderNonceInjective(h1, h2); }
  }

  // ---------- acknowledgements ----------

  /** ACKED means accepted: over every loss, duplication, reordering, node reset
      and gateway restart, a SEQ that sendReliable reported as ACKED had been
      accepted as fresh by the gateway. */
  ghost predicate AckedMeansAccepted(cfg: Config) {
    forall rtc: u32, steps: seq<Step>, n ::
      n in At(cfg, rtc, steps).past.acked ==> n in At(cfg, rtc, steps).past.accepted
  }

  /** It holds exactly when acknowledgements are enabled. */
  lemma AckedMeansAcceptedIff(cfg: Config)
    ensures AckedMeansAccepted(cfg) <==> cfg.ackEnable
  {
    hide At;
    if cfg.ackEnable {
      forall rtc: u32, steps: seq<Step>, n | n in At(cfg, rtc, steps).past.acked
        ensures n in At(cfg, rtc, steps).past.accepted
      {
        AckedWasAccepted(cfg, rtc, steps, n);
      }
    } else {
      var steps := ReportsWithoutGateway(cfg);
      assert 1 in At(cfg, 0, steps).past.acked && 1 !in At(cfg, 0, steps).past.accepted;
    }
  }

  lemma AckedWasAccepted(cfg: Config, rtc: u32, steps: seq<Step>, n: nat)
    requires cfg.ackEnable && n in At(cfg, rtc, steps).past.acked
    ensures n in At(cfg, rtc, steps).past.accepted
  {
    hide Run, NodeInv, SetsInv, RowsInv, Holds;
    Reached(cfg, rtc, steps);
  }

  /** The node has booted, reserved, and taken SEQ 1 for an alert. */
  const FIRST_ALERT: seq<Step> := [NodeBoot] + [FlashWrite(Alert, [], true, true)] + [Ask(Alert, [])]
  const ALERT_1: Uplink := Uplink(Alert, 1, [])

  function Launched(cfg: Config): Lane {
    Start(cfg, 0).(node := Node(S.State(64, 1, 64, S.Idle, [1], 1), Init(8), Sending(ALERT_1, 0)))
  }

  lemma Launch(cfg: Config)
    ensures At(cfg, 0, FIRST_ALERT) == Launched(cfg)
  {
    var s := Start(cfg, 0);
    Snoc(Apply, s, [NodeBoot] + [FlashWrite(Alert, [], true, true)], Ask(Alert, []));
    Snoc(Apply, s, [NodeBoot], FlashWrite(Alert, [], true, true));
    One(Apply, s, NodeBoot);
  }

  /** With acknowledgements disabled every transmission goes out and is reported
      as ACKED although nothing was ever received. */
  lemma ReportsWithoutGateway(cfg: Config) returns (steps: seq<Step>)
    requires !cfg.ackEnable
    ensures At(cfg, 0, steps).past.acked == [1] && At(cfg, 0, steps).past.accepted == {}
    ensures forall t | t in steps :: !GatewayStep(t)
  {
    hide Run;
    Launch(cfg);
    var more := Retransmits(Launched(cfg), 0);
    steps := FIRST_ALERT + more;
    Append(Apply, Start(cfg, 0), FIRST_ALERT, more);
  }

  lemma {:induction false} Retransmits(s: Lane, attempt: nat) returns (steps: seq<Step>)
    requires !s.cfg.ackEnable && s.node.task == Sending(ALERT_1, attempt)
    ensures Run(Apply, s, steps).past.acked == s.past.acked + [1] && Run(Apply, s, steps).past.accepted == s.past.accepted
    ensures forall t | t in steps :: !GatewayStep(t)
    decreases if attempt < s.cfg.retxCount then s.cfg.retxCount - attempt else 0
  {
    hide Run;
    var step := Transmit(false, true);
    One(Apply, s, step);
    if attempt >= s.cfg.retxCount {
      steps := [step];
    } else {
      var more := Retransmits(Apply(s, step), attempt + 1);
      steps := [step] + more;
      Append(Apply, s, [step], more);
    }
  }

  /** While the node waits for a SEQ, an acknowledgement of it that reaches the
      radio ends the wait: the replay filter never holds it back. */
  lemma GenuineAckEndsWait(cfg: Config, rtc: u32, steps: seq<Step>, k: Ack)
    requires At(cfg, rtc, steps).node.task.Waiting? && k in At(cfg, rtc, steps).acks
    requires k.ackSeq == At(cfg, rtc, steps).node.task.f.seqNo
    ensures var s := At(cfg, rtc, steps + [HearAck(k)]);
            s.node.task == Idle && s.past.acked == At(cfg, rtc, steps).past.acked + [k.ackSeq]
  {
    hide Run, Inv, Heard;
    Reached(cfg, rtc, steps);
    GenuineAckPasses(At(cfg, rtc, steps), k);
    Snoc(Apply, Start(cfg, rtc), steps, HearAck(k));
  }

  // ---------- rows ----------

  /** However often a frame arrives and wherever the gateway crashes, a SEQ gets
      at most one row, and every row is a frame the node radiated. */
  lemma RowsAtMostOnce(cfg: Config, rtc: u32, steps: seq<Step>)
    ensures var s := At(cfg, rtc, steps);
            && (forall i, j | 0 <= i < j < |s.gw.rows| :: s.gw.rows[i].seqNo != s.gw.rows[j].seqNo)
            && (forall i | 0 <= i < |s.gw.rows| :: s.gw.rows[i] in s.air)
  {
    hide Run, NodeInv, AckInv, SetsInv, InHand, HasRow;
    Reached(cfg, rtc, steps);
  }

  /** A SEQ that has its row is rejected by the window in memory and by the window
      that the database would restore after a crash. */
  lemma StoredStaysRejected(cfg: Config, rtc: u32, steps: seq<Step>, n: nat)
    requires HasRow(At(cfg, rtc, steps).gw.rows, n)
    ensures var gw := At(cfg, rtc, steps).gw;
            !CheckPy(gw.mem, n).1 && gw.disk.Some? && !CheckPy(gw.disk.value, n).1
  {
    hide Run, NodeInv, AckInv, CheckPy, Holds;
    Reached(cfg, rtc, steps);
    var s := At(cfg, rtc, steps);
    var i :| 0 <= i < |s.gw.rows| && s.gw.rows[i].seqNo == n;
    StepPy(s.gw.mem, s.past.memSet, n);
    StepPy(s.gw.disk.value, s.past.diskSet, n);
  }

  // ---------- is what is ACKED also stored? ----------

  /** Which faults of the gateway may occur. */
  datatype Faults = Faults(crash: bool, save: bool, insert: bool)

  const FAULTLESS: Faults := Faults(false, false, false)

  predicate Allowed(faults: Faults, step: Step) {
    && (step == GwCrash ==> faults.crash)
    && (step == GwSave(false) ==> faults.save)
    && (step == GwInsert(false) ==> faults.insert)
  }

  predicate Within(faults: Faults, steps: seq<Step>) { forall t | t in steps :: Allowed(faults, t) }

  /** The SEQ has its row, or its frame is still being handled. */
  predicate Kept(s: Lane, n: nat) { HasRow(s.gw.rows, n) || InHand(s.gw.handler, n) }

  lemma {:induction false} NothingLost(s: Lane, steps: seq<Step>)
    requires Within(FAULTLESS, steps) && s.past.lost == {}
    ensures Run(Apply, s, steps).past.lost == {}
    decreases |steps|
  {
    hide Apply, Allowed;
    if steps != [] {
      assert steps[0] in steps && forall t | t in steps[1..] :: t in steps;
      KeepsLost(s, steps[0]);
      NothingLost(Apply(s, steps[0]), steps[1..]);
    }
  }

  lemma KeepsLost(s: Lane, step: Step)
    requires Allowed(FAULTLESS, step)
    ensures Apply(s, step).past.lost == s.past.lost
  {
    hide CheckPy, CheckC, S.Apply, Extend;
  }

  /** Every ACKED SEQ is kept or was lost by the gateway, and nothing is lost
      without a crash or a failed write. */
  lemma AckedIsKeptOrLost(cfg: Config, rtc: u32, steps: seq<Step>, n: nat)
    requires cfg.ackEnable && n in At(cfg, rtc, steps).past.acked
    ensures var s := At(cfg, rtc, steps);
            && (Kept(s, n) || n in s.past.lost)
            && (Within(FAULTLESS, steps) ==> s.past.lost == {})
  {
    hide Run, NodeInv, AckInv, SetsInv, InHand, HasRow, Within;
    Reached(cfg, rtc, steps);
    AckedWasAccepted(cfg, rtc, steps, n);
    if Within(FAULTLESS, steps) { NothingLost(Start(cfg, rtc), steps); }
  }

  /** Without a single transmission nothing is ever reported as ACKED. */
  lemma NeverAcked(cfg: Config, rtc: u32, steps: seq<Step>)
    requires cfg.ackEnable && cfg.retxCount == 0
    ensures At(cfg, rtc, steps).past.acked == []
  {
    hide Run, Silent, Apply;
    forall s, t | Silent(s) ensures Silent(Apply(s, t)) { SilentKept(s, t); }
    assert Silent(Start(cfg, rtc)) by { SilentStart(cfg, rtc); }
    Keeps(Apply, s => Silent(s), Start(cfg, rtc), steps);
    SilentAcked(At(cfg, rtc, steps));
  }

  predicate Silent(s: Lane) {
    s.cfg.ackEnable && s.cfg.retxCount == 0 && !s.node.task.Waiting? && s.past.acked == []
  }

  lemma SilentStart(cfg: Config, rtc: u32)
    requires cfg.ackEnable && cfg.retxCount == 0
    ensures Silent(Start(cfg, rtc))
  {
  }

  lemma SilentAcked(s: Lane)
    requires Silent(s)
    ensures s.past.acked == []
  {
  }

  lemma SilentKept(s: Lane, step: Step)
    requires Silent(s)
    ensures Silent(Apply(s, step))
  {
    hide CheckPy, CheckC, S.Apply, Extend;
  }

  /** ACKED means stored: in every run with only these faults, every SEQ that was
      reported as ACKED has its row or is on its way to it. */
  ghost predicate AckedIsKept(cfg: Config, faults: Faults) {
    forall rtc: u32, steps: seq<Step>, n |
      Within(faults, steps) && n in At(cfg, rtc, steps).past.acked :: Kept(At(cfg, rtc, steps), n)
  }

  /** It holds exactly when acknowledgements are enabled and neither a crash nor a
      failed write of either kind can occur, or nothing is ever transmitted. */
  lemma AckedIsKeptIff(cfg: Config, faults: Faults)
    ensures AckedIsKept(cfg, faults) <==> cfg.ackEnable && (cfg.retxCount == 0 || faults == FAULTLESS)
  {
    hide At, Within, Kept;
    if cfg.ackEnable && (cfg.retxCount == 0 || faults == FAULTLESS) {
      forall rtc: u32, steps: seq<Step>, n | Within(faults, steps) && n in At(cfg, rtc, steps).past.acked
        ensures Kept(At(cfg, rtc, steps), n)
      {
        if cfg.retxCount == 0 { NeverAcked(cfg, rtc, steps); }
        AckedIsKeptOrLost(cfg, rtc, steps, n);
      }
    } else if cfg.ackEnable {
      var fault := if faults.crash then CRASH else if faults.save then NOT_SAVED else NOT_INSERTED;
      var steps := AckedButLost(cfg, fault);
      OnlyThisFault(faults, steps, fault);
      assert 1 in At(cfg, 0, steps).past.acked;
    } else {
      var steps := ReportsWithoutGateway(cfg);
      NotKept(cfg, 0, steps, 1);
      NodeStepsAllowed(faults, steps);
      assert 1 in At(cfg, 0, steps).past.acked;
    }
  }

  lemma NodeStepsAllowed(faults: Faults, steps: seq<Step>)
    requires forall t | t in steps :: !GatewayStep(t)
    ensures Within(faults, steps)
  {
  }

  /** What was never accepted has no row and is not on its way to one. */
  lemma NotKept(cfg: Config, rtc: u32, steps: seq<Step>, n: nat)
    requires n !in At(cfg, rtc, steps).past.accepted
    ensures !Kept(At(cfg, rtc, steps), n)
  {
    hide Run, NodeInv, AckInv, InHand;
    Reached(cfg, rtc, steps);
  }

  // The three ways of losing an alert whose acknowledgement has left.
  const CRASH: seq<Step> := [GwCrash]
  const NOT_SAVED: seq<Step> := [GwSave(false)]
  const NOT_INSERTED: seq<Step> := [GwSave(true), GwInsert(false)]

  /** From the launch to the acknowledgement that ends the wait. */
  const ACKED_RUN: seq<Step> := FIRST_ALERT + [Transmit(true, true), GwReceive(ALERT_1), GwAck(true), HearAck(Ack(1, 1, false))]

  lemma AckedRun(cfg: Config)
    requires cfg.ackEnable && cfg.retxCount > 0
    ensures var s := At(cfg, 0, ACKED_RUN);
            s.past.acked == [1] && s.node.task == Idle && s.gw.handler == ToSave(ALERT_1, true) && s.gw.rows == []
  {
    hide Run;
    Launch(cfg);
    var s0 := Launched(cfg);
    Append(Apply, Start(cfg, 0), FIRST_ALERT, [Transmit(true, true), GwReceive(ALERT_1), GwAck(true), HearAck(Ack(1, 1, false))]);
    Four(Apply, s0, Transmit(true, true), GwReceive(ALERT_1), GwAck(true), HearAck(Ack(1, 1, false)));
    var s1 := s0.(node := s0.node.(task := Waiting(ALERT_1, 0)), air := {ALERT_1});
    var s3 := Acknowledged(Received(s1, ALERT_1), true);
    assert Ack(1, 1, false) in s3.acks;
  }

  /** The acknowledgement leaves before anything is written: any of the three
      faults then leaves an ACKED alert without a row, and the node, idle again,
      will not repeat it. */
  lemma AckedButLost(cfg: Config, fault: seq<Step>) returns (steps: seq<Step>)
    requires cfg.ackEnable && cfg.retxCount > 0 && (fault == CRASH || fault == NOT_SAVED || fault == NOT_INSERTED)
    ensures steps == ACKED_RUN + fault
    ensures var s := At(cfg, 0, steps);
            s.past.acked == [1] && s.node.task == Idle && s.gw.handler == Free && s.gw.rows == [] && !Kept(s, 1)
  {
    hide Run, ACKED_RUN;
    AckedRun(cfg);
    steps := ACKED_RUN + fault;
    Append(Apply, Start(cfg, 0), ACKED_RUN, fault);
    LosesAlert(At(cfg, 0, ACKED_RUN), fault);
  }

  lemma LosesAlert(s: Lane, fault: seq<Step>)
    requires s.gw.handler == ToSave(ALERT_1, true) && (fault == CRASH || fault == NOT_SAVED || fault == NOT_INSERTED)
    ensures var t := Run(Apply, s, fault);
            t.gw.handler == Free && t.gw.rows == s.gw.rows && t.node == s.node && t.past.acked == s.past.acked
  {
    hide Run;
    if fault == CRASH {
      One(Apply, s, GwCrash);
    } else if fault == NOT_SAVED {
      One(Apply, s, GwSave(false));
    } else {
      Snoc(Apply, s, [GwSave(true)], GwInsert(false));
      One(Apply, s, GwSave(true));
      assert fault == [GwSave(true)] + [GwInsert(false)];
    }
  }

  lemma OnlyThisFault(faults: Faults, steps: seq<Step>, fault: seq<Step>)
    requires steps == ACKED_RUN + fault && faults != FAULTLESS
    requires fault == if faults.crash then CRASH else if faults.save then NOT_SAVED else NOT_INSERTED
    ensures Within(faults, steps)
  {
  }

  // ---------- an alert that gets through ends well ----------

  /** The gateway finishes the frame in hand, then handles f. */
  const FINISH: seq<Step> := [GwAck(true), GwSave(true), GwInsert(true)]

  function Handling(f: Uplink): seq<Step> { [GwReceive(f), GwAck(true), GwSave(true), GwInsert(true)] }

  lemma Finishes(s: Lane)
    ensures var t := Run(Apply, s, FINISH);
            && t.gw.handler == Free && t.node == s.node && t.air == s.air && t.past.acked == s.past.acked
            && t.past.lost == s.past.lost
  {
    hide Run;
    Three(Apply, s, GwAck(true), GwSave(true), GwInsert(true));
  }

  lemma Handles(s: Lane, f: Uplink)
    requires s.gw.handler == Free && f in s.air
    ensures var t := Run(Apply, s, Handling(f));
            var isNew := CheckPy(s.gw.mem, f.seqNo).1;
            && t.node == s.node && t.past.acked == s.past.acked
            && (f.kind == Alert ==> Ack(f.seqNo, f.seqNo, !isNew) in t.acks)
            && t.gw.rows == if isNew then s.gw.rows + [f] else s.gw.rows
  {
    hide Run, CheckPy, Extend;
    Four(Apply, s, GwReceive(f), GwAck(true), GwSave(true), GwInsert(true));
  }

  /** No SEQ above this frame's has been handed out. */
  ghost predicate Latest(s: Lane, f: Uplink) { forall n | n in s.node.sq.issued :: n <= f.seqNo }

  /** The gateway's window takes the first copy of the node's latest frame for new. */
  lemma FirstCopyIsNew(s: Lane, f: Uplink)
    requires Inv(s) && Latest(s, f)
    ensures CheckPy(s.gw.mem, f.seqNo).1 <==> f.seqNo !in s.past.memSet
  {
    hide CheckPy, Holds, RowsInv, AckInv, S.Inv;
    StepPy(s.gw.mem, s.past.memSet, f.seqNo);
    FreshIsNew(s.past.memSet, 8, f.seqNo);
    forall m | m in s.past.memSet ensures m <= f.seqNo { assert m in s.past.accepted; }
  }

  /** From every reachable state in which the node waits for f and f is on the
      air: if the gateway now gets a copy and nothing more goes wrong, the wait
      ends with ACKED, and f has its row unless the gateway lost it earlier. */
  lemma ArrivalEndsWell(cfg: Config, rtc: u32, steps: seq<Step>, f: Uplink) returns (more: seq<Step>)
    requires var s := At(cfg, rtc, steps); s.node.task.Waiting? && f == s.node.task.f && f in s.air
    ensures exists dup :: more == FINISH + Handling(f) + [HearAck(Ack(f.seqNo, f.seqNo, dup))]
    ensures var s, t := At(cfg, rtc, steps), At(cfg, rtc, steps + more);
            && t.node.task == Idle && t.past.acked == s.past.acked + [f.seqNo]
            && (f.seqNo !in s.past.lost ==> HasRow(t.gw.rows, f.seqNo))
  {
    hide Run, Inv, FINISH, Handling, CheckPy, HasRow, Heard;
    Finishes(At(cfg, rtc, steps));
    var s1 := At(cfg, rtc, steps + FINISH);
    Append(Apply, Start(cfg, rtc), steps, FINISH);
    Reached(cfg, rtc, steps);
    WaitsForAlert(At(cfg, rtc, steps));
    Handles(s1, f);
    var isNew := CheckPy(s1.gw.mem, f.seqNo).1;
    Append(Apply, Start(cfg, rtc), steps + FINISH, Handling(f));
    var k := Ack(f.seqNo, f.seqNo, !isNew);
    GenuineAckEndsWait(cfg, rtc, steps + FINISH + Handling(f), k);
    more := FINISH + Handling(f) + [HearAck(k)];
    assert steps + more == steps + FINISH + Handling(f) + [HearAck(k)];
    Snoc(Apply, Start(cfg, rtc), steps + FINISH + Handling(f), HearAck(k));
    HearingLeavesRows(At(cfg, rtc, steps + FINISH + Handling(f)), k);
    Reached(cfg, rtc, steps + FINISH);
    if f.seqNo !in s1.past.lost { RowAfterHandling(s1, f); }
  }

  lemma HearingLeavesRows(s: Lane, k: Ack)
    ensures Apply(s, HearAck(k)).gw == s.gw
  {
    hide CheckC, Extend;
  }

  lemma WaitsForAlert(s: Lane)
    requires Inv(s) && s.node.task.Waiting?
    ensures s.node.task.f.kind == Alert && Latest(s, s.node.task.f)
  {
  }

  lemma RowAfterHandling(s: Lane, f: Uplink)
    requires Inv(s) && Latest(s, f) && s.gw.handler == Free && f.seqNo !in s.past.lost
    ensures HasRow(if CheckPy(s.gw.mem, f.seqNo).1 then s.gw.rows + [f] else s.gw.rows, f.seqNo)
  {
    hide CheckPy, Holds, AckInv, NodeInv;
    FirstCopyIsNew(s, f);
    if f.seqNo !in s.past.memSet {
      assert (s.gw.rows + [f])[|s.gw.rows|] == f;
    } else {
      assert f.seqNo in s.past.accepted;
    }
  }

  /** A heartbeat is sent once: whatever the radio reports, the node is then idle.
      If it went on the air and the gateway gets it, it has its row. */
  lemma HeartbeatEndsWell(cfg: Config, rtc: u32, steps: seq<Step>, f: Uplink, radiated: bool, ok: bool)
    requires var s := At(cfg, rtc, steps); s.node.task.Sending? && f == s.node.task.f && f.kind == Heartbeat
    ensures At(cfg, rtc, steps + [Transmit(radiated, ok)]).node.task == Idle
    ensures At(cfg, rtc, steps + [Transmit(radiated, ok)]).air
         == At(cfg, rtc, steps).air + if radiated then {f} else {}
    ensures radiated && f.seqNo !in At(cfg, rtc, steps).past.lost ==>
              HasRow(At(cfg, rtc, steps + [Transmit(radiated, ok)] + FINISH + Handling(f)).gw.rows, f.seqNo)
  {
    hide Run, Inv, FINISH, Handling, CheckPy, HasRow, Transmitted;
    var s, step := At(cfg, rtc, steps), Transmit(radiated, ok);
    Snoc(Apply, Start(cfg, rtc), steps, step);
    Reached(cfg, rtc, steps);
    HeartbeatGoes(s, radiated, ok);
    var t := At(cfg, rtc, steps + [step]);
    assert t == Transmitted(s, radiated, ok);
    Append(Apply, Start(cfg, rtc), steps + [step], FINISH);
    Finishes(t);
    Reached(cfg, rtc, steps + [step] + FINISH);
    var u := At(cfg, rtc, steps + [step] + FINISH);
    Append(Apply, Start(cfg, rtc), steps + [step] + FINISH, Handling(f));
    if radiated {
      Handles(u, f);
      if f.seqNo !in s.past.lost { RowAfterHandling(u, f); }
    }
  }

  lemma HeartbeatGoes(s: Lane, radiated: bool, ok: bool)
    requires Inv(s) && s.node.task.Sending? && s.node.task.f.kind == Heartbeat
    ensures var t, f := Transmitted(s, radiated, ok), s.node.task.f;
            && t.node == s.node.(task := Idle) && t.air == s.air + (if radiated then {f} else {})
            && t.past == s.past && Latest(t, f)
  {
  }
}
