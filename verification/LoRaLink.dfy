/** The node's link layer: the acknowledgement wait, the retransmission loop and
    the command branch of the main loop, each shown to be a run of the machines
    in Delivery and Downlink.  What the radio reports is a parameter: the packets
    that arrive in a window, and whether a transmission succeeded. */
module LoRaLink {
  import opened Bytes
  import opened Machine
  import opened Protocol
  import opened Options
  import opened Aead
  import opened Replay
  import opened Delivery
  import Frames
  import Payloads
  import Downlink
  import DeliverySafety

  datatype TxOutcome = ACKED | SENT_NO_ACK | RADIO_ERROR

  /** What happens while the node is busy with one attempt: the gateway goes on,
      and packets arrive at the node's radio. */
  datatype Event = Elsewhere(step: Step) | Packet(bytes: seq<byte>)

  /** One transmission: what the gateway does before it, whether the frame goes on
      the air, the result the radio reports, and what happens in its wait window
      if one opens. */
  datatype Attempt = Attempt(before: seq<Step>, radiated: bool, ok: bool, events: seq<Event>)

  /** The packets alone, which is all the node's code sees. */
  function Packets(events: seq<Event>): seq<seq<byte>>
    decreases |events|
  {
    if events == [] then []
    else (match events[0] case Elsewhere(_) => [] case Packet(p) => [p]) + Packets(events[1..])
  }

  datatype Identity = Identity(block: BlockFn, psk: Frames.Key, netId: byte, nodeId: u16)

  /** The acknowledgement for this node that a packet carries, if it carries one. */
  function AckOf(me: Identity, packet: seq<byte>): Option<Ack> {
    if packet == [] || |packet| > Frames.MAX_FRAME then None else
    match Frames.Open(me.block, me.psk, packet)
    case Ok((h, pl)) =>
      if h.netId == me.netId && h.msgType == Frames.MSG_ACK && h.nodeId == me.nodeId && |pl| == 4 then
        var ack := Payloads.AckRead(pl);
        Some(Ack(h.seqNo, ack.ackSeq, ack.status != 0))
      else None
    case _ => None
  }

  /** The command for this node that a packet carries, if it carries one. */
  function CommandOf(me: Identity, packet: seq<byte>): Option<Downlink.Command> {
    if packet == [] || |packet| > Frames.MAX_FRAME then None else
    match Frames.Open(me.block, me.psk, packet)
    case Ok((h, pl)) =>
      if h.netId == me.netId && h.msgType == Frames.MSG_CMD && h.nodeId == me.nodeId then
        Some(Downlink.Command(h.seqNo, pl))
      else None
    case _ => None
  }

  /** The frame that acknowledges `ack.ackSeq` to this node under header SEQ n. */
  function AckPacket(me: Identity, n: u32, ack: Payloads.Ack): seq<byte> {
    Frames.SealedFrame(me.block, me.psk, Frames.Header(me.netId, Frames.MSG_ACK, me.nodeId, n), Payloads.AckBytes(ack))
  }

  /** A packet is taken for an acknowledgement exactly when it is, byte for byte, an
      acknowledgement sealed for this node under its key: no other type, network or
      destination will do. */
  lemma AckOfIff(me: Identity, p: seq<byte>, k: Ack)
    ensures AckOf(me, p) == Some(k) <==>
              k.hdrSeq < SEQ_SPACE && k.ackSeq < SEQ_SPACE
              && exists status: byte :: k.dup == (status != 0) && p == AckPacket(me, k.hdrSeq, Payloads.Ack(k.ackSeq, status))
  {
    hide Frames.SealedFrame, Frames.Open, Payloads.AckRead, Payloads.AckBytes;
    if AckOf(me, p) == Some(k) {
      Frames.OpensOnlySealed(me.block, me.psk, p);
      var (h, pl) := Frames.Open(me.block, me.psk, p).value;
      Payloads.AckReadRoundTrip(pl);
      assert p == AckPacket(me, k.hdrSeq, Payloads.AckRead(pl));
    }
    if k.hdrSeq < SEQ_SPACE && k.ackSeq < SEQ_SPACE {
      forall status: byte | k.dup == (status != 0) && p == AckPacket(me, k.hdrSeq, Payloads.Ack(k.ackSeq, status))
        ensures AckOf(me, p) == Some(k)
      {
        AckPacketHeard(me, k.hdrSeq, Payloads.Ack(k.ackSeq, status));
      }
    }
  }

  lemma AckPacketHeard(me: Identity, n: u32, ack: Payloads.Ack)
    requires n < SEQ_SPACE && ack.ackSeq < SEQ_SPACE
    ensures AckOf(me, AckPacket(me, n, ack)) == Some(Ack(n, ack.ackSeq, ack.status != 0))
  {
    hide Frames.SealedFrame, Frames.Open, Payloads.AckRead, Payloads.AckBytes;
    Payloads.AckRoundTrip(ack);
    Frames.OpenInvertsSeal(me.block, me.psk, Frames.Header(me.netId, Frames.MSG_ACK, me.nodeId, n), Payloads.AckBytes(ack));
  }

  /** The frame that carries a command to this node. */
  function CommandPacket(me: Identity, c: Downlink.Command): seq<byte>
    requires c.seqNo < TWO_32
  {
    Frames.SealedFrame(me.block, me.psk, Downlink.CommandHeader(me.netId, me.nodeId, c), c.body)
  }

  /** The same for commands. */
  lemma CommandOfIff(me: Identity, p: seq<byte>, c: Downlink.Command)
    ensures CommandOf(me, p) == Some(c) <==> c.seqNo < SEQ_SPACE && |c.body| == 4 && p == CommandPacket(me, c)
  {
    hide Frames.SealedFrame, Frames.Open;
    if CommandOf(me, p) == Some(c) { Frames.OpensOnlySealed(me.block, me.psk, p); }
    if c.seqNo < SEQ_SPACE && |c.body| == 4 && p == CommandPacket(me, c) {
      Frames.OpenInvertsSeal(me.block, me.psk, Downlink.CommandHeader(me.netId, me.nodeId, c), c.body);
    }
  }

  // ---------- the wait window ----------

  function Waited(me: Identity, win: Window, arrivals: seq<seq<byte>>, n: nat): (Window, bool)
    decreases |arrivals|
  {
    if arrivals == [] then (win, false) else
    match AckOf(me, arrivals[0])
    case None => Waited(me, win, arrivals[1..], n)
    case Some(k) =>
      var (w, ok) := CheckC(win, k.hdrSeq);
      if ok && k.ackSeq == n % SEQ_SPACE then (w, true) else Waited(me, w, arrivals[1..], n)
  }

  function Sent(me: Identity, cfg: Config, win: Window, radio: seq<Attempt>, n: nat, attempt: nat): (Window, TxOutcome)
    requires |radio| >= cfg.retxCount
    decreases |radio| - attempt
  {
    if attempt >= cfg.retxCount then (win, if cfg.ackEnable then SENT_NO_ACK else ACKED)
    else if !radio[attempt].ok then
      if attempt + 1 == cfg.retxCount then (win, RADIO_ERROR) else Sent(me, cfg, win, radio, n, attempt + 1)
    else if cfg.ackEnable then
      var (w, ok) := Waited(me, win, Packets(radio[attempt].events), n);
      if ok then (w, ACKED) else Sent(me, cfg, w, radio, n, attempt + 1)
    else Sent(me, cfg, win, radio, n, attempt + 1)
  }

  // ---------- what the loops find ----------

  /** The replay filter after the first i packets, none of which ended the wait. */
  function FilterAfter(me: Identity, win: Window, arrivals: seq<seq<byte>>, i: nat): Window
    requires i <= |arrivals|
    decreases i
  {
    if i == 0 then win else
    match AckOf(me, arrivals[i - 1])
    case None => FilterAfter(me, win, arrivals, i - 1)
    case Some(k) => CheckC(FilterAfter(me, win, arrivals, i - 1), k.hdrSeq).0
  }

  /** Packet i acknowledges n to this node, and the filter has not seen it. */
  predicate Answers(me: Identity, win: Window, arrivals: seq<seq<byte>>, n: nat, i: nat)
    requires i < |arrivals|
  {
    && AckOf(me, arrivals[i]).Some?
    && AckOf(me, arrivals[i]).value.ackSeq == n % SEQ_SPACE
    && CheckC(FilterAfter(me, win, arrivals, i), AckOf(me, arrivals[i]).value.hdrSeq).1
  }

  /** A wait succeeds exactly when some packet of its window answers; it ends at the
      first that does, and has filtered all packets up to there. */
  lemma WaitedOutcome(me: Identity, win: Window, arrivals: seq<seq<byte>>, n: nat) returns (first: nat)
    ensures first <= |arrivals| && (forall i | 0 <= i < first :: !Answers(me, win, arrivals, n, i))
    ensures first < |arrivals| ==> Answers(me, win, arrivals, n, first)
    ensures Waited(me, win, arrivals, n) ==
              (FilterAfter(me, win, arrivals, if first < |arrivals| then first + 1 else first), first < |arrivals|)
    ensures Waited(me, win, arrivals, n).1 <==> exists i | 0 <= i < |arrivals| :: Answers(me, win, arrivals, n, i)
  {
    hide AckOf, CheckC, Waited, Answers, FilterAfter;
    assert arrivals[0..] == arrivals;
    FilterStart(me, win, arrivals);
    first := WaitedFrom(me, win, arrivals, n, 0);
  }

  lemma FilterStart(me: Identity, win: Window, arrivals: seq<seq<byte>>)
    ensures FilterAfter(me, win, arrivals, 0) == win
  {
  }

  lemma {:induction false} WaitedFrom(me: Identity, win: Window, arrivals: seq<seq<byte>>, n: nat, from: nat)
    returns (first: nat)
    requires from <= |arrivals|
    ensures from <= first <= |arrivals| && (forall i | from <= i < first :: !Answers(me, win, arrivals, n, i))
    ensures first < |arrivals| ==> Answers(me, win, arrivals, n, first)
    ensures Waited(me, FilterAfter(me, win, arrivals, from), arrivals[from..], n) ==
              (FilterAfter(me, win, arrivals, if first < |arrivals| then first + 1 else first), first < |arrivals|)
    decreases |arrivals| - from
  {
    hide AckOf, CheckC;
    if from == |arrivals| || Answers(me, win, arrivals, n, from) {
      first := from;
    } else {
      assert arrivals[from..][0] == arrivals[from] && arrivals[from..][1..] == arrivals[from + 1..];
      first := WaitedFrom(me, win, arrivals, n, from + 1);
    }
  }

  /** The filter after the first a attempts, none of which was answered. */
  function FilterAt(me: Identity, win: Window, radio: seq<Attempt>, n: nat, a: nat): Window
    requires a <= |radio|
    decreases a
  {
    if a == 0 then win
    else if radio[a - 1].ok then Waited(me, FilterAt(me, win, radio, n, a - 1), Packets(radio[a - 1].events), n).0
    else FilterAt(me, win, radio, n, a - 1)
  }

  /** Attempt a is transmitted and its window holds the answer. */
  predicate Answered(me: Identity, win: Window, radio: seq<Attempt>, n: nat, a: nat)
    requires a < |radio|
  {
    radio[a].ok && Waited(me, FilterAt(me, win, radio, n, a), Packets(radio[a].events), n).1
  }

  /** What sendReliable reports when no attempt was answered. */
  function Unanswered(cfg: Config, radio: seq<Attempt>): TxOutcome
    requires |radio| >= cfg.retxCount
  {
    if cfg.retxCount > 0 && !radio[cfg.retxCount - 1].ok then RADIO_ERROR
    else if cfg.ackEnable then SENT_NO_ACK else ACKED
  }

  /** sendReliable goes through the attempts until one is answered.  With
      acknowledgements enabled it reports ACKED exactly when one is; otherwise, and
      always when they are disabled, the last transmission decides. */
  lemma SentOutcome(me: Identity, cfg: Config, win: Window, radio: seq<Attempt>, n: nat) returns (first: nat)
    requires |radio| >= cfg.retxCount
    ensures cfg.ackEnable ==>
              && first <= cfg.retxCount && (forall a | 0 <= a < first :: !Answered(me, win, radio, n, a))
              && (first < cfg.retxCount ==> Answered(me, win, radio, n, first))
              && Sent(me, cfg, win, radio, n, 0) ==
                   (FilterAt(me, win, radio, n, if first < cfg.retxCount then first + 1 else first),
                    if first < cfg.retxCount then ACKED else Unanswered(cfg, radio))
    ensures cfg.ackEnable ==>
              (Sent(me, cfg, win, radio, n, 0).1 == ACKED <==>
               exists a | 0 <= a < cfg.retxCount :: Answered(me, win, radio, n, a))
    ensures !cfg.ackEnable ==> Sent(me, cfg, win, radio, n, 0) == (win, Unanswered(cfg, radio))
  {
    hide Waited, Sent, Answered, FilterAt;
    first := 0;
    if cfg.ackEnable {
      FilterAtStart(me, win, radio, n);
      first := SentFrom(me, cfg, win, radio, n, 0);
    } else {
      SentBlindly(me, cfg, win, radio, n, 0);
    }
  }

  lemma FilterAtStart(me: Identity, win: Window, radio: seq<Attempt>, n: nat)
    ensures FilterAt(me, win, radio, n, 0) == win
  {
  }

  lemma {:induction false} SentFrom(me: Identity, cfg: Config, win: Window, radio: seq<Attempt>, n: nat, from: nat)
    returns (first: nat)
    requires |radio| >= cfg.retxCount >= from && cfg.ackEnable
    requires from < cfg.retxCount || from == 0 || radio[from - 1].ok
    ensures from <= first <= cfg.retxCount && (forall a | from <= a < first :: !Answered(me, win, radio, n, a))
    ensures first < cfg.retxCount ==> Answered(me, win, radio, n, first)
    ensures Sent(me, cfg, FilterAt(me, win, radio, n, from), radio, n, from) ==
              (FilterAt(me, win, radio, n, if first < cfg.retxCount then first + 1 else first),
               if first < cfg.retxCount then ACKED else Unanswered(cfg, radio))
    decreases cfg.retxCount - from
  {
    hide Waited, Packets;
    if from == cfg.retxCount || Answered(me, win, radio, n, from) {
      first := from;
    } else if from + 1 == cfg.retxCount {
      first := from + 1;
    } else {
      first := SentFrom(me, cfg, win, radio, n, from + 1);
    }
  }

  lemma {:induction false} SentBlindly(me: Identity, cfg: Config, win: Window, radio: seq<Attempt>, n: nat, from: nat)
    requires |radio| >= cfg.retxCount >= from && !cfg.ackEnable
    requires from < cfg.retxCount || from == 0 || radio[from - 1].ok
    ensures Sent(me, cfg, win, radio, n, from) == (win, Unanswered(cfg, radio))
    decreases cfg.retxCount - from
  {
    if from < cfg.retxCount && (radio[from].ok || from + 1 < cfg.retxCount) {
      SentBlindly(me, cfg, win, radio, n, from + 1);
    }
  }

  // ---------- the loops are runs of the machine ----------

  /** The lane after the events of a wait window. */
  function AfterWait(me: Identity, s: Lane, events: seq<Event>): Lane
    decreases |events|
  {
    if !s.node.task.Waiting? then s
    else if events == [] then Apply(s, Timeout)
    else AfterWait(me, AfterEvent(me, s, events[0]), events[1..])
  }

  function AfterEvent(me: Identity, s: Lane, e: Event): Lane {
    match e
    case Elsewhere(step) => Apply(s, step)
    case Packet(p) => (match AckOf(me, p) case None => s case Some(k) => Apply(s, HearAck(k)))
  }

  /** Only sealed frames open: an acknowledgement that opens is one the gateway
      had sent by then; and elsewhere only the gateway moves. */
  ghost predicate GenuineWait(me: Identity, s: Lane, events: seq<Event>)
    decreases |events|
  {
    s.node.task.Waiting? && events != [] ==>
      && (match events[0]
          case Elsewhere(step) => GatewayStep(step)
          case Packet(p) => AckOf(me, p).Some? ==> AckOf(me, p).value in s.acks)
      && GenuineWait(me, AfterEvent(me, s, events[0]), events[1..])
  }

  function Transmits(s: Lane, a: Attempt): Lane {
    Apply(Run(Delivery.Apply, s, a.before), Transmit(a.radiated, a.ok))
  }

  /** The lane after one attempt; outside a wait window packets go unheard. */
  function AfterAttempt(me: Identity, s: Lane, a: Attempt): Lane {
    var t := Transmits(s, a);
    if t.node.task.Waiting? then AfterWait(me, t, a.events) else t
  }

  /** The same of every attempt that is still to come, and between two attempts
      too only the gateway moves. */
  ghost predicate GenuineSend(me: Identity, s: Lane, radio: seq<Attempt>, attempt: nat)
    decreases |radio| - attempt
  {
    s.node.task.Sending? && attempt < s.cfg.retxCount && attempt < |radio| ==>
      && (forall t | t in radio[attempt].before :: GatewayStep(t))
      && GenuineWait(me, Transmits(s, radio[attempt]), radio[attempt].events)
      && GenuineSend(me, AfterAttempt(me, s, radio[attempt]), radio, attempt + 1)
  }

  lemma GatewayLeavesNode(s: Lane, step: Step)
    requires GatewayStep(step)
    ensures var t := Apply(s, step); t.node == s.node && t.cfg == s.cfg && t.past.acked == s.past.acked
  {
    hide CheckPy, Extend;
  }

  lemma {:induction false} GatewayRunLeavesNode(s: Lane, steps: seq<Step>)
    requires forall t | t in steps :: GatewayStep(t)
    ensures var t := Run(Delivery.Apply, s, steps); t.node == s.node && t.cfg == s.cfg && t.past.acked == s.past.acked
    decreases |steps|
  {
    hide Delivery.Apply, GatewayStep;
    if steps != [] {
      assert steps[0] in steps && forall t | t in steps[1..] :: t in steps;
      GatewayLeavesNode(s, steps[0]);
      GatewayRunLeavesNode(Apply(s, steps[0]), steps[1..]);
    }
  }

  lemma NoPackets()
    ensures Packets([]) == []
  {
  }

  /** One event of a wait window: the wait goes on, or ends with success. */
  lemma EventIsRun(me: Identity, s: Lane, events: seq<Event>) returns (now: seq<Step>)
    requires s.node.task.Waiting? && events != []
    requires events[0].Elsewhere? ==> GatewayStep(events[0].step)
    requires events[0].Packet? && AckOf(me, events[0].bytes).Some? ==> AckOf(me, events[0].bytes).value in s.acks
    ensures var t := AfterEvent(me, s, events[0]);
            var f := s.node.task.f;
            var waited := Waited(me, s.node.ackWin, Packets(events), f.seqNo);
            && t == Run(Delivery.Apply, s, now) && t.cfg == s.cfg && t.node.sq == s.node.sq
            && (if t.node.task.Waiting? then
                  && t.node.task == s.node.task && t.past.acked == s.past.acked
                  && waited == Waited(me, t.node.ackWin, Packets(events[1..]), f.seqNo)
                else
                  && t.node.task == Idle && t.past.acked == s.past.acked + [f.seqNo]
                  && waited == (t.node.ackWin, true))
  {
    hide Run, CheckC, Extend, AckOf;
    var rest := Packets(events[1..]);
    match events[0] {
      case Elsewhere(step) =>
        assert Packets(events) == [] + rest == rest;
        GatewayLeavesNode(s, step);
        now := [step];
        One(Delivery.Apply, s, step);
      case Packet(p) =>
        assert Packets(events)[0] == p && Packets(events)[1..] == rest;
        if AckOf(me, p).Some? {
          now := [HearAck(AckOf(me, p).value)];
          One(Delivery.Apply, s, HearAck(AckOf(me, p).value));
        } else {
          now := [];
          Nothing(Delivery.Apply, s);
        }
    }
  }

  /** One wait window, with the gateway at work meanwhile, is a run of the
      machine that ends as the code's loop ends. */
  lemma {:induction false} WaitIsRun(me: Identity, s: Lane, events: seq<Event>) returns (steps: seq<Step>)
    requires s.node.task.Waiting? && GenuineWait(me, s, events)
    ensures var f := s.node.task.f;
            var (w, ok) := Waited(me, s.node.ackWin, Packets(events), f.seqNo);
            var t := AfterWait(me, s, events);
            && t == Run(Delivery.Apply, s, steps) && t.cfg == s.cfg && t.node.sq == s.node.sq && t.node.ackWin == w
            && t.node.task == (if ok then Idle else Sending(f, s.node.task.attempt + 1))
            && t.past.acked == (if ok then s.past.acked + [f.seqNo] else s.past.acked)
    decreases |events|
  {
    hide Run, CheckC, Extend, AckOf, Packets, AfterEvent;
    if events == [] {
      NoPackets();
      steps := [Timeout];
      One(Delivery.Apply, s, Timeout);
    } else {
      var now := EventIsRun(me, s, events);
      var t := AfterEvent(me, s, events[0]);
      if t.node.task.Waiting? {
        var more := WaitIsRun(me, t, events[1..]);
        Append(Delivery.Apply, s, now, more);
        steps := now + more;
      } else {
        steps := now;
      }
    }
  }

  /** A whole call of sendReliable, with the gateway at work meanwhile, is a run
      of the machine: its outcome is ACKED exactly when the machine records the
      SEQ as ACKED. */
  lemma {:induction false} SendIsRun(me: Identity, s: Lane, radio: seq<Attempt>) returns (steps: seq<Step>)
    requires |radio| >= s.cfg.retxCount && s.node.task.Sending? && s.node.task.f.kind == Alert
    requires GenuineSend(me, s, radio, s.node.task.attempt)
    ensures var f := s.node.task.f;
            var (w, out) := Sent(me, s.cfg, s.node.ackWin, radio, f.seqNo, s.node.task.attempt);
            var t := Run(Delivery.Apply, s, steps);
            && t.node.sq == s.node.sq && t.node.ackWin == w && t.node.task == Idle
            && t.past.acked == (if out == ACKED then s.past.acked + [f.seqNo] else s.past.acked)
    decreases |radio| - s.node.task.attempt
  {
    hide Run, Waited, GenuineWait, AfterWait;
    var n := s.node.task.attempt;
    if n >= s.cfg.retxCount {
      steps := [Transmit(false, true)];
      One(Delivery.Apply, s, Transmit(false, true));
    } else {
      var a := radio[n];
      GatewayRunLeavesNode(s, a.before);
      steps := a.before + [Transmit(a.radiated, a.ok)];
      Snoc(Delivery.Apply, s, a.before, Transmit(a.radiated, a.ok));
      var t := Transmits(s, a);
      if t.node.task.Waiting? {
        var waited := WaitIsRun(me, t, a.events);
        Append(Delivery.Apply, s, steps, waited);
        steps := steps + waited;
      }
      var u := AfterAttempt(me, s, a);
      assert u == Run(Delivery.Apply, s, steps);
      if u.node.task != Idle {
        var more := SendIsRun(me, u, radio);
        Append(Delivery.Apply, s, steps, more);
        steps := steps + more;
      }
    }
  }

  /** So whenever sendReliable returns ACKED with acknowledgements enabled, in any
      state the network can be in and whatever goes on meanwhile, the gateway has
      accepted that SEQ as fresh. */
  lemma AckedReturnMeansAccepted(me: Identity, cfg: Config, rtc: u32, before: seq<Step>, radio: seq<Attempt>)
    returns (steps: seq<Step>)
    requires var s := DeliverySafety.At(cfg, rtc, before);
             && cfg.ackEnable && |radio| >= s.cfg.retxCount
             && s.node.task.Sending? && s.node.task.f.kind == Alert
             && GenuineSend(me, s, radio, s.node.task.attempt)
             && Sent(me, s.cfg, s.node.ackWin, radio, s.node.task.f.seqNo, s.node.task.attempt).1 == ACKED
    ensures DeliverySafety.At(cfg, rtc, before).node.task.f.seqNo in DeliverySafety.At(cfg, rtc, before + steps).past.accepted
  {
    hide Run, GenuineSend, Sent, Inv;
    var s := DeliverySafety.At(cfg, rtc, before);
    steps := SendIsRun(me, s, radio);
    Append(Delivery.Apply, Start(cfg, rtc), before, steps);
    DeliverySafety.AckedWasAccepted(cfg, rtc, before + steps, s.node.task.f.seqNo);
  }

  // ---------- an answer is never missed ----------

  /** Packet i of these events is an acknowledgement of n sealed for this node. */
  predicate Genuine(me: Identity, events: seq<Event>, n: nat, i: nat) {
    && i < |events| && events[i].Packet?
    && AckOf(me, events[i].bytes).Some? && AckOf(me, events[i].bytes).value.ackSeq == n
  }

  lemma EventKeeps(me: Identity, s: Lane, e: Event)
    requires Inv(s)
    ensures Inv(AfterEvent(me, s, e))
  {
    hide Inv, Delivery.Apply, AckOf;
    match e
    case Elsewhere(step) => ApplyKeeps(s, step);
    case Packet(p) => if AckOf(me, p).Some? { ApplyKeeps(s, HearAck(AckOf(me, p).value)); }
  }

  /** A genuine acknowledgement anywhere in the window ends the wait with success:
      nothing that arrives before it, and no filter state, holds it back. */
  lemma {:induction false} WaitHears(me: Identity, s: Lane, events: seq<Event>, i: nat)
    requires Inv(s) && s.node.task.Waiting? && GenuineWait(me, s, events)
    requires Genuine(me, events, s.node.task.f.seqNo, i)
    ensures Waited(me, s.node.ackWin, Packets(events), s.node.task.f.seqNo).1
    decreases |events|
  {
    hide Inv, Delivery.Apply, AckOf, CheckC, Packets, Waited, Run;
    var now := EventIsRun(me, s, events);
    var t := AfterEvent(me, s, events[0]);
    if i == 0 {
      GenuineAckPasses(s, AckOf(me, events[0].bytes).value);
      assert t == Heard(s, AckOf(me, events[0].bytes).value) by { HearApplies(s, AckOf(me, events[0].bytes).value); }
    } else if t.node.task.Waiting? {
      EventKeeps(me, s, events[0]);
      assert events[1..][i - 1] == events[i];
      WaitHears(me, t, events[1..], i - 1);
    }
  }

  lemma HearApplies(s: Lane, k: Ack)
    ensures Apply(s, HearAck(k)) == Heard(s, k)
  {
    hide Heard;
  }

  /** So sendReliable returns ACKED whenever, in the window of any of its attempts
      that was transmitted, a genuine acknowledgement of its SEQ arrives. */
  lemma {:induction false} SendHears(me: Identity, s: Lane, radio: seq<Attempt>, a: nat, i: nat)
    requires Inv(s) && s.cfg.ackEnable && |radio| >= s.cfg.retxCount
    requires s.node.task.Sending? && s.node.task.f.kind == Alert && GenuineSend(me, s, radio, s.node.task.attempt)
    requires s.node.task.attempt <= a < s.cfg.retxCount && radio[a].ok
    requires Genuine(me, radio[a].events, s.node.task.f.seqNo, i)
    ensures Sent(me, s.cfg, s.node.ackWin, radio, s.node.task.f.seqNo, s.node.task.attempt).1 == ACKED
    decreases |radio| - s.node.task.attempt
  {
    hide Inv, Run, Waited, GenuineWait, AfterWait, Genuine, Delivery.Apply;
    var n := s.node.task.attempt;
    var t := Transmits(s, radio[n]);
    GatewayRunLeavesNode(s, radio[n].before);
    RunInv(s, radio[n].before);
    var b := Run(Delivery.Apply, s, radio[n].before);
    ApplyKeeps(b, Transmit(radio[n].radiated, radio[n].ok));
    TransmitTurn(b, radio[n].radiated, radio[n].ok);
    if n == a {
      WaitHears(me, t, radio[a].events, i);
    } else if t.node.task.Waiting? {
      var waited := WaitIsRun(me, t, radio[n].events);
      var u := AfterWait(me, t, radio[n].events);
      RunInv(t, waited);
      if u.node.task.Sending? { SendHears(me, u, radio, a, i); }
    } else {
      SendHears(me, t, radio, a, i);
    }
  }

  /** One turn of the loop with acknowledgements enabled, before the last attempt is
      used up: a failed transmission goes on to the next attempt, a transmitted one
      opens the wait window. */
  lemma TransmitTurn(s: Lane, radiated: bool, ok: bool)
    requires s.node.task.Sending? && s.node.task.f.kind == Alert && s.cfg.ackEnable
    requires s.node.task.attempt < s.cfg.retxCount
    ensures var t := Apply(s, Transmit(radiated, ok));
            && t.cfg == s.cfg && t.node.ackWin == s.node.ackWin
            && t.node.task == (if ok then Waiting(s.node.task.f, s.node.task.attempt)
                               else if s.node.task.attempt + 1 == s.cfg.retxCount then Idle
                               else Sending(s.node.task.f, s.node.task.attempt + 1))
  {
  }

  /** In every reachable state, for every loss, duplication, reordering, reset and
      restart before it. */
  lemma AnsweredSendIsAcked(me: Identity, cfg: Config, rtc: u32, before: seq<Step>, radio: seq<Attempt>, a: nat, i: nat)
    requires var s := DeliverySafety.At(cfg, rtc, before);
             && cfg.ackEnable && |radio| >= s.cfg.retxCount
             && s.node.task.Sending? && s.node.task.f.kind == Alert
             && GenuineSend(me, s, radio, s.node.task.attempt)
             && s.node.task.attempt <= a < s.cfg.retxCount && radio[a].ok
             && Genuine(me, radio[a].events, s.node.task.f.seqNo, i)
    ensures var s := DeliverySafety.At(cfg, rtc, before);
            Sent(me, s.cfg, s.node.ackWin, radio, s.node.task.f.seqNo, s.node.task.attempt).1 == ACKED
  {
    hide Run, GenuineSend, Sent, Inv, Genuine;
    DeliverySafety.Reached(cfg, rtc, before);
    SendHears(me, DeliverySafety.At(cfg, rtc, before), radio, a, i);
  }

  // ---------- the code ----------

  class Link {
    const me: Identity
    const cfg: Config
    var ackReplay: Window
    var cmdLastSeq: nat
    var listening: bool
    var loraListening: bool                    // the main loop's own flag
    var cmdFlash: nat                          // the flash key cmd_seq
    ghost var pc: Downlink.Pc
    ghost var executed: seq<Downlink.Command>
    ghost var unsaved: bool

    /** `begin` after a reset: RAM is new, the flash key is what it was. */
    constructor (me: Identity, cfg: Config, cmdFlash: nat, ghost was: Downlink.State)
      requires was.flash == cmdFlash
      ensures this.me == me && this.cfg == cfg && Valid() && pc == Downlink.Polling && ackReplay == Init(8)
      ensures Down(was.downSeq, was.air) == Downlink.Apply(was, Downlink.NodeReset)
      ensures forall s: Lane, rtc: u32 :: Delivery.Apply(s, NodeReset(rtc)).node.ackWin == ackReplay
    {
      this.me, this.cfg, this.cmdFlash := me, cfg, cmdFlash;
      ackReplay, cmdLastSeq, listening, loraListening := Init(8), 0, false, false;
      pc, executed, unsaved := Downlink.Polling, was.executed, was.unsaved;
    }

    ghost predicate Valid()
      reads this
    {
      loraListening ==> listening
    }

    method WaitForAck(n: nat, arrivals: seq<seq<byte>>) returns (ok: bool)
      modifies this`ackReplay
      ensures (ackReplay, ok) == Waited(me, old(ackReplay), arrivals, n)
    {
      hide AckOf, CheckC;
      assert arrivals[0..] == arrivals;
      for i := 0 to |arrivals|
        invariant Waited(me, ackReplay, arrivals[i..], n) == Waited(me, old(ackReplay), arrivals, n)
      {
        assert arrivals[i..][0] == arrivals[i] && arrivals[i..][1..] == arrivals[i + 1..];
        var k := AckOf(me, arrivals[i]);
        if k.None? { continue; }
        var (w, isNew) := CheckC(ackReplay, k.value.hdrSeq);
        ackReplay := w;
        if !isNew { continue; }
        if k.value.ackSeq == n % SEQ_SPACE { return true; }
      }
      ok := false;
    }

    /** `sendReliable` of an already sealed frame. */
    method SendReliable(n: nat, radio: seq<Attempt>) returns (out: TxOutcome)
      requires |radio| >= cfg.retxCount
      modifies this`ackReplay
      ensures (ackReplay, out) == Sent(me, cfg, old(ackReplay), radio, n, 0)
    {
      hide Waited;
      out := if cfg.ackEnable then SENT_NO_ACK else ACKED;
      for attempt := 0 to cfg.retxCount
        invariant out == if cfg.ackEnable then SENT_NO_ACK else ACKED
        invariant Sent(me, cfg, ackReplay, radio, n, attempt) == Sent(me, cfg, old(ackReplay), radio, n, 0)
      {
        if !radio[attempt].ok {
          if attempt + 1 == cfg.retxCount { return RADIO_ERROR; }
          continue;
        }
        if cfg.ackEnable {
          var ok := WaitForAck(n, Packets(radio[attempt].events));
          if ok { return ACKED; }
        }
      }
    }

    ghost function Down(downSeq: nat, air: set<Downlink.Command>): Downlink.State
      reads this
    {
      Downlink.State(downSeq, air, cmdLastSeq, cmdFlash, loraListening, pc, executed, unsaved)
    }

    method ReceiveCommand(packet: seq<byte>) returns (c: Option<Downlink.Command>)
      modifies this`cmdLastSeq
      ensures var k := CommandOf(me, packet);
              if listening && k.Some? && k.value.seqNo > old(cmdLastSeq) then c == k && cmdLastSeq == k.value.seqNo
              else c == None && cmdLastSeq == old(cmdLastSeq)
    {
      hide CommandOf;
      if !listening { return None; }
      c := CommandOf(me, packet);
      if c.Some? && c.value.seqNo > cmdLastSeq {
        cmdLastSeq := c.value.seqNo;
      } else {
        c := None;
      }
    }

    /** One turn of the main loop with a packet waiting: a run of Downlink's
        machine.  `started` is what starting the receiver reports, `committed`
        the outcome of the floor write; after `stages` of the machine's steps a
        reset cuts the turn short. */
    method CommandTurn(packet: seq<byte>, started: bool, committed: bool, stages: nat,
                       ghost downSeq: nat, ghost air: set<Downlink.Command>)
      requires Valid() && pc == Downlink.Polling
      // only sealed frames open: a command that opens was sent
      requires CommandOf(me, packet).Some? ==> CommandOf(me, packet).value in air
      modifies this
      ensures Valid() && (stages >= 4 ==> pc == Downlink.Polling)
      ensures Down(downSeq, air) ==
                Run(Downlink.Apply, old(Down(downSeq, air)), Upto(TurnSteps(CommandOf(me, packet), started, committed), stages))
    {
      hide CommandOf, Run, Upto, TurnSteps, Downlink.Apply, Obeyed;
      TurnStages(Down(downSeq, air), CommandOf(me, packet), started, committed, stages);
      if stages == 0 { return; }
      Listen(started, downSeq, air);
      Obey(packet, committed, stages, downSeq, air);
    }

    /** The floor comes back from flash before the receiver is started. */
    method Listen(started: bool, ghost downSeq: nat, ghost air: set<Downlink.Command>)
      requires Valid()
      modifies this`cmdLastSeq, this`listening, this`loraListening
      ensures Valid() && Down(downSeq, air) == Downlink.Apply(old(Down(downSeq, air)), Downlink.Listen(started))
    {
      if !loraListening {
        if cmdFlash > cmdLastSeq { cmdLastSeq := cmdFlash; }
        listening := true;
        loraListening := started;
      }
    }

    method Obey(packet: seq<byte>, committed: bool, stages: nat, ghost downSeq: nat, ghost air: set<Downlink.Command>)
      requires Valid() && pc == Downlink.Polling && stages > 0
      requires CommandOf(me, packet).Some? ==> CommandOf(me, packet).value in air
      modifies this
      ensures Valid() && (stages >= 4 ==> pc == Downlink.Polling)
      ensures Down(downSeq, air) == Obeyed(old(Down(downSeq, air)), CommandOf(me, packet), committed, stages)
    {
      hide CommandOf;
      if stages == 1 || !loraListening { return; }
      var c := ReceiveCommand(packet);
      if c.None? { return; }
      pc := Downlink.ToPersist(c.value);
      if stages == 2 { return; }
      if committed { cmdFlash := c.value.seqNo; }
      unsaved := unsaved || !committed;
      pc := Downlink.ToExecute(c.value);
      if stages == 3 { return; }
      executed := executed + [c.value];
      pc := Downlink.Polling;
    }
  }

  /** What a turn of the main loop is for the machine. */
  function TurnSteps(k: Option<Downlink.Command>, started: bool, committed: bool): seq<Downlink.Step> {
    match k
    case None => [Downlink.Listen(started)]
    case Some(c) => [Downlink.Listen(started), Downlink.Receive(c), Downlink.Persist(committed), Downlink.Execute]
  }

  /** Where a turn that is listening has got to after n of its steps. */
  function Obeyed(s: Downlink.State, k: Option<Downlink.Command>, committed: bool, n: nat): Downlink.State {
    if n <= 1 || k.None? then s else
    var received := Downlink.Apply(s, Downlink.Receive(k.value));
    if n == 2 then received else
    var persisted := Downlink.Apply(received, Downlink.Persist(committed));
    if n == 3 then persisted else Downlink.Apply(persisted, Downlink.Execute)
  }

  lemma TurnStages(s: Downlink.State, k: Option<Downlink.Command>, started: bool, committed: bool, n: nat)
    ensures Run(Downlink.Apply, s, Upto(TurnSteps(k, started, committed), n)) ==
              if n == 0 then s else Obeyed(Downlink.Apply(s, Downlink.Listen(started)), k, committed, n)
  {
    hide Run, Downlink.Apply;
    if k.None? {
      var one := [Downlink.Listen(started)];
      assert one[..0] == [];
      Nothing(Downlink.Apply, s);
      One(Downlink.Apply, s, Downlink.Listen(started));
    } else {
      Stages(Downlink.Apply, s, Downlink.Listen(started), Downlink.Receive(k.value), Downlink.Persist(committed),
             Downlink.Execute, n);
    }
  }
}
