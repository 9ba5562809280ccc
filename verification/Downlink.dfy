/** Commands from the gateway to one node: the durable counter, the frames on the
    air, the node's floor in RAM and in flash, and the resets between any two
    steps.  A command frame once radiated may arrive any number of times. */
module Downlink {
  import opened Bytes
  import opened Machine
  import opened Protocol
  import Frames

  datatype Command = Command(seqNo: nat, body: seq<byte>)

  datatype Pc = Polling | ToPersist(c: Command) | ToExecute(c: Command)

  /** `downSeq` is the database counter, `floor` is _cmdLastSeq, `flash` is the
      key cmd_seq; `executed` lists what the node acted on, and `unsaved` says
      that some floor write did not commit. */
  datatype State = State(downSeq: nat, air: set<Command>, floor: nat, flash: nat, listening: bool, pc: Pc,
                         executed: seq<Command>, unsaved: bool)

  datatype Step =
    | Send(body: seq<byte>, radiated: bool)
    | NodeReset
    | Listen(started: bool)
    | Receive(c: Command)
    | Persist(committed: bool)
    | Execute

  function Apply(s: State, step: Step): State {
    match step
    case Send(body, radiated) =>
      // sealing raises when the counter needs more than 24 bits
      var n := s.downSeq + 1;
      s.(downSeq := n, air := if radiated && n < SEQ_SPACE then s.air + {Command(n, body)} else s.air)
    case NodeReset => s.(floor := 0, listening := false, pc := Polling)
    case Listen(started) =>
      // the radio may refuse to start; the loop then tries again
      if s.listening then s else s.(floor := if s.flash > s.floor then s.flash else s.floor, listening := started)
    case Receive(c) =>
      if s.listening && s.pc == Polling && c in s.air && c.seqNo > s.floor then
        s.(floor := c.seqNo, pc := ToPersist(c))
      else s
    case Persist(committed) =>
      if s.pc.ToPersist? then
        s.(flash := if committed then s.pc.c.seqNo else s.flash, pc := ToExecute(s.pc.c),
           unsaved := s.unsaved || !committed)
      else s
    case Execute =>
      if s.pc.ToExecute? then s.(executed := s.executed + [s.pc.c], pc := Polling) else s
  }

  const START: State := State(0, {}, 0, 0, false, Polling, [], false)

  predicate InOrder(executed: seq<Command>) {
    forall i, j | 0 <= i < j < |executed| :: executed[i].seqNo < executed[j].seqNo
  }

  ghost predicate Inv(s: State) {
    && (forall c | c in s.air :: 0 < c.seqNo <= s.downSeq && c.seqNo < SEQ_SPACE)
    && (forall c, d | c in s.air && d in s.air && c.seqNo == d.seqNo :: c == d)
    && s.floor <= s.downSeq && s.flash <= s.downSeq
    && (s.listening ==> s.flash <= s.floor)
    && (s.pc != Polling ==> s.listening && s.pc.c in s.air && s.pc.c.seqNo == s.floor)
    && (forall c | c in s.executed :: c in s.air)
    && (!s.unsaved ==>
          && InOrder(s.executed)
          && (forall c | c in s.executed :: c.seqNo <= s.flash)
          && (s.pc.ToPersist? ==> s.flash < s.floor)
          && (s.pc.ToExecute? ==> s.flash == s.floor && forall c | c in s.executed :: c.seqNo < s.floor))
  }

  lemma ApplyKeeps(s: State, step: Step)
    requires Inv(s)
    ensures Inv(Apply(s, step))
  {
    hide InOrder;
    if step.Execute? && s.pc.ToExecute? && !s.unsaved { Extends(s.executed, s.pc.c); }
  }

  lemma Extends(executed: seq<Command>, c: Command)
    requires InOrder(executed) && forall e | e in executed :: e.seqNo < c.seqNo
    ensures InOrder(executed + [c])
  {
    forall i | 0 <= i < |executed| ensures executed[i].seqNo < c.seqNo {
      assert executed[i] in executed;
    }
  }

  predicate FloorWritesCommit(steps: seq<Step>) { Persist(false) !in steps }

  lemma {:induction false} CommitsKept(s: State, steps: seq<Step>)
    requires !s.unsaved && FloorWritesCommit(steps)
    ensures !Run(Apply, s, steps).unsaved
    decreases |steps|
  {
    if steps != [] {
      assert steps[0] in steps && forall t | t in steps[1..] :: t in steps;
      CommitsKept(Apply(s, steps[0]), steps[1..]);
    }
  }

  /** Over every duplication, reordering, node reset and gateway restart, the
      commands a node acts on have strictly increasing SEQs, hence each acts at
      most once. */
  ghost predicate ActsInOrder(writesCommit: bool) {
    forall steps: seq<Step> | writesCommit ==> FloorWritesCommit(steps) :: InOrder(Run(Apply, START, steps).executed)
  }

  /** It holds exactly when the node's floor writes commit; the node does not
      look at the outcome of that write. */
  lemma ActsInOrderIff(writesCommit: bool)
    ensures ActsInOrder(writesCommit) <==> writesCommit
  {
    hide Run, InOrder, FloorWritesCommit;
    if writesCommit {
      forall steps: seq<Step> | FloorWritesCommit(steps) ensures InOrder(Run(Apply, START, steps).executed) {
        Reached(steps);
        CommitsKept(START, steps);
      }
    } else {
      var steps := ActsTwice();
      assert !InOrder(Run(Apply, START, steps).executed);
    }
  }

  lemma StartOk()
    ensures Inv(START)
  {
  }

  /** Every reachable state keeps the invariant. */
  lemma Reached(steps: seq<Step>)
    ensures Inv(Run(Apply, START, steps))
  {
    hide Inv, Apply, Run;
    StartOk();
    forall s, t | Inv(s) ensures Inv(Apply(s, t)) { ApplyKeeps(s, t); }
    Keeps(Apply, s => Inv(s), START, steps);
  }

  lemma RunFive(s: State, a: Step, b: Step, c: Step, d: Step, e: Step)
    ensures Run(Apply, s, [a, b, c, d, e]) == Apply(Apply(Apply(Apply(Apply(s, a), b), c), d), e)
  {
    hide Apply, Run;
    assert [a, b, c, d, e] == [a, b, c, d] + [e];
    Snoc(Apply, s, [a, b, c, d], e);
    Four(Apply, s, a, b, c, d);
  }

  /** One lost floor write and a reset, and a replayed command acts again. */
  lemma ActsTwice() returns (steps: seq<Step>)
    ensures !InOrder(Run(Apply, START, steps).executed)
  {
    hide Run, InOrder;
    var c := Command(1, []);
    RunFive(START, Send([], true), Listen(true), Receive(c), Persist(false), Execute);
    var once := [Send([], true), Listen(true), Receive(c), Persist(false), Execute];
    var s1 := State(1, {c}, 1, 0, true, Polling, [c], true);
    assert Run(Apply, START, once) == s1;
    var again := [NodeReset, Listen(true), Receive(c), Persist(true), Execute];
    RunFive(s1, NodeReset, Listen(true), Receive(c), Persist(true), Execute);
    assert Run(Apply, s1, again).executed == [c, c];
    steps := once + again;
    Append(Apply, START, once, again);
    NotInOrder(c);
  }

  lemma NotInOrder(c: Command)
    ensures !InOrder([c, c])
  {
    assert [c, c][0].seqNo == [c, c][1].seqNo;
  }

  /** No floor ever blocks a new command: whatever happened, the next command
      sent lies above the node's floor in RAM and in flash, and a listening node
      that receives it acts on it, whether or not its floor write commits. */
  lemma NewCommandActs(steps: seq<Step>, body: seq<byte>, committed: bool)
    requires Run(Apply, START, steps).downSeq + 1 < SEQ_SPACE
    ensures var s := Run(Apply, START, steps);
            var c := Command(s.downSeq + 1, body);
            && c.seqNo > s.floor && c.seqNo > s.flash
            && (s.listening && s.pc == Polling ==>
                  var t := Run(Apply, START, steps + [Send(body, true), Receive(c), Persist(committed), Execute]);
                  t.executed == s.executed + [c] && t.floor == c.seqNo && t.pc == Polling
                  && (committed ==> t.flash == c.seqNo))
  {
    hide Run;
    Reached(steps);
    var s := Run(Apply, START, steps);
    var c := Command(s.downSeq + 1, body);
    Append(Apply, START, steps, [Send(body, true), Receive(c), Persist(committed), Execute]);
    Four(Apply, s, Send(body, true), Receive(c), Persist(committed), Execute);
  }

  /** The header a command is sealed under; its node is the destination. */
  function CommandHeader(netId: byte, node: u16, c: Command): Frames.Header
    requires c.seqNo < TWO_32
  {
    Frames.Header(netId, Frames.MSG_CMD, node, c.seqNo)
  }

  /** Command frames for a node never share a nonce either. */
  lemma CommandNoncesDiffer(steps: seq<Step>, netId: byte, node: u16, c: Command, d: Command)
    requires c in Run(Apply, START, steps).air && d in Run(Apply, START, steps).air
    ensures c.seqNo < SEQ_SPACE && d.seqNo < SEQ_SPACE
    ensures Frames.NonceOf(CommandHeader(netId, node, c)) == Frames.NonceOf(CommandHeader(netId, node, d)) ==> c == d
  {
    hide Run, Frames.NonceOf, InOrder;
    Reached(steps);
    var h1, h2 := CommandHeader(netId, node, c), CommandHeader(netId, node, d);
    if Frames.NonceOf(h1) == Frames.NonceOf(h2) { Frames.HeaderNonceInjective(h1, h2); }
  }
}
