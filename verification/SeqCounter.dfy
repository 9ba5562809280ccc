/** Write-ahead reservation of sequence numbers on the node.  The machine takes
    one flash access per step, so that a reset can fall between any two; the
    class is the code, and its methods are runs of the machine. */
module SeqCounter {
  import opened Bytes
  import opened Machine
  import opened Protocol

  const SEQ_CKPT: nat := 64

  datatype Pc = Off | FirstReserve | Idle | Reserving(candidate: nat) | Granted(candidate: nat)

  /** `hw` is the flash key seq_hw, `rtc` survives deep sleep, `reserved` is RAM;
      `issued` lists the SEQs handed out and `boots` counts the boots. */
  datatype State = State(hw: nat, rtc: nat, reserved: nat, pc: Pc, issued: seq<nat>, boots: nat)

  /** Reset is any loss of power or watchdog reset, with what RTC memory holds
      afterwards.  A flash write may fail; it may also commit and still report
      failure, but it never reports a success that did not commit. */
  datatype Step = Reset(rtc: u32) | Boot | Ask | Write(committed: bool, reported: bool) | Grant

  function Wrote(s: State, upto: nat, w: Step): State
    requires w.Write?
  {
    s.(hw := if w.committed || w.reported then upto else s.hw, reserved := if w.reported then upto else s.reserved)
  }

  function Apply(s: State, step: Step): State {
    match step
    case Reset(rtc) => s.(rtc := rtc, reserved := 0, pc := Off)
    case Boot =>
      if s.pc != Off then s
      else s.(rtc := if s.rtc < s.hw then s.hw else s.rtc, reserved := s.hw,
              pc := if s.hw == 0 then FirstReserve else Idle, boots := s.boots + 1)
    case Ask =>
      if s.pc != Idle || s.rtc >= SEQ_MAX then s
      else if s.rtc + 1 >= s.reserved then s.(pc := Reserving(s.rtc + 1))
      else s.(rtc := s.rtc + 1, issued := s.issued + [s.rtc + 1])
    case Write(committed, reported) =>
      (match s.pc
       case FirstReserve => Wrote(s, SEQ_CKPT, step).(pc := Idle)
       case Reserving(c) => Wrote(s, c + SEQ_CKPT, step).(pc := if reported then Granted(c) else Idle)
       case _ => s)
    case Grant =>
      if s.pc.Granted? then s.(rtc := s.pc.candidate, issued := s.issued + [s.pc.candidate], pc := Idle) else s
  }

  /** A new node: nothing in flash, RTC memory arbitrary. */
  function Factory(rtc: u32): State { State(0, rtc, 0, Off, [], 0) }

  // ---------- numbers are never reused ----------

  predicate Increasing(xs: seq<nat>) {
    forall i, j | 0 <= i < j < |xs| :: xs[i] < xs[j]
  }

  ghost predicate Inv(s: State) {
    && Increasing(s.issued)
    && (forall n | n in s.issued :: 0 < n <= SEQ_MAX && n < s.hw)
    && (s.pc != Off ==> s.reserved <= s.hw && forall n | n in s.issued :: n <= s.rtc)
    && (s.pc == FirstReserve ==> s.hw == 0)
    && (s.pc.Reserving? || s.pc.Granted? ==> s.pc.candidate == s.rtc + 1 <= SEQ_MAX)
    && (s.pc.Reserving? ==> s.pc.candidate >= s.reserved)
    && (s.pc.Granted? ==> s.pc.candidate < s.hw)
  }

  lemma Issue(issued: seq<nat>, n: nat)
    requires Increasing(issued) && forall m | m in issued :: m < n
    ensures Increasing(issued + [n])
  {
    forall i, j | 0 <= i < j < |issued| + 1 ensures (issued + [n])[i] < (issued + [n])[j] {
      assert issued[i] in issued;
    }
  }

  lemma ApplyKeeps(s: State, step: Step)
    requires Inv(s)
    ensures Inv(Apply(s, step))
  {
    hide Increasing;
    if s.pc != Off && forall n | n in s.issued :: n < s.rtc + 1 { Issue(s.issued, s.rtc + 1); }
  }

  /** For every interleaving of requests, failed writes and resets, whatever RTC
      memory holds after a reset, the SEQs handed out strictly increase and lie
      in 1..SEQ_MAX. */
  lemma SeqNeverRepeats(rtc: u32, steps: seq<Step>)
    ensures Increasing(Run(Apply, Factory(rtc), steps).issued)
    ensures forall n | n in Run(Apply, Factory(rtc), steps).issued :: 0 < n <= SEQ_MAX
  {
    hide Run;
    forall s, t | Inv(s) ensures Inv(Apply(s, t)) { ApplyKeeps(s, t); }
    Keeps(Apply, s => Inv(s), Factory(rtc), steps);
  }

  // ---------- how fast the space is used up ----------

  /** Every reset leaves RTC memory lost (zero) or holding an older value. */
  ghost predicate RtcNeverAhead(s: State, steps: seq<Step>)
    decreases |steps|
  {
    steps == [] ||
    ((steps[0].Reset? ==> steps[0].rtc <= s.rtc) && RtcNeverAhead(Apply(s, steps[0]), steps[1..]))
  }

  ghost predicate Thrifty(s: State) {
    && s.rtc <= |s.issued| + 65 * s.boots && s.hw <= |s.issued| + 65 * s.boots
    && (s.pc != Off ==> s.boots >= 1 && s.rtc <= |s.issued| + 65 * (s.boots - 1) && s.hw <= s.rtc + 65)
    && (s.pc.Reserving? || s.pc.Granted? ==> s.pc.candidate == s.rtc + 1)
  }

  lemma ApplyThrifty(s: State, step: Step)
    requires Thrifty(s) && (step.Reset? ==> step.rtc <= s.rtc)
    ensures Thrifty(Apply(s, step))
  {
  }

  lemma {:induction false} RunThrifty(s: State, steps: seq<Step>)
    requires Thrifty(s) && RtcNeverAhead(s, steps)
    ensures Thrifty(Run(Apply, s, steps))
    decreases |steps|
  {
    hide Thrifty, Apply;
    if steps != [] {
      ApplyThrifty(s, steps[0]);
      RunThrifty(Apply(s, steps[0]), steps[1..]);
    }
  }

  /** After k boots and n issued numbers the counter is at most n + 65 (k - 1),
      however the crashes fall around the flash writes. */
  lemma SequenceBudget(steps: seq<Step>)
    requires RtcNeverAhead(Factory(0), steps)
    ensures var s := Run(Apply, Factory(0), steps);
            s.pc != Off ==> s.boots >= 1 && s.rtc <= |s.issued| + 65 * (s.boots - 1)
  {
    hide Run, RtcNeverAhead;
    RunThrifty(Factory(0), steps);
  }

  /** A boot whose reservation commits but is cut off before it is used. */
  const WASTED_BOOT: seq<Step> := [Ask, Write(true, false), Reset(0), Boot]

  lemma WastesBoot(s: State)
    requires s.pc == Idle && s.rtc < SEQ_MAX && s.rtc + 1 >= s.reserved
    ensures var t := Run(Apply, s, WASTED_BOOT);
            t == State(s.rtc + 65, s.rtc + 65, s.rtc + 65, Idle, s.issued, s.boots + 1)
    ensures RtcNeverAhead(s, WASTED_BOOT)
  {
    hide Run;
    Four(Apply, s, Ask, Write(true, false), Reset(0), Boot);
    var s1 := Apply(s, Ask);
    var s2 := Apply(s1, Write(true, false));
    var s3 := Apply(s2, Reset(0));
    assert WASTED_BOOT[1..] == [Write(true, false), Reset(0), Boot];
    assert WASTED_BOOT[1..][1..] == [Reset(0), Boot];
    assert [Reset(0), Boot][1..] == [Boot] && [Boot][1..] == [];
    assert RtcNeverAhead(s3, [Boot]);
    assert RtcNeverAhead(s2, [Reset(0), Boot]);
    assert RtcNeverAhead(s1, WASTED_BOOT[1..]);
  }

  lemma {:induction false} NeverAheadAppend(s: State, a: seq<Step>, b: seq<Step>)
    requires RtcNeverAhead(s, a) && RtcNeverAhead(Run(Apply, s, a), b)
    ensures RtcNeverAhead(s, a + b)
    decreases |a|
  {
    hide Apply;
    if a == [] {
      assert a + b == b;
    } else {
      assert (a + b)[1..] == a[1..] + b;
      NeverAheadAppend(Apply(s, a[0]), a[1..], b);
    }
  }

  /** The budget is exact: with k boots and nothing issued the counter can stand at
      65 (k - 1), until the space is used up. */
  lemma {:induction false} BudgetAttained(k: nat) returns (steps: seq<Step>)
    requires k >= 1 && 65 * (k - 1) < SEQ_MAX + 65
    ensures RtcNeverAhead(Factory(0), steps)
    ensures var s := Run(Apply, Factory(0), steps);
            s.boots == k && s.issued == [] && s.rtc == 65 * (k - 1) && s.pc == Idle && s.reserved <= s.rtc
    decreases k
  {
    hide Run, RtcNeverAhead;
    if k == 1 {
      steps := [Boot, Write(false, false)];
      FirstBootFails();
    } else {
      var before := BudgetAttained(k - 1);
      var s := Run(Apply, Factory(0), before);
      WastesBoot(s);
      NeverAheadAppend(Factory(0), before, WASTED_BOOT);
      Append(Apply, Factory(0), before, WASTED_BOOT);
      steps := before + WASTED_BOOT;
    }
  }

  lemma FirstBootFails()
    ensures Run(Apply, Factory(0), [Boot, Write(false, false)]) == State(0, 0, 0, Idle, [], 1)
    ensures RtcNeverAhead(Factory(0), [Boot, Write(false, false)])
  {
    hide Run;
    var s := Factory(0);
    assert [Boot, Write(false, false)] == [Boot] + [Write(false, false)];
    Snoc(Apply, s, [Boot], Write(false, false));
    One(Apply, s, Boot);
    var w := [Write(false, false)];
    assert [Boot, Write(false, false)][1..] == w && w[1..] == [];
    assert RtcNeverAhead(Apply(s, Boot), w);
  }

  // ---------- the code ----------

  class NodeSeq {
    var seqHw: nat          // flash
    var rtcSeq: nat         // RTC memory
    var seqReserved: nat    // RAM
    ghost var issued: seq<nat>
    ghost var boots: nat

    ghost function At(pc: Pc): State
      reads this
    {
      State(seqHw, rtcSeq, seqReserved, pc, issued, boots)
    }

    /** After a reset flash is what it was, RTC memory holds anything, RAM is new. */
    constructor (hw: nat, rtc: u32, ghost was: State)
      requires hw == was.hw
      ensures At(Off) == Apply(was, Reset(rtc))
    {
      seqHw, rtcSeq, seqReserved := hw, rtc, 0;
      issued, boots := was.issued, was.boots;
    }

    method SeqReserve(upto: nat, committed: bool, reported: bool) returns (ok: bool)
      modifies this`seqHw, this`seqReserved
      ensures ok == reported
      ensures At(Idle) == Wrote(old(At(Idle)), upto, Write(committed, reported))
    {
      if committed || reported { seqHw := upto; }
      ok := reported;
      if ok { seqReserved := upto; }
    }

    /** The next SEQ, or 0 when exhausted or when the reservation failed. */
    method NextSeq(committed: bool, reported: bool) returns (n: nat)
      requires Inv(At(Idle))
      modifies this
      ensures Inv(At(Idle))
      ensures At(Idle) == Run(Apply, old(At(Idle)), [Ask, Write(committed, reported), Grant])
      ensures n != 0 ==> issued == old(issued) + [n] && n <= SEQ_MAX && forall m | m in old(issued) :: m < n
      ensures n == 0 <==> issued == old(issued)
      ensures n == 0 ==> old(rtcSeq) >= SEQ_MAX || !reported
    {
      Three(Apply, At(Idle), Ask, Write(committed, reported), Grant);
      ApplyKeeps(At(Idle), Ask);
      ApplyKeeps(Apply(At(Idle), Ask), Write(committed, reported));
      ApplyKeeps(Apply(Apply(At(Idle), Ask), Write(committed, reported)), Grant);
      hide Run, Increasing;
      if rtcSeq >= SEQ_MAX { return 0; }
      var candidate := rtcSeq + 1;
      if candidate >= seqReserved {
        var ok := SeqReserve(candidate + SEQ_CKPT, committed, reported);
        if !ok { return 0; }
      }
      rtcSeq := candidate;
      issued := issued + [candidate];
      n := rtcSeq;
    }

    /** Called on every boot. */
    method SeqRestore(committed: bool, reported: bool)
      modifies this
      ensures At(Idle) == Apply(Apply(old(At(Off)), Boot), Write(committed, reported))
    {
      var hw := seqHw;
      if rtcSeq < hw { rtcSeq := hw; }
      seqReserved := hw;
      boots := boots + 1;
      if hw == 0 { var ok := SeqReserve(SEQ_CKPT, committed, reported); }
    }
  }
}
