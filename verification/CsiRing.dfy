/** The ring between the WiFi task, which ingests turbulence values, and the main
    loop, which drains them.  The machine below takes one shared read or write
    per step and interleaves the two tasks freely; the class is the code itself. */
module CsiRing {
  import opened Bytes
  import opened Machine

  const RING: nat := 256

  type Turbulence = real

  /** The shared fields. */
  datatype Cells = Cells(ring: seq<Turbulence>, head: nat, tail: nat, frames: nat, drops: nat)

  /** Where ingestTurbulence stands; each name says what is done next. */
  datatype Producer =
    | Idle
    | ReadHead(t: Turbulence)
    | ReadTail(t: Turbulence, h: nat)
    | CountDrop(t: Turbulence)
    | WriteSlot(t: Turbulence, h: nat)
    | PublishHead(t: Turbulence, h: nat)

  /** Where the draining loop of poll stands. */
  datatype Consumer =
    | Resting
    | Looping(head: nat)
    | Holding(head: nat, t: Turbulence)

  /** The history of one session, that is, since `begin`: the values handed to
      ingestTurbulence, which of them were kept, and what the consumer got. */
  datatype Past = Past(started: seq<Turbulence>, outcome: seq<bool>, kept: seq<Turbulence>,
                       consumed: seq<Turbulence>, dropsBefore: nat)

  /** `seen` is how many kept values the consumer's copy of the head covers. */
  datatype State = State(cells: Cells, prod: Producer, cons: Consumer, past: Past, seen: nat)

  /** Ingest starts a call when the producer is idle, Produce and Consume take
      the next shared access of either task, Poll starts a drain, Begin resets. */
  datatype Step = Ingest(t: Turbulence) | Produce | Poll | Consume | Begin

  function Next(h: nat): nat { (h + 1) % RING }

  function StepProducer(s: State): State {
    var c := s.cells;
    match s.prod
    case Idle => s
    case ReadHead(t) => s.(prod := ReadTail(t, c.head))
    case ReadTail(t, h) => s.(prod := if Next(h) == c.tail then CountDrop(t) else WriteSlot(t, h))
    case CountDrop(t) =>
      s.(cells := c.(drops := (c.drops + 1) % TWO_32), prod := Idle, past := s.past.(outcome := s.past.outcome + [false]))
    case WriteSlot(t, h) =>
      if h < |c.ring| then s.(cells := c.(ring := c.ring[h := t]), prod := PublishHead(t, h)) else s
    case PublishHead(t, h) =>
      s.(cells := c.(head := Next(h)), prod := Idle, past := s.past.(outcome := s.past.outcome + [true], kept := s.past.kept + [t]))
  }

  function StepConsumer(s: State): State {
    var c := s.cells;
    match s.cons
    case Resting => s
    case Looping(head) =>
      if c.tail == head then s.(cons := Resting)
      else if c.tail < |c.ring| then s.(cons := Holding(head, c.ring[c.tail])) else s
    case Holding(head, t) =>
      s.(cells := c.(tail := Next(c.tail)), cons := Looping(head), past := s.past.(consumed := s.past.consumed + [t]))
  }

  function Apply(s: State, step: Step): State {
    match step
    case Ingest(t) =>
      if s.prod.Idle? then
        s.(cells := s.cells.(frames := (s.cells.frames + 1) % TWO_32), prod := ReadHead(t),
           past := s.past.(started := s.past.started + [t]))
      else s
    case Produce => StepProducer(s)
    case Poll => if s.cons.Resting? then s.(cons := Looping(s.cells.head), seen := |s.past.kept|) else s
    case Consume => StepConsumer(s)
    case Begin =>
      // the callback is not registered and poll is not running
      if s.prod.Idle? && s.cons.Resting? then
        s.(cells := s.cells.(head := 0, tail := 0, frames := 0), past := Past([], [], [], [], s.cells.drops), seen := 0)
      else s
  }

  // ---------- the invariant ----------

  ghost predicate Fifo(ring: seq<Turbulence>, head: nat, tail: nat, kept: seq<Turbulence>, consumed: seq<Turbulence>) {
    && |ring| == RING
    && |consumed| <= |kept| < |consumed| + RING
    && consumed == kept[..|consumed|]
    && head == |kept| % RING && tail == |consumed| % RING
    && forall i | |consumed| <= i < |kept| :: ring[i % RING] == kept[i]
  }

  ghost predicate ProducerOk(s: State) {
    var room := |s.past.kept| + 1 < |s.past.consumed| + RING;
    match s.prod
    case Idle => true
    case ReadHead(t) => true
    case ReadTail(t, h) => h == s.cells.head
    case CountDrop(t) => true
    case WriteSlot(t, h) => h == s.cells.head && room
    case PublishHead(t, h) => h == s.cells.head && room && |s.cells.ring| == RING && h < RING && s.cells.ring[h] == t
  }

  ghost predicate ConsumerOk(s: State) {
    && |s.past.consumed| <= |s.past.kept|
    && (!s.cons.Resting? ==>
          |s.past.consumed| <= s.seen <= |s.past.kept| && s.cons.head == s.seen % RING)
    && (s.cons.Holding? ==> |s.past.consumed| < s.seen && s.cons.t == s.past.kept[|s.past.consumed|])
  }

  function Dropped(past: Past): int { |past.outcome| - |past.kept| }

  /** Frames counted but neither kept nor dropped yet. */
  function InFlight(s: State): nat { if s.prod.Idle? then 0 else 1 }

  /** The values whose outcome is true, in order. */
  function Kept(started: seq<Turbulence>, outcome: seq<bool>): seq<Turbulence>
    requires |outcome| <= |started|
  {
    if outcome == [] then []
    else
      var n := |outcome| - 1;
      Kept(started, outcome[..n]) + (if outcome[n] then [started[n]] else [])
  }

  lemma {:induction false} KeptPrefix(started: seq<Turbulence>, more: seq<Turbulence>, outcome: seq<bool>)
    requires |outcome| <= |started|
    ensures Kept(started + more, outcome) == Kept(started, outcome)
  {
    if outcome != [] { KeptPrefix(started, more, outcome[..|outcome| - 1]); }
  }

  lemma KeptNext(started: seq<Turbulence>, outcome: seq<bool>, ok: bool)
    requires |outcome| < |started|
    ensures Kept(started, outcome + [ok]) == Kept(started, outcome) + if ok then [started[|outcome|]] else []
  {
    assert (outcome + [ok])[..|outcome|] == outcome;
  }

  ghost predicate PastOk(s: State) {
    && |s.past.started| == |s.past.outcome| + InFlight(s)
    && s.past.kept == Kept(s.past.started, s.past.outcome)
    && (!s.prod.Idle? ==> s.prod.t == s.past.started[|s.past.outcome|])
  }

  ghost predicate Inv(s: State) {
    && PastOk(s)
    && Fifo(s.cells.ring, s.cells.head, s.cells.tail, s.past.kept, s.past.consumed)
    && ProducerOk(s) && ConsumerOk(s)
    && s.cells.frames == |s.past.started| % TWO_32
    && |s.past.kept| <= |s.past.outcome|
    && s.cells.drops == (s.past.dropsBefore + Dropped(s.past)) % TWO_32
  }

  lemma SlotApart(i: nat, j: nat)
    requires i < j < i + RING
    ensures i % RING != j % RING
  {
  }

  lemma NextSlot(n: nat)
    ensures Next(n % RING) == (n + 1) % RING
  {
  }

  /** The full test sees room exactly when fewer than 255 values are queued. */
  lemma FullTest(kept: nat, consumed: nat)
    requires consumed <= kept < consumed + RING
    ensures Next(kept % RING) == consumed % RING <==> kept + 1 == consumed + RING
  {
    NextSlot(kept);
    if kept + 1 < consumed + RING { SlotApart(consumed, kept + 1); }
  }

  lemma ProducerKeeps(s: State)
    requires Inv(s)
    ensures Inv(StepProducer(s))
  {
    hide Next, Kept;
    var k, c := |s.past.kept|, |s.past.consumed|;
    match s.prod
    case Idle =>
    case ReadHead(t) =>
    case ReadTail(t, h) => FullTest(k, c);
    case CountDrop(t) =>
      KeptNext(s.past.started, s.past.outcome, false);
    case WriteSlot(t, h) =>
      forall i | c <= i < k ensures i % RING != h { SlotApart(i, k); }
    case PublishHead(t, h) =>
      NextSlot(k);
      KeptNext(s.past.started, s.past.outcome, true);
  }

  lemma ConsumerKeeps(s: State)
    requires Inv(s)
    ensures Inv(StepConsumer(s))
  {
    hide Next, Kept;
    var c := |s.past.consumed|;
    match s.cons
    case Resting =>
    case Looping(head) =>
      if c < s.seen { SlotApart(c, s.seen); }
    case Holding(head, t) =>
      NextSlot(c);
  }

  lemma ApplyKeeps(s: State, step: Step)
    requires Inv(s)
    ensures Inv(Apply(s, step))
  {
    hide Inv;
    match step
    case Ingest(t) => IngestKeeps(s, t);
    case Produce => ProducerKeeps(s);
    case Poll => PollKeeps(s);
    case Consume => ConsumerKeeps(s);
    case Begin => BeginKeeps(s);
  }

  lemma IngestKeeps(s: State, t: Turbulence)
    requires Inv(s)
    ensures Inv(Apply(s, Ingest(t)))
  {
    hide Kept;
    KeptPrefix(s.past.started, [t], s.past.outcome);
  }

  lemma PollKeeps(s: State)
    requires Inv(s)
    ensures Inv(Apply(s, Poll))
  {
    hide Kept;
  }

  lemma BeginKeeps(s: State)
    requires Inv(s)
    ensures Inv(Apply(s, Begin))
  {
  }

  /** Power-up: zeroed counters, arbitrary ring contents. */
  function Boot(ring: seq<Turbulence>): State {
    State(Cells(ring, 0, 0, 0, 0), Idle, Resting, Past([], [], [], [], 0), 0)
  }

  /** Under every interleaving the consumer has received, in order, a prefix of
      the values that were not dropped; the rest, at most 255, waits in the ring;
      and every frame counted since `begin` is consumed, queued, dropped since
      `begin`, or still in the producer's hands. */
  lemma RingIsBoundedFifo(ring: seq<Turbulence>, steps: seq<Step>)
    requires |ring| == RING
    ensures var s := Run(Apply, Boot(ring), steps);
            var queued := |s.past.kept| - |s.past.consumed|;
            && |s.past.outcome| <= |s.past.started| && |s.cells.ring| == RING
            && s.past.kept == Kept(s.past.started, s.past.outcome)
            && s.past.consumed <= s.past.kept && queued <= 255
            && (forall i | |s.past.consumed| <= i < |s.past.kept| :: s.cells.ring[i % RING] == s.past.kept[i])
            && s.cells.tail == |s.past.consumed| % RING
            && s.cells.frames == (|s.past.consumed| + queued + Dropped(s.past) + InFlight(s)) % TWO_32
            && s.cells.drops == (s.past.dropsBefore + Dropped(s.past)) % TWO_32
  {
    hide Run, ProducerOk, ConsumerOk, Kept;
    BootOk(ring);
    forall s, t | Inv(s) ensures Inv(Apply(s, t)) { ApplyKeeps(s, t); }
    Keeps(Apply, s => Inv(s), Boot(ring), steps);
  }

  lemma BootOk(ring: seq<Turbulence>)
    requires |ring| == RING
    ensures Inv(Boot(ring))
  {
  }

  /** One whole call of ingestTurbulence. */
  function IngestSteps(t: Turbulence): seq<Step> { [Ingest(t)] + [Produce] + [Produce] + [Produce] + [Produce] }

  lemma RunIngest(s: State, t: Turbulence)
    ensures Run(Apply, s, IngestSteps(t)) == StepProducer(StepProducer(StepProducer(StepProducer(Apply(s, Ingest(t))))))
  {
    hide StepProducer, Run;
    Append(Apply, s, [Ingest(t)] + [Produce] + [Produce] + [Produce], [Produce]);
    Append(Apply, s, [Ingest(t)] + [Produce] + [Produce], [Produce]);
    Append(Apply, s, [Ingest(t)] + [Produce], [Produce]);
    Append(Apply, s, [Ingest(t)], [Produce]);
    One(Apply, s, Ingest(t));
    var s1 := Apply(s, Ingest(t));
    One(Apply, s1, Produce);
    One(Apply, StepProducer(s1), Produce);
    One(Apply, StepProducer(StepProducer(s1)), Produce);
    One(Apply, StepProducer(StepProducer(StepProducer(s1))), Produce);
  }

  /** One whole drain of n values: two accesses for each, and one to see the end. */
  function DrainSteps(n: nat): seq<Step> { [Poll] + Consumes(2 * n + 1) }

  function Consumes(n: nat): seq<Step> { seq(n, _ => Consume) }

  function Draining(s: State, n: nat): State { Run(Apply, s, [Poll] + Consumes(n)) }

  lemma DrainStarts(s: State)
    ensures Draining(s, 0) == Apply(s, Poll)
  {
    hide Run;
    assert [Poll] + Consumes(0) == [Poll];
    One(Apply, s, Poll);
  }

  lemma DrainGoesOn(s: State, n: nat)
    ensures Draining(s, n + 1) == StepConsumer(Draining(s, n))
  {
    hide Run;
    assert [Poll] + Consumes(n + 1) == [Poll] + Consumes(n) + [Consume];
    Snoc(Apply, s, [Poll] + Consumes(n), Consume);
  }

  // ---------- the code ----------

  /** The shared fields with neither task inside the class. */
  function AtRest(cells: Cells): State { State(cells, Idle, Resting, Past([], [], [], [], 0), 0) }

  class CsiQueue {
    const ring: array<Turbulence>
    var head: nat
    var tail: nat
    var frames: nat
    var drops: nat
    ghost var kept: seq<Turbulence>
    ghost var consumed: seq<Turbulence>

    ghost predicate Valid()
      reads this, ring
    {
      Fifo(ring[..], head, tail, kept, consumed)
    }

    ghost function Shared(): Cells
      reads this, ring
    {
      Cells(ring[..], head, tail, frames, drops)
    }

    /** One call, uninterrupted, is the machine's five steps: the value joins
        the queue or, when 255 are waiting, is counted as dropped. */
    method IngestTurbulence(t: Turbulence)
      requires Valid()
      modifies this`head, this`frames, this`drops, this`kept, ring
      ensures Valid()
      ensures kept == if |old(kept)| - |consumed| == 255 then old(kept) else old(kept) + [t]
      ensures frames == (old(frames) + 1) % TWO_32
      ensures drops == if kept == old(kept) then (old(drops) + 1) % TWO_32 else old(drops)
      ensures Shared() == Run(Apply, AtRest(old(Shared())), IngestSteps(t)).cells
    {
      hide Next, Run;
      RunIngest(AtRest(Shared()), t);
      FullTest(|kept|, |consumed|);
      NextSlot(|kept|);
      frames := (frames + 1) % TWO_32;
      var h := head;
      var next := Next(h);
      if next == tail {
        drops := (drops + 1) % TWO_32;
        return;
      }
      ring[h] := t;
      assert ring[..] == old(ring[..])[h := t];
      head := next;
      forall i | |consumed| <= i < |kept| ensures i % RING != h { SlotApart(i, |kept|); }
      kept := kept + [t];
    }

    /** The drain at the start of poll: everything queued, in order; uninterrupted
        it is the machine's run, which then rests. */
    method Drain() returns (values: seq<Turbulence>)
      requires Valid()
      modifies this`tail, this`consumed
      ensures Valid() && consumed == kept
      ensures old(consumed) + values == kept
      ensures var end := Run(Apply, AtRest(old(Shared())), DrainSteps(|values|));
              end.cells == Shared() && end.past.consumed == values && end.cons == Resting
    {
      hide Next, Run, Draining;
      ghost var s := AtRest(Shared());
      DrainStarts(s);
      values := [];
      var head' := head;
      if |consumed| < |kept| { SlotApart(|consumed|, |kept|); }
      while tail != head'
        invariant Valid() && head' == head && kept == old(kept)
        invariant old(consumed) + values == consumed
        invariant tail != head' <==> |consumed| < |kept|
        invariant var now := Draining(s, 2 * |values|);
                  now.cells == Shared() && now.past.consumed == values && now.cons == Looping(head')
        decreases |kept| - |consumed|
      {
        DrainGoesOn(s, 2 * |values|);
        DrainGoesOn(s, 2 * |values| + 1);
        var t := ring[tail];
        NextSlot(|consumed|);
        tail := Next(tail);
        values := values + [t];
        consumed := consumed + [t];
        if |consumed| < |kept| { SlotApart(|consumed|, |kept|); }
      }
      DrainGoesOn(s, 2 * |values|);
      assert Draining(s, 2 * |values| + 1) == Run(Apply, s, DrainSteps(|values|)) by { DrainIs(s, |values|); }
    }
  }

  lemma DrainIs(s: State, n: nat)
    ensures Draining(s, 2 * n + 1) == Run(Apply, s, DrainSteps(n))
  {
    hide Run;
  }
}
