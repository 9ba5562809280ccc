/** The sliding-bitmap replay filter, in its Python and its C form, against the
    set of numbers accepted so far. */
module Replay {
  import opened Bits
  import opened Bytes
  import opened Protocol

  datatype Window = Window(last: nat, bitmap: nat, size: nat, seeded: bool)

  function Clamp(size: nat): nat { if size < 1 then 1 else if size > 32 then 32 else size }

  function Init(size: nat): Window { Window(0, 0, Clamp(size), false) }

  // ---------- the specification: a set ----------

  /** Accepted when above everything accepted, or new and within `size` of the highest. */
  predicate Fresh(accepted: set<nat>, size: nat, n: nat) {
    || (forall a | a in accepted :: a < n)
    || (n !in accepted && forall a | a in accepted :: a <= n + size)
  }

  function Extend(accepted: set<nat>, size: nat, n: nat): set<nat> {
    if Fresh(accepted, size, n) then accepted + {n} else accepted
  }

  function SetRun(accepted: set<nat>, size: nat, history: seq<nat>): seq<bool>
    decreases |history|
  {
    if history == [] then []
    else [Fresh(accepted, size, history[0])] + SetRun(Extend(accepted, size, history[0]), size, history[1..])
  }

  /** A number that is rejected stays rejected, whatever is accepted later. */
  lemma RejectedForever(accepted: set<nat>, later: set<nat>, size: nat, n: nat)
    requires accepted <= later && !Fresh(accepted, size, n)
    ensures !Fresh(later, size, n)
  {
    var high :| high in accepted && high >= n;
    assert high in later;
    if n !in accepted {
      var far :| far in accepted && far > n + size;
      assert far in later;
    }
  }

  // ---------- the gateway's filter ----------

  /** `ReplayWindow.check`: the new state, and whether the number is accepted. */
  function CheckPy(r: Window, n: nat): (Window, bool) {
    if !r.seeded then (r.(last := n, bitmap := 0, seeded := true), true)
    else if n > r.last then
      var shift := n - r.last;
      (r.(bitmap := And(Or(r.bitmap * Pow2(shift), Pow2(shift - 1)), ONES), last := n), true)
    else if n == r.last then (r, false)
    else
      var behind := r.last - n;
      if behind > r.size then (r, false)
      else if And(r.bitmap, Pow2(behind - 1)) != 0 then (r, false)
      else (r.(bitmap := Or(r.bitmap, Pow2(behind - 1))), true)
  }

  /** `sps_replay_check` on 32-bit words; it looks at the low 24 bits of SEQ. */
  function CheckC(r: Window, raw: nat): (Window, bool) {
    var n := raw % SEQ_SPACE;
    if !r.seeded then (r.(last := n, bitmap := 0, seeded := true), true)
    else if n > r.last then
      var shift := n - r.last;
      var moved := if shift >= 32 then 0 else Or(U32(r.bitmap * Pow2(shift)), U32(Pow2(shift - 1)));
      (r.(bitmap := moved, last := n), true)
    else if n == r.last then (r, false)
    else
      var behind := r.last - n;
      if behind > r.size then (r, false)
      else if And(r.bitmap, U32(Pow2(behind - 1))) != 0 then (r, false)
      else (r.(bitmap := Or(r.bitmap, U32(Pow2(behind - 1)))), true)
  }

  function RunPy(r: Window, history: seq<nat>): seq<bool>
    decreases |history|
  {
    if history == [] then []
    else var (r', ok) := CheckPy(r, history[0]); [ok] + RunPy(r', history[1..])
  }

  function RunC(r: Window, history: seq<nat>): seq<bool>
    decreases |history|
  {
    if history == [] then []
    else var (r', ok) := CheckC(r, history[0]); [ok] + RunC(r', history[1..])
  }

  // ---------- the refinement ----------

  /** The window holds the set: its highest number, and the `depth` numbers
      below it bit by bit. */
  ghost predicate Holds(r: Window, accepted: set<nat>, depth: nat) {
    && (r.seeded <==> accepted != {})
    && (r.seeded ==> r.last in accepted && forall a | a in accepted :: a <= r.last)
    && forall i: nat | i < depth :: r.seeded ==>
         (BitAt(r.bitmap, i) <==> i < r.last && r.last - 1 - i in accepted)
  }

  lemma MovedBit(bitmap: nat, shift: nat, i: nat)
    requires shift > 0
    ensures BitAt(Or(bitmap * Pow2(shift), Pow2(shift - 1)), i)
       <==> (i >= shift && BitAt(bitmap, i - shift)) || i == shift - 1
  {
    hide Or, Pow2, BitAt;
    OrBit(bitmap * Pow2(shift), Pow2(shift - 1), i);
    ShiftBit(bitmap, shift, i);
    PowerBit(shift - 1, i);
  }

  lemma MaskedBit(x: nat, i: nat)
    ensures BitAt(And(x, ONES), i) <==> i < 32 && BitAt(x, i)
    ensures BitAt(U32(x), i) <==> i < 32 && BitAt(x, i)
  {
    Powers();
    hide And, Pow2, BitAt;
    AndLowMask(x, 32);
    TruncateBit(x, 32, i);
  }

  lemma SetBit(bitmap: nat, k: nat, i: nat)
    ensures BitAt(Or(bitmap, Pow2(k)), i) <==> BitAt(bitmap, i) || i == k
    ensures And(bitmap, Pow2(k)) != 0 <==> BitAt(bitmap, k)
  {
    hide Or, And, Pow2, BitAt;
    OrBit(bitmap, Pow2(k), i);
    PowerBit(k, i);
    AndPowerBit(bitmap, k);
  }

  lemma SmallPower(k: nat)
    requires k < 32
    ensures U32(Pow2(k)) == Pow2(k)
  {
    Powers();
    Pow2Monotone(k + 1, 32);
  }

  /** One check by the gateway is one step of the set, for windows up to 32. */
  lemma StepPy(r: Window, accepted: set<nat>, n: nat)
    requires Holds(r, accepted, 32) && 1 <= r.size <= 32
    ensures CheckPy(r, n).1 == Fresh(accepted, r.size, n)
    ensures Holds(CheckPy(r, n).0, Extend(accepted, r.size, n), 32)
  {
    hide BitAt, Or, And, Pow2;
    var r' := CheckPy(r, n).0;
    if !r.seeded {
      forall i: nat | i < 32 ensures !BitAt(r'.bitmap, i) { ZeroBit(i); }
    } else if n > r.last {
      forall i: nat | i < 32
        ensures BitAt(r'.bitmap, i) <==> i < n && n - 1 - i in accepted + {n}
      {
        var shift := n - r.last;
        MovedBit(r.bitmap, shift, i);
        MaskedBit(Or(r.bitmap * Pow2(shift), Pow2(shift - 1)), i);
        if i >= shift { assert r.last - 1 - (i - shift) == n - 1 - i; }
      }
    } else if n < r.last {
      SetBit(r.bitmap, r.last - n - 1, r.last - n - 1);
      forall i: nat | i < 32
        ensures r'.bitmap != r.bitmap ==> (BitAt(r'.bitmap, i) <==> i < r.last && r.last - 1 - i in accepted + {n})
      {
        SetBit(r.bitmap, r.last - n - 1, i);
      }
    }
  }

  /** One check by the C library is one step of the set, for windows up to 31:
      a jump of exactly 32 forgets the old highest number, which only a window
      of 32 would still look at. */
  lemma StepC(r: Window, accepted: set<nat>, n: nat)
    requires Holds(r, accepted, 31) && 1 <= r.size <= 31 && n < SEQ_SPACE
    ensures CheckC(r, n).1 == Fresh(accepted, r.size, n)
    ensures Holds(CheckC(r, n).0, Extend(accepted, r.size, n), 31)
  {
    hide BitAt, Or, And, Pow2, U32;
    var r' := CheckC(r, n).0;
    if !r.seeded {
      forall i: nat | i < 31 ensures !BitAt(r'.bitmap, i) { ZeroBit(i); }
    } else if n > r.last {
      var shift := n - r.last;
      forall i: nat | i < 31
        ensures BitAt(r'.bitmap, i) <==> i < n && n - 1 - i in accepted + {n}
      {
        if shift >= 32 {
          ZeroBit(i);
        } else {
          SmallPower(shift - 1);
          OrBit(U32(r.bitmap * Pow2(shift)), Pow2(shift - 1), i);
          MaskedBit(r.bitmap * Pow2(shift), i);
          ShiftBit(r.bitmap, shift, i);
          PowerBit(shift - 1, i);
          if i >= shift { assert r.last - 1 - (i - shift) == n - 1 - i; }
        }
      }
    } else if n < r.last && r.last - n <= r.size {
      SmallPower(r.last - n - 1);
      SetBit(r.bitmap, r.last - n - 1, r.last - n - 1);
      forall i: nat | i < 31
        ensures r'.bitmap != r.bitmap ==> (BitAt(r'.bitmap, i) <==> i < r.last && r.last - 1 - i in accepted + {n})
      {
        SetBit(r.bitmap, r.last - n - 1, i);
      }
    }
  }

  lemma {:induction false} RunsPy(r: Window, accepted: set<nat>, history: seq<nat>)
    requires Holds(r, accepted, 32) && 1 <= r.size <= 32
    ensures RunPy(r, history) == SetRun(accepted, r.size, history)
    decreases |history|
  {
    hide CheckPy, Holds, Fresh;
    if history != [] {
      StepPy(r, accepted, history[0]);
      SizeKept(r, history[0]);
      RunsPy(CheckPy(r, history[0]).0, Extend(accepted, r.size, history[0]), history[1..]);
    }
  }

  lemma SizeKept(r: Window, n: nat)
    ensures CheckPy(r, n).0.size == r.size && CheckC(r, n).0.size == r.size
  {
    hide Or, And, Pow2, U32;
  }

  lemma {:induction false} RunsC(r: Window, accepted: set<nat>, history: seq<nat>)
    requires Holds(r, accepted, 31) && 1 <= r.size <= 31
    requires forall n | n in history :: n < SEQ_SPACE
    ensures RunC(r, history) == SetRun(accepted, r.size, history)
    decreases |history|
  {
    hide CheckC, Holds, Fresh;
    if history != [] {
      assert history[0] in history && forall n | n in history[1..] :: n in history;
      StepC(r, accepted, history[0]);
      SizeKept(r, history[0]);
      RunsC(CheckC(r, history[0]).0, Extend(accepted, r.size, history[0]), history[1..]);
    }
  }

  /** In every history the gateway's filter gives the set's verdicts. */
  lemma PyRefinesSet(size: nat, history: seq<nat>)
    ensures RunPy(Init(size), history) == SetRun({}, Clamp(size), history)
  {
    RunsPy(Init(size), {}, history);
  }

  ghost predicate CRefinesSet(size: nat) {
    forall history: seq<nat> | (forall n | n in history :: n < SEQ_SPACE) ::
      RunC(Init(size), history) == SetRun({}, Clamp(size), history)
  }

  /** The C filter gives the set's verdicts, and so the gateway's, in every
      history exactly when its window is at most 31. */
  lemma CRefinesSetIff(size: nat)
    ensures CRefinesSet(size) <==> size <= 31
  {
    if size <= 31 {
      forall history: seq<nat> | forall n | n in history :: n < SEQ_SPACE
        ensures RunC(Init(size), history) == SetRun({}, Clamp(size), history)
      {
        RunsC(Init(size), {}, history);
      }
    } else {
      Window32Forgets();
      assert forall n | n in [0, 32, 0] :: n < SEQ_SPACE;
      assert Init(size) == Init(32);
    }
  }

  /** With a window of 32, after 0 and 32 the C filter accepts 0 a second time. */
  lemma Window32Forgets()
    ensures RunC(Init(32), [0, 32, 0]) == [true, true, true]
    ensures SetRun({}, 32, [0, 32, 0]) == [true, true, false]
  {
    var r0 := Init(32);
    var r1, r2 := CheckC(r0, 0).0, CheckC(CheckC(r0, 0).0, 32).0;
    assert r2 == Window(32, 0, 32, true);
    assert CheckC(r2, 0).1;
    var h: seq<nat> := [0, 32, 0];
    assert h[1..] == [32, 0] && h[1..][1..] == [0] && h[1..][1..][1..] == [];
    assert RunC(r2, [0]) == [true] + RunC(CheckC(r2, 0).0, []);
    assert RunC(r1, [32, 0]) == [true] + RunC(r2, [0]);
    assert Extend({}, 32, 0) == {0} && Extend({0}, 32, 32) == {0, 32};
    assert !Fresh({0, 32}, 32, 0) by { assert 0 in {0, 32}; }
    assert SetRun({0, 32}, 32, [0]) == [false] + SetRun(Extend({0, 32}, 32, 0), 32, []);
    assert SetRun({0}, 32, [32, 0]) == [true] + SetRun({0, 32}, 32, [0]);
  }

  // ---------- the objects ----------

  /** The gateway's object; `accepted` is the set it stands for. */
  class ReplayWindow {
    const size: nat
    var lastSeq: nat
    var bitmap: nat
    var seeded: bool
    ghost var accepted: set<nat>

    ghost function State(): Window reads this { Window(lastSeq, bitmap, size, seeded) }

    ghost predicate Valid()
      reads this
    {
      1 <= size <= 32 && Holds(State(), accepted, 32)
    }

    constructor (window: nat)
      ensures Valid() && accepted == {} && State() == Init(window)
    {
      size := if window < 1 then 1 else if window > 32 then 32 else window;
      lastSeq, bitmap, seeded, accepted := 0, 0, false, {};
    }

    /** False stands for the ReplayError that the source raises. */
    method Check(n: nat) returns (ok: bool)
      requires Valid()
      modifies this
      ensures Valid() && (State(), ok) == CheckPy(old(State()), n)
      ensures ok == Fresh(old(accepted), size, n) && accepted == Extend(old(accepted), size, n)
    {
      hide BitAt, Or, And, Pow2, Holds, Fresh;
      StepPy(State(), accepted, n);
      ghost var accepted' := Extend(accepted, size, n);
      if !seeded {
        lastSeq, bitmap, seeded, accepted := n, 0, true, accepted';
        return true;
      }
      if n > lastSeq {
        var shift := n - lastSeq;
        bitmap := And(Or(bitmap * Pow2(shift), Pow2(shift - 1)), ONES);
        lastSeq, accepted := n, accepted';
        return true;
      }
      if n == lastSeq { return false; }
      var behind := lastSeq - n;
      if behind > size { return false; }
      var bit := Pow2(behind - 1);
      if And(bitmap, bit) != 0 { return false; }
      bitmap, accepted := Or(bitmap, bit), accepted';
      return true;
    }
  }

  /** The C struct, for windows up to 31. */
  class SpsReplay {
    const size: nat
    var lastSeq: nat
    var bitmap: nat
    var seeded: bool
    ghost var accepted: set<nat>

    ghost function State(): Window reads this { Window(lastSeq, bitmap, size, seeded) }

    ghost predicate Valid()
      reads this
    {
      1 <= size <= 32 && (size <= 31 ==> Holds(State(), accepted, 31))
    }

    constructor (window: nat)
      ensures Valid() && accepted == {} && State() == Init(window)
    {
      size := if window < 1 then 1 else if window > 32 then 32 else window;
      lastSeq, bitmap, seeded, accepted := 0, 0, false, {};
    }

    method Check(raw: nat) returns (ok: bool)
      requires Valid()
      modifies this
      ensures Valid() && (State(), ok) == CheckC(old(State()), raw)
      ensures size <= 31 ==> ok == Fresh(old(accepted), size, raw % SEQ_SPACE)
      ensures accepted == Extend(old(accepted), size, raw % SEQ_SPACE)
    {
      hide BitAt, Or, And, Pow2, U32, Holds, Fresh;
      var n := raw % SEQ_SPACE;
      if size <= 31 { StepC(State(), accepted, n); }
      accepted := Extend(accepted, size, n);
      if !seeded {
        seeded, lastSeq, bitmap := true, n, 0;
        return true;
      }
      if n > lastSeq {
        var shift := n - lastSeq;
        bitmap := if shift >= 32 then 0 else Or(U32(bitmap * Pow2(shift)), U32(Pow2(shift - 1)));
        lastSeq := n;
        return true;
      }
      if n == lastSeq { return false; }
      var behind := lastSeq - n;
      if behind > size { return false; }
      var bit := U32(Pow2(behind - 1));
      if And(bitmap, bit) != 0 { return false; }
      bitmap := Or(bitmap, bit);
      return true;
    }
  }
}
