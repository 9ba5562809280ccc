/** The relay's ring of recently forwarded (node, SEQ) pairs. */
module Dedupe {
  import opened Bits
  import opened Bytes

  const SLOTS: nat := 32
  const EMPTY: nat := 0xffff_ffff_ffff_ffff

  /** The exact pair in one word: the node above the 24-bit SEQ. */
  function Tag(nodeId: u16, seqNo: u32): nat { Or(nodeId * 0x100_0000, seqNo % 0x100_0000) }

  lemma TagIs(nodeId: u16, seqNo: u32)
    ensures Tag(nodeId, seqNo) == nodeId * 0x100_0000 + seqNo % 0x100_0000 < EMPTY
  {
    hide Or, Pow2;
    Powers();
    OrCommutes(nodeId * 0x100_0000, seqNo % 0x100_0000);
    OrDisjoint(seqNo % 0x100_0000, nodeId, 24);
  }

  /** Different pairs have different tags, and none is the empty marker. */
  lemma TagInjective(n1: u16, s1: u32, n2: u16, s2: u32)
    ensures Tag(n1, s1) == Tag(n2, s2) <==> n1 == n2 && s1 % 0x100_0000 == s2 % 0x100_0000
    ensures Tag(n1, s1) != EMPTY
  {
    hide Tag;
    TagIs(n1, s1);
    TagIs(n2, s2);
  }

  // ---------- the specification: the last 32 new pairs ----------

  function Recent(inserted: seq<nat>): seq<nat> {
    if |inserted| <= SLOTS then inserted else inserted[|inserted| - SLOTS..]
  }

  function Insert(inserted: seq<nat>, tag: nat): seq<nat> {
    if tag in Recent(inserted) then inserted else inserted + [tag]
  }

  /** The new pairs of a whole history, in order. */
  function Inserted(history: seq<nat>): seq<nat> {
    if history == [] then [] else Insert(Inserted(history[..|history| - 1]), history[|history| - 1])
  }

  /** In every history a pair counts as new again only after 32 other new
      pairs, so the ring never holds a pair twice. */
  lemma {:induction false} NewAgainAfter32(history: seq<nat>, i: nat, j: nat)
    requires i < j < |Inserted(history)| && Inserted(history)[i] == Inserted(history)[j]
    ensures j - i > 32
  {
    var before := Inserted(history[..|history| - 1]);
    if j < |before| {
      NewAgainAfter32(history[..|history| - 1], i, j);
    } else if |before| - SLOTS <= i {
      InRecent(before, i);
    }
  }

  lemma InRecent(inserted: seq<nat>, i: nat)
    requires i < |inserted| && |inserted| - SLOTS <= i
    ensures inserted[i] in Recent(inserted)
  {
    assert Recent(inserted)[if |inserted| <= SLOTS then i else i - (|inserted| - SLOTS)] == inserted[i];
  }

  /** A pair counts as new exactly when none of the last 32 new pairs equals it. */
  lemma NewIff(inserted: seq<nat>, tag: nat)
    ensures Insert(inserted, tag) == inserted + [tag] <==>
              forall i | 0 <= i < |inserted| && |inserted| - 32 <= i :: inserted[i] != tag
    ensures Insert(inserted, tag) == inserted || Insert(inserted, tag) == inserted + [tag]
  {
    if tag in Recent(inserted) {
      var k :| 0 <= k < |Recent(inserted)| && Recent(inserted)[k] == tag;
      var i := if |inserted| <= SLOTS then k else k + |inserted| - SLOTS;
      assert inserted[i] == tag;
    }
    forall i | 0 <= i < |inserted| && |inserted| - 32 <= i && inserted[i] == tag ensures tag in Recent(inserted) {
      InRecent(inserted, i);
    }
  }

  // ---------- the ring ----------

  /** The slots hold exactly the last 32 insertions, each at its number modulo 32. */
  ghost predicate Ring(slots: seq<nat>, head: nat, inserted: seq<nat>) {
    && |slots| == SLOTS && head == |inserted| % SLOTS
    && (forall i | 0 <= i < |inserted| && |inserted| - SLOTS <= i :: slots[i % SLOTS] == inserted[i])
    && (forall j | |inserted| <= j < SLOTS :: slots[j] == EMPTY)
  }

  lemma RingHolds(slots: seq<nat>, head: nat, inserted: seq<nat>, tag: nat)
    requires Ring(slots, head, inserted) && tag != EMPTY
    ensures tag in slots <==> tag in Recent(inserted)
  {
    hide Ring, Recent;
    if tag in slots { SlotIsRecent(slots, head, inserted, tag); }
    if tag in Recent(inserted) { RecentHasSlot(slots, head, inserted, tag); }
  }

  lemma SlotIsRecent(slots: seq<nat>, head: nat, inserted: seq<nat>, tag: nat)
    requires Ring(slots, head, inserted) && tag != EMPTY && tag in slots
    ensures tag in Recent(inserted)
  {
    hide Recent;
    var j :| 0 <= j < SLOTS && slots[j] == tag;
    var i := Latest(|inserted|, j);
    assert slots[i % SLOTS] == inserted[i];
    InRecent(inserted, i);
  }

  lemma RecentHasSlot(slots: seq<nat>, head: nat, inserted: seq<nat>, tag: nat)
    requires Ring(slots, head, inserted) && tag in Recent(inserted)
    ensures tag in slots
  {
    var k :| 0 <= k < |Recent(inserted)| && Recent(inserted)[k] == tag;
    var i := if |inserted| <= SLOTS then k else k + |inserted| - SLOTS;
    assert slots[i % SLOTS] == inserted[i];
  }

  /** The insertion whose tag slot j holds. */
  function Latest(n: nat, j: nat): (i: nat)
    requires j < SLOTS && j < n
    ensures i < n && n - SLOTS <= i && i % SLOTS == j
  {
    n - 1 - (n - 1 - j) % SLOTS
  }

  lemma RingInsert(slots: seq<nat>, head: nat, inserted: seq<nat>, tag: nat)
    requires Ring(slots, head, inserted)
    ensures Ring(slots[head := tag], (head + 1) % SLOTS, inserted + [tag])
  {
    var n := |inserted|;
    forall i | 0 <= i < n && n + 1 - SLOTS <= i
      ensures i % SLOTS != head
    {
      if i % SLOTS == head { Apart(n, i); }
    }
  }

  lemma Apart(n: nat, i: nat)
    requires i < n < i + SLOTS
    ensures i % SLOTS != n % SLOTS
  {
  }

  class DedupeRing {
    const slot: array<nat>
    var head: nat
    ghost var inserted: seq<nat>

    ghost predicate Valid()
      reads this, slot
    {
      Ring(slot[..], head, inserted)
    }

    constructor ()
      ensures Valid() && fresh(slot) && inserted == []
    {
      slot := new nat[SLOTS](_ => EMPTY);
      head := 0;
      inserted := [];
    }

    /** True iff the pair is among the 32 most recent new pairs; records it otherwise. */
    method Seen(nodeId: u16, seqNo: u32) returns (seen: bool)
      requires Valid()
      modifies this, slot
      ensures Valid()
      ensures seen <==> Tag(nodeId, seqNo) in Recent(old(inserted))
      ensures inserted == Insert(old(inserted), Tag(nodeId, seqNo))
    {
      hide Tag, Ring;
      var tag := Tag(nodeId, seqNo);
      TagInjective(nodeId, seqNo, nodeId, seqNo);
      RingHolds(slot[..], head, inserted, tag);
      RingInsert(slot[..], head, inserted, tag);
      RingShape(slot[..], head, inserted);
      for i := 0 to SLOTS
        invariant tag !in slot[..i]
      {
        if slot[i] == tag {
          assert tag in slot[..];
          return true;
        }
      }
      assert slot[..SLOTS] == slot[..];
      slot[head] := tag;
      assert slot[..] == old(slot[..])[head := tag];
      head := (head + 1) % SLOTS;
      inserted := inserted + [tag];
      return false;
    }
  }

  lemma RingShape(slots: seq<nat>, head: nat, inserted: seq<nat>)
    requires Ring(slots, head, inserted)
    ensures |slots| == SLOTS && head < SLOTS
  {
  }
}
