/** What the recovery spool gives back: what was stored, by hash and by height. */
module SpoolRules {
  import opened Bytes
  import opened Primitives
  import opened RecoverySpool
  import Canonical

  /** Every block is filed under its own number. */
  ghost predicate Filed(s: Spool) {
    forall slot :: slot in s.slots ==> s.slots[slot].block.header.number == slot.height
  }

  /** A stored block is found by its hash at once, whatever the spool held before, with
      its work, and no other slot is touched. */
  lemma StoredIsFound(s: Spool, tip: Hash256, e: Entry, s': Spool, r: Option<Entry>)
    requires LookedUp(Stored(s, tip, e), Canonical.HeaderHash(e.block.header), s', r)
    ensures r == Some(e) && s' == Stored(s, tip, e)
    ensures forall slot :: slot != Slot(tip, e.block.header.number) ==>
      (slot in s'.slots <==> slot in s.slots) && (slot in s.slots ==> s'.slots[slot] == s.slots[slot])
    ensures forall h :: h != Canonical.HeaderHash(e.block.header) ==>
      (h in s'.index <==> h in s.index) && (h in s.index ==> s'.index[h] == s.index[h])
  {
    hide Canonical.HeaderHash;
  }

  /** A lookup that found its block leads straight to the same one the next time. */
  lemma LookupRepeats(s: Spool, h: Hash256, s': Spool, r: Option<Entry>, s'': Spool, r': Option<Entry>)
    requires LookedUp(s, h, s', r) && LookedUp(s', h, s'', r') && r.Some?
    ensures r' == r && s'' == s' && h in s'.index && s'.index[h].Base?
    ensures forall g :: g != h ==> (g in s'.index <==> g in s.index) && (g in s.index ==> s'.index[g] == s.index[g])
  {
    hide HashOf;
  }

  /** After a listing every block of the tip is reached without a scan. */
  lemma ListingIndexes(s: Spool, tip: Hash256, s': Spool, slot: Slot)
    requires Listed(s, tip, s') && slot in s.slots && slot.tip == tip
    ensures var h := Canonical.HeaderHash(s.slots[slot].block.header);
      h in s'.index && s'.index[h].Base? && s'.index[h].slot.tip == tip && s'.index[h].slot in s'.slots &&
      Canonical.HeaderHash(s'.slots[s'.index[h].slot].block.header) == h
  {
    hide Canonical.HeaderHash;
  }

  /** Clearing a tip removes its slots and the index entries of their blocks, and
      nothing else. */
  lemma ClearedExactly(s: Spool, tip: Hash256)
    ensures forall slot :: slot in Cleared(s, tip).slots <==> slot in s.slots && slot.tip != tip
    ensures forall slot :: slot in Cleared(s, tip).slots ==> Cleared(s, tip).slots[slot] == s.slots[slot]
    ensures forall h :: h in Cleared(s, tip).index <==>
      h in s.index && forall slot :: slot in s.slots && slot.tip == tip ==> !HoldsAt(s, slot, h)
    ensures forall h :: h in Cleared(s, tip).index ==> Cleared(s, tip).index[h] == s.index[h]
  {
    hide HashOf;
  }

  // ---- Over runs ----

  /** The slots are changed by storing and clearing only. */
  lemma SlotsStep(s: Spool, op: Op, s': Spool)
    requires Step(s, op, s')
    ensures Filed(s) ==> Filed(s')
    ensures op.List? || op.Lookup? ==> s'.slots == s.slots
  {
    hide HashOf, StoreSafe;
  }

  lemma {:induction false} RunKeepsFiled(states: seq<Spool>, ops: seq<Op>, i: nat)
    requires Run(states, ops) && Filed(states[0]) && i <= |ops|
    ensures Filed(states[i])
  {
    hide Filed, Step;
    if i > 0 {
      RunKeepsFiled(states, ops, i - 1);
      assert Step(states[i - 1], ops[i - 1], states[i - 1 + 1]);
      SlotsStep(states[i - 1], ops[i - 1], states[i]);
    }
  }

  /** A block stored at step `i` for a tip. */
  ghost predicate StoresAt(op: Op, tip: Hash256, n: u64) {
    op.Store? && op.tip == tip && op.entry.block.header.number == n
  }

  /** The last block stored for a tip and height, if the tip was not cleared since. */
  ghost predicate LastStored(ops: seq<Op>, i: nat, tip: Hash256, n: u64, j: nat) {
    j < i <= |ops| && StoresAt(ops[j], tip, n) &&
    forall k :: j < k < i ==> !StoresAt(ops[k], tip, n) && ops[k] != Clear(tip)
  }

  /** In every run that starts empty a slot holds exactly the last block stored there
      since its tip was cleared. */
  lemma {:induction false} SlotHoldsLastStored(states: seq<Spool>, ops: seq<Op>, i: nat, tip: Hash256, n: u64)
    requires Run(states, ops) && states[0].slots == map[] && i <= |ops|
    ensures Slot(tip, n) in states[i].slots <==> exists j: nat :: LastStored(ops, i, tip, n, j)
    ensures forall j: nat :: LastStored(ops, i, tip, n, j) ==>
      j < |ops| && ops[j].Store? && Slot(tip, n) in states[i].slots && states[i].slots[Slot(tip, n)] == ops[j].entry
  {
    hide Step, LastStored, StoresAt;
    if i == 0 {
      NothingStored(ops, tip, n);
    } else {
      SlotHoldsLastStored(states, ops, i - 1, tip, n);
      assert Step(states[i - 1], ops[i - 1], states[i - 1 + 1]);
      OneSlotStep(states[i - 1], ops[i - 1], states[i], tip, n);
      LastStoredStep(ops, i, tip, n);
      var before := i - 1;
      if j: nat :| LastStored(ops, before, tip, n, j) {
        assert LastStored(ops, i, tip, n, j) || StoresAt(ops[i - 1], tip, n) || ops[i - 1] == Clear(tip);
      }
    }
  }

  lemma NothingStored(ops: seq<Op>, tip: Hash256, n: u64)
    ensures forall j: nat :: !LastStored(ops, 0, tip, n, j)
  {
  }

  /** What one operation does to one slot. */
  lemma OneSlotStep(s: Spool, op: Op, s': Spool, tip: Hash256, n: u64)
    requires Step(s, op, s')
    ensures Slot(tip, n) in s'.slots <==> StoresAt(op, tip, n) || (op != Clear(tip) && Slot(tip, n) in s.slots)
    ensures StoresAt(op, tip, n) ==> s'.slots[Slot(tip, n)] == op.entry
    ensures !StoresAt(op, tip, n) && op != Clear(tip) && Slot(tip, n) in s.slots ==>
      s'.slots[Slot(tip, n)] == s.slots[Slot(tip, n)]
  {
    hide HashOf, StoreSafe;
  }

  lemma LastStoredStep(ops: seq<Op>, i: nat, tip: Hash256, n: u64)
    requires 0 < i <= |ops|
    ensures forall j: nat :: LastStored(ops, i, tip, n, j) ==> j < |ops| && ops[j].Store?
    ensures StoresAt(ops[i - 1], tip, n) ==> LastStored(ops, i, tip, n, i - 1)
    ensures forall j: nat :: LastStored(ops, i, tip, n, j) <==>
      if StoresAt(ops[i - 1], tip, n) then j == i - 1
      else ops[i - 1] != Clear(tip) && LastStored(ops, i - 1, tip, n, j)
  {
  }

  /** So a listing of a tip gives its blocks by rising number, whatever happened to
      the spool before. */
  lemma ListingRises(states: seq<Spool>, ops: seq<Op>, i: nat, tip: Hash256, blocks: seq<Entry>, slots: seq<Slot>)
    requires Run(states, ops) && states[0].slots == map[] && i <= |ops|
    requires ParentFirst(states[i], tip, blocks, slots)
    ensures forall a, b :: 0 <= a < b < |blocks| ==> blocks[a].block.header.number < blocks[b].block.header.number
    ensures forall j: nat, n: u64 :: LastStored(ops, i, tip, n, j) ==> ops[j].entry in blocks
  {
    hide Run;
    RunKeepsFiled(states, ops, i);
    forall j: nat, n: u64 | LastStored(ops, i, tip, n, j) ensures ops[j].entry in blocks {
      SlotHoldsLastStored(states, ops, i, tip, n);
      assert Slot(tip, n) in slots;
    }
  }
}
