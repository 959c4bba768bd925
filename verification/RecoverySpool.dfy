/** Blocks downloaded for a recovery, filed by the tip they lead to and by height,
    with an index from block hash to where the block is filed. */
module RecoverySpool {
  import opened Bytes
  import opened Primitives
  import Canonical
  import Keys
  import Pruning

  datatype Slot = Slot(tip: Hash256, height: u64)

  datatype Entry = Entry(block: Block, work: u128)

  /** An index entry names a slot, or only a tip in the form early versions wrote. */
  datatype Pointer = Base(slot: Slot) | Legacy(tip: Hash256)

  datatype Spool = Spool(slots: map<Slot, Entry>, index: map<Hash256, Pointer>)

  // ---- Keys ----

  function Decimal(n: nat): (s: string)
    ensures |s| > 0
  {
    var digit := ['0' + (n % 10) as char];
    if n < 10 then digit else Decimal(n / 10) + digit
  }

  function SpoolPrefix(tip: Hash256): string {
    "recovery:" + Keys.Hex(tip) + ":"
  }

  function SpellSlot(slot: Slot): string {
    SpoolPrefix(slot.tip) + Decimal(slot.height)
  }

  lemma {:induction false} DecimalInjective(n: nat, m: nat)
    requires Decimal(n) == Decimal(m)
    ensures n == m
  {
    var s := Decimal(n);
    assert s[|s| - 1] == '0' + (n % 10) as char == '0' + (m % 10) as char;
    if n >= 10 && m >= 10 {
      assert Decimal(n / 10) == s[..|s| - 1] == Decimal(m / 10);
      DecimalInjective(n / 10, m / 10);
    }
  }

  /** A prefix scan for a tip visits the slots of that tip and no others. */
  lemma ScanTip(tip: Hash256, slot: Slot)
    ensures SpoolPrefix(tip) <= SpellSlot(slot) <==> slot.tip == tip
  {
    hide Keys.Hex;
    Keys.HexField("recovery:", tip, slot.tip, Decimal(slot.height));
    assert SpellSlot(slot) == "recovery:" + (Keys.Hex(slot.tip) + ":" + Decimal(slot.height));
  }

  lemma SpellSlotInjective(a: Slot, b: Slot)
    requires SpellSlot(a) == SpellSlot(b)
    ensures a == b
  {
    hide Decimal, Keys.Hex;
    ScanTip(a.tip, a);
    ScanTip(a.tip, b);
    assert SpellSlot(a)[|SpoolPrefix(a.tip)|..] == Decimal(a.height);
    assert SpellSlot(b)[|SpoolPrefix(a.tip)|..] == Decimal(b.height);
    DecimalInjective(a.height, b.height);
  }

  // ---- What the index should say ----

  function HashOf(e: Entry): Hash256 {
    Canonical.HeaderHash(e.block.header)
  }

  predicate HoldsAt(s: Spool, slot: Slot, h: Hash256) {
    slot in s.slots && HashOf(s.slots[slot]) == h
  }

  ghost predicate Holds(s: Spool, h: Hash256) {
    exists slot :: HoldsAt(s, slot, h)
  }

  ghost predicate PointsRight(s: Spool, h: Hash256, p: Pointer) {
    match p
    case Base(slot) => HoldsAt(s, slot, h)
    case Legacy(tip) => exists slot :: HoldsAt(s, slot, h) && slot.tip == tip
  }

  /** Every index entry leads to the block it is for; entries may be missing. */
  ghost predicate Valid(s: Spool) {
    forall h :: h in s.index ==> PointsRight(s, h, s.index[h])
  }

  // ---- Storing ----

  function Stored(s: Spool, tip: Hash256, e: Entry): Spool {
    var slot := Slot(tip, e.block.header.number);
    Spool(s.slots[slot := e], s.index[HashOf(e) := Base(slot)])
  }

  /** The slot is free or holds the same block hash, or nothing leads to what it holds. */
  ghost predicate StoreSafe(s: Spool, tip: Hash256, e: Entry) {
    var slot := Slot(tip, e.block.header.number);
    slot in s.slots && HashOf(s.slots[slot]) != HashOf(e) ==>
      var h := HashOf(s.slots[slot]);
      h in s.index ==>
        match s.index[h]
        case Base(other) => other != slot
        case Legacy(t) => t == tip ==> exists other :: other != slot && other.tip == tip && HoldsAt(s, other, h)
  }

  lemma StoredAt(s: Spool, tip: Hash256, e: Entry, slot: Slot, h: Hash256)
    ensures HoldsAt(Stored(s, tip, e), slot, h) <==>
      if slot == Slot(tip, e.block.header.number) then HashOf(e) == h else HoldsAt(s, slot, h)
  {
    hide HashOf;
  }

  /** Storing keeps the index right exactly when it does not replace a block that the
      index leads to by that slot. */
  lemma StoreKeepsExactly(s: Spool, tip: Hash256, e: Entry)
    requires Valid(s)
    ensures Valid(Stored(s, tip, e)) <==> StoreSafe(s, tip, e)
  {
    hide HashOf, HoldsAt;
    var s', slot := Stored(s, tip, e), Slot(tip, e.block.header.number);
    forall other, h ensures HoldsAt(s', other, h) <==> if other == slot then HashOf(e) == h else HoldsAt(s, other, h) {
      StoredAt(s, tip, e, other, h);
    }
    HeldBefore(s, slot);
    if StoreSafe(s, tip, e) {
      forall h | h in s'.index ensures PointsRight(s', h, s'.index[h]) {
        if h != HashOf(e) { StillRight(s, tip, e, h); }
      }
    } else {
      var h := HashOf(s.slots[slot]);
      assert h in s'.index && s'.index[h] == s.index[h];
      assert !PointsRight(s', h, s'.index[h]);
    }
  }

  lemma HeldBefore(s: Spool, slot: Slot)
    ensures forall h :: HoldsAt(s, slot, h) <==> slot in s.slots && HashOf(s.slots[slot]) == h
  {
    hide HashOf;
  }

  lemma StillRight(s: Spool, tip: Hash256, e: Entry, h: Hash256)
    requires Valid(s) && StoreSafe(s, tip, e) && h in s.index && h != HashOf(e)
    ensures PointsRight(Stored(s, tip, e), h, s.index[h])
  {
    hide HashOf;
    var s', slot := Stored(s, tip, e), Slot(tip, e.block.header.number);
    assert PointsRight(s, h, s.index[h]);
    match s.index[h] {
      case Base(other) =>
        assert HoldsAt(s', other, h);
      case Legacy(t) =>
        var other :| HoldsAt(s, other, h) && other.tip == t;
        if other == slot {
          var another :| another != slot && another.tip == tip && HoldsAt(s, another, h);
          assert HoldsAt(s', another, h);
        } else {
          assert HoldsAt(s', other, h);
        }
    }
  }

  // ---- Clearing and listing ----

  ghost function Cleared(s: Spool, tip: Hash256): Spool {
    Spool(map slot | slot in s.slots && slot.tip != tip :: s.slots[slot], s.index - HashesFor(s, tip))
  }

  function HashesFor(s: Spool, tip: Hash256): set<Hash256> {
    set slot | slot in s.slots && slot.tip == tip :: HashOf(s.slots[slot])
  }

  /** Clearing one tip removes an index entry for a block that another tip still
      holds; lookups then find it by scanning. */
  lemma ClearKeeps(s: Spool, tip: Hash256)
    requires Valid(s)
    ensures Valid(Cleared(s, tip))
    ensures forall h :: Holds(Cleared(s, tip), h) <==> exists slot :: HoldsAt(s, slot, h) && slot.tip != tip
  {
    hide HashOf;
    var s' := Cleared(s, tip);
    forall slot, h ensures HoldsAt(s', slot, h) <==> HoldsAt(s, slot, h) && slot.tip != tip {
    }
    forall h | h in s'.index ensures PointsRight(s', h, s'.index[h]) {
      assert PointsRight(s, h, s.index[h]);
      match s.index[h] {
        case Base(slot) =>
          assert HoldsAt(s', slot, h);
        case Legacy(t) =>
          var slot :| HoldsAt(s, slot, h) && slot.tip == t;
          assert HoldsAt(s', slot, h);
      }
    }
  }

  /** Listing a tip points the index at the slots of that tip. */
  ghost predicate Listed(s: Spool, tip: Hash256, s': Spool) {
    s'.slots == s.slots && s'.index.Keys == s.index.Keys + HashesFor(s, tip) &&
    forall h :: h in s'.index ==>
      if h in HashesFor(s, tip) then LeadsInto(s, tip, h, s'.index[h]) else h in s.index && s'.index[h] == s.index[h]
  }

  predicate LeadsInto(s: Spool, tip: Hash256, h: Hash256, p: Pointer) {
    p.Base? && p.slot.tip == tip && HoldsAt(s, p.slot, h)
  }

  lemma ListKeeps(s: Spool, tip: Hash256, s': Spool)
    requires Valid(s) && Listed(s, tip, s')
    ensures Valid(s')
  {
    hide HashOf;
    forall h | h in s'.index ensures PointsRight(s', h, s'.index[h]) {
      if s'.index[h].Base? {
        assert h in s.index ==> PointsRight(s, h, s.index[h]);
      } else {
        assert PointsRight(s, h, s.index[h]);
        var slot :| HoldsAt(s, slot, h) && slot.tip == s.index[h].tip;
        assert HoldsAt(s', slot, h);
      }
    }
  }

  // ---- Looking up ----

  function At(s: Spool, slot: Slot): Option<Entry> {
    if slot in s.slots then Some(s.slots[slot]) else None
  }

  /** The slots a lookup may scan: those of the legacy tip, or all. */
  predicate InScope(s: Spool, h: Hash256, slot: Slot) {
    h in s.index && s.index[h].Legacy? ==> slot.tip == s.index[h].tip
  }

  /** A lookup follows a slot pointer; otherwise it scans and repairs the index. */
  ghost predicate LookedUp(s: Spool, h: Hash256, s': Spool, r: Option<Entry>) {
    if h in s.index && s.index[h].Base? then s' == s && r == At(s, s.index[h].slot)
    else if r.Some? then
      exists slot :: InScope(s, h, slot) && HoldsAt(s, slot, h) && r == Some(s.slots[slot]) &&
        s' == s.(index := s.index[h := Base(slot)])
    else s' == s && forall slot :: InScope(s, h, slot) ==> !HoldsAt(s, slot, h)
  }

  /** A lookup finds a block of that hash, with the work of its slot, exactly when
      some spool holds one; and it leaves the index right. */
  lemma LookupExact(s: Spool, h: Hash256, s': Spool, r: Option<Entry>)
    requires Valid(s) && LookedUp(s, h, s', r)
    ensures r.Some? <==> Holds(s, h)
    ensures r.Some? ==> exists slot :: HoldsAt(s, slot, h) && s.slots[slot] == r.value
    ensures Valid(s') && s'.slots == s.slots
  {
    hide HashOf;
    if h in s.index { assert PointsRight(s, h, s.index[h]); }
    forall g | g in s'.index ensures PointsRight(s', g, s'.index[g]) {
      if g in s.index && s'.index[g] == s.index[g] {
        assert PointsRight(s, g, s.index[g]);
        if s.index[g].Legacy? {
          var slot :| HoldsAt(s, slot, g) && slot.tip == s.index[g].tip;
          assert HoldsAt(s', slot, g);
        }
      }
    }
  }

  // ---- Any mix of operations ----

  datatype Op =
    | Store(tip: Hash256, entry: Entry)
    | Clear(tip: Hash256)
    | List(tip: Hash256)
    | Lookup(hash: Hash256, answer: Option<Entry>)

  ghost predicate Step(s: Spool, op: Op, s': Spool) {
    match op
    case Store(tip, e) => StoreSafe(s, tip, e) && s' == Stored(s, tip, e)
    case Clear(tip) => s' == Cleared(s, tip)
    case List(tip) => Listed(s, tip, s')
    case Lookup(h, r) => LookedUp(s, h, s', r)
  }

  ghost predicate Run(states: seq<Spool>, ops: seq<Op>) {
    |states| == |ops| + 1 && forall i :: 0 <= i < |ops| ==> Step(states[i], ops[i], states[i + 1])
  }

  lemma {:induction false} RunKeepsValid(states: seq<Spool>, ops: seq<Op>, i: nat)
    requires Run(states, ops) && Valid(states[0]) && i <= |ops|
    ensures Valid(states[i])
  {
    hide Valid, Step;
    if i > 0 {
      RunKeepsValid(states, ops, i - 1);
      assert Step(states[i - 1], ops[i - 1], states[i - 1 + 1]);
      StepKeepsValid(states[i - 1], ops[i - 1], states[i]);
    }
  }

  lemma StepKeepsValid(s: Spool, op: Op, s': Spool)
    requires Valid(s) && Step(s, op, s')
    ensures Valid(s')
  {
    hide Valid, StoreSafe, Stored, Listed, LookedUp;
    match op
    case Store(tip, e) => StoreKeepsExactly(s, tip, e);
    case Clear(tip) => ClearKeeps(s, tip);
    case List(tip) => ListKeeps(s, tip, s');
    case Lookup(h, r) => LookupExact(s, h, s', r);
  }

  /** In every run, every lookup is exact. */
  lemma EveryLookupExact(states: seq<Spool>, ops: seq<Op>, i: nat)
    requires Run(states, ops) && Valid(states[0]) && i < |ops| && ops[i].Lookup?
    ensures ops[i].answer.Some? <==> Holds(states[i], ops[i].hash)
    ensures ops[i].answer.Some? ==>
      exists slot :: HoldsAt(states[i], slot, ops[i].hash) && states[i].slots[slot] == ops[i].answer.value
  {
    hide Valid, LookedUp, HoldsAt;
    RunKeepsValid(states, ops, i);
    assert Step(states[i], ops[i], states[i + 1]);
    LookupExact(states[i], ops[i].hash, states[i + 1], ops[i].answer);
  }

  /** Storing a different block into an indexed slot: a lookup of the first hash then
      answers with the second block. */
  lemma OverwrittenSlotMisleads(tip: Hash256, a: Entry, b: Entry)
    requires a.block.header.number == b.block.header.number && HashOf(a) != HashOf(b)
    ensures var s := Stored(Stored(Spool(map[], map[]), tip, a), tip, b);
      LookedUp(s, HashOf(a), s, Some(b)) && !Holds(s, HashOf(a))
  {
    hide HashOf;
  }

  // ---- The store ----

  /** The slots a prefix scan visits. */
  lemma ScanFindsSlots(s: Spool, tip: Hash256)
    ensures (set slot | slot in s.slots && SpoolPrefix(tip) <= SpellSlot(slot)) ==
            (set slot | slot in s.slots && slot.tip == tip)
  {
    hide SpoolPrefix, SpellSlot;
    forall slot | slot in s.slots ensures SpoolPrefix(tip) <= SpellSlot(slot) <==> slot.tip == tip {
      ScanTip(tip, slot);
    }
  }

  /** The blocks of one tip, parents first. */
  ghost predicate ParentFirst(s: Spool, tip: Hash256, blocks: seq<Entry>, slots: seq<Slot>) {
    |blocks| == |slots| &&
    (forall i :: 0 <= i < |slots| ==> slots[i] in s.slots && slots[i].tip == tip && blocks[i] == s.slots[slots[i]]) &&
    (forall i, j :: 0 <= i < j < |slots| ==> slots[i].height < slots[j].height) &&
    (forall slot :: slot in s.slots && slot.tip == tip ==> slot in slots)
  }

  class RecoveryStore {
    var slots: map<Slot, Entry>
    var index: map<Hash256, Pointer>

    function AsSpool(): Spool
      reads this
    {
      Spool(slots, index)
    }

    method StoreBlock(tip: Hash256, block: Block, work: u128)
      modifies this
      ensures AsSpool() == Stored(old(AsSpool()), tip, Entry(block, work))
    {
      hide HashOf;
      var slot, entry := Slot(tip, block.header.number), Entry(block, work);
      slots := slots[slot := entry];
      index := index[HashOf(entry) := Base(slot)];
    }

    method BlockByHash(h: Hash256) returns (r: Option<Entry>)
      modifies this`index
      ensures LookedUp(old(AsSpool()), h, AsSpool(), r)
    {
      hide HashOf, SpoolPrefix, SpellSlot;
      if h in index && index[h].Base? {
        return At(AsSpool(), index[h].slot);
      }
      var scope := slots.Keys;
      if h in index {
        ScanFindsSlots(AsSpool(), index[h].tip);
        scope := set slot | slot in slots && SpoolPrefix(index[h].tip) <= SpellSlot(slot);
      }
      var rest := scope;
      while rest != {}
        invariant rest <= scope && index == old(index)
        invariant forall slot :: slot in scope && HoldsAt(AsSpool(), slot, h) ==> slot in rest
        decreases |rest|
      {
        var slot :| slot in rest;
        if HashOf(slots[slot]) == h {
          assert HoldsAt(old(AsSpool()), slot, h) && InScope(old(AsSpool()), h, slot);
          index := index[h := Base(slot)];
          return Some(slots[slot]);
        }
        rest := rest - {slot};
      }
      r := None;
    }

    /** Lists the blocks of a tip and points the index at them. */
    method BlocksForTip(tip: Hash256) returns (blocks: seq<Entry>, ghost order: seq<Slot>)
      modifies this`index
      ensures Listed(old(AsSpool()), tip, AsSpool())
      ensures ParentFirst(old(AsSpool()), tip, blocks, order)
    {
      hide HashOf, SpoolPrefix, SpellSlot, Picked, Repointed, Listed, ParentFirst;
      ghost var s := AsSpool();
      ScanFindsHeights(s, tip);
      var rest := set slot | slot in slots && SpoolPrefix(tip) <= SpellSlot(slot) :: slot.height;
      blocks, order := [], [];
      NothingPicked(s, tip);
      while rest != {}
        invariant Picked(s, tip, blocks, order, rest)
        invariant Repointed(s, tip, order, index)
        decreases |rest|
      {
        var n := Pruning.Smallest(rest);
        var slot := Slot(tip, n);
        PickNext(s, tip, blocks, order, rest, n);
        Repoint(s, tip, order, index, slot);
        index := index[HashOf(slots[slot]) := Base(slot)];
        blocks, order := blocks + [slots[slot]], order + [slot];
        rest := rest - {n};
      }
      AllPicked(s, tip, blocks, order, index);
    }

    method ClearTip(tip: Hash256)
      modifies this
      ensures AsSpool() == Cleared(old(AsSpool()), tip)
    {
      hide HashOf, SpoolPrefix, SpellSlot, Without, Cleared;
      ghost var s := AsSpool();
      ScanFindsSlots(s, tip);
      WithoutAll(s, tip);
      var entries := set slot | slot in slots && SpoolPrefix(tip) <= SpellSlot(slot);
      var rest := entries;
      assert entries - entries == {};
      while rest != {}
        invariant rest <= entries && rest <= slots.Keys && AsSpool() == Without(s, entries - rest)
        decreases |rest|
      {
        var slot :| slot in rest;
        WithoutStep(s, entries - rest, slot);
        assert entries - (rest - {slot}) == (entries - rest) + {slot};
        index := index - {HashOf(slots[slot])};
        slots := slots - {slot};
        rest := rest - {slot};
      }
      assert entries - rest == entries;
    }
  }

  // ---- Loop steps ----

  ghost function Without(s: Spool, gone: set<Slot>): Spool {
    Spool(s.slots - gone, s.index - set slot | slot in gone && slot in s.slots :: HashOf(s.slots[slot]))
  }

  lemma WithoutStep(s: Spool, gone: set<Slot>, slot: Slot)
    requires slot in s.slots && slot !in gone
    ensures var before := Without(s, gone);
      slot in before.slots && before.slots[slot] == s.slots[slot] &&
      Without(s, gone + {slot}) == Spool(before.slots - {slot}, before.index - {HashOf(s.slots[slot])})
  {
    hide HashOf;
  }

  lemma WithoutAll(s: Spool, tip: Hash256)
    ensures Without(s, {}) == s && Without(s, set slot | slot in s.slots && slot.tip == tip) == Cleared(s, tip)
  {
    hide HashOf;
    var mine := set slot | slot in s.slots && slot.tip == tip;
    assert (set slot | slot in mine && slot in s.slots :: HashOf(s.slots[slot])) == HashesFor(s, tip);
    assert s.slots - mine == Cleared(s, tip).slots;
  }

  lemma ScanFindsHeights(s: Spool, tip: Hash256)
    ensures (set slot | slot in s.slots && SpoolPrefix(tip) <= SpellSlot(slot) :: slot.height) == HeightsOf(s, tip)
  {
    hide SpoolPrefix, SpellSlot;
    forall slot | slot in s.slots ensures SpoolPrefix(tip) <= SpellSlot(slot) <==> slot.tip == tip {
      ScanTip(tip, slot);
    }
  }

  ghost function HeightsOf(s: Spool, tip: Hash256): set<u64> {
    set slot | slot in s.slots && slot.tip == tip :: slot.height
  }

  /** Blocks picked so far, lowest first; what is not picked is at a height in `rest`. */
  ghost predicate Picked(s: Spool, tip: Hash256, blocks: seq<Entry>, order: seq<Slot>, rest: set<u64>) {
    |blocks| == |order| &&
    (forall n :: n in rest ==> Slot(tip, n) in s.slots) &&
    (forall i :: 0 <= i < |order| ==> order[i] in s.slots && order[i].tip == tip && blocks[i] == s.slots[order[i]]) &&
    (forall i, n :: 0 <= i < |order| && n in rest ==> order[i].height < n) &&
    (forall i, j :: 0 <= i < j < |order| ==> order[i].height < order[j].height) &&
    (forall slot :: slot in s.slots && slot.tip == tip ==> slot in order || slot.height in rest)
  }

  /** The index so far: entries for picked slots, the rest as before. */
  ghost predicate Repointed(s: Spool, tip: Hash256, order: seq<Slot>, index: map<Hash256, Pointer>) {
    index.Keys == s.index.Keys + HashesAt(s, order) &&
    forall h :: h in index ==>
      if h in HashesAt(s, order) then LeadsInto(s, tip, h, index[h]) else h in s.index && index[h] == s.index[h]
  }

  ghost function HashesAt(s: Spool, order: seq<Slot>): set<Hash256> {
    set slot | slot in order && slot in s.slots :: HashOf(s.slots[slot])
  }

  lemma NothingPicked(s: Spool, tip: Hash256)
    ensures Picked(s, tip, [], [], HeightsOf(s, tip)) && Repointed(s, tip, [], s.index)
  {
    hide HashOf;
    forall n | n in HeightsOf(s, tip) ensures Slot(tip, n) in s.slots {
      var slot :| slot in s.slots && slot.tip == tip && slot.height == n;
      assert slot == Slot(tip, n);
    }
  }

  lemma PickNext(s: Spool, tip: Hash256, blocks: seq<Entry>, order: seq<Slot>, rest: set<u64>, n: u64)
    requires Picked(s, tip, blocks, order, rest) && n in rest && forall m :: m in rest ==> n <= m
    ensures Slot(tip, n) in s.slots
    ensures Picked(s, tip, blocks + [s.slots[Slot(tip, n)]], order + [Slot(tip, n)], rest - {n})
  {
    var order' := order + [Slot(tip, n)];
    forall slot | slot in s.slots && slot.tip == tip ensures slot in order' || slot.height in rest - {n} {
      if slot.height == n { assert slot == order'[|order|]; }
    }
  }

  lemma Repoint(s: Spool, tip: Hash256, order: seq<Slot>, index: map<Hash256, Pointer>, slot: Slot)
    requires Repointed(s, tip, order, index) && slot in s.slots && slot.tip == tip
    ensures Repointed(s, tip, order + [slot], index[HashOf(s.slots[slot]) := Base(slot)])
  {
    hide HashOf;
    assert HashesAt(s, order + [slot]) == HashesAt(s, order) + {HashOf(s.slots[slot])};
  }

  lemma AllPicked(s: Spool, tip: Hash256, blocks: seq<Entry>, order: seq<Slot>, index: map<Hash256, Pointer>)
    requires Picked(s, tip, blocks, order, {}) && Repointed(s, tip, order, index)
    ensures ParentFirst(s, tip, blocks, order) && Listed(s, tip, s.(index := index))
  {
    hide HashOf;
    assert HashesAt(s, order) == HashesFor(s, tip);
  }
}
