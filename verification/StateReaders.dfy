/** Reading the execution state back: snapshots, supply, rewards, code and slots. */
module StateReaders {
  import opened Bytes
  import opened Primitives
  import opened Keys
  import opened ChainTables

  datatype Read<+T> = Malformed | Found(value: T)

  function SnapshotAt(db: Db, n: u64): Read<Option<EvmAccounts>> {
    if EvmSnapshot(n) !in db then Found(None)
    else if db[EvmSnapshot(n)].SnapshotRow? then Found(Some(db[EvmSnapshot(n)].accounts))
    else Malformed
  }

  function CountAt(db: Db, k: Key): Read<u64> {
    if k !in db then Found(0) else if db[k].CountRow? then Found(db[k].count) else Malformed
  }

  function AmountAt(db: Db, k: Key): Read<u128> {
    if k !in db then Found(0) else if db[k].AmountRow? then Found(db[k].amount) else Malformed
  }

  /** What is missing counts as zero. */
  function SupplyTotals(db: Db): Read<Supply> {
    var indexedTo, total, burned := CountAt(db, SupplyIndexedTo), AmountAt(db, SupplyTotal), AmountAt(db, SupplyBurned);
    if indexedTo.Malformed? || total.Malformed? || burned.Malformed? then Malformed
    else Found(Supply(indexedTo.value, total.value, burned.value))
  }

  function RewardIndexedTo(db: Db): Read<u64> {
    CountAt(db, RewardsIndexedTo)
  }

  function CodeAt(db: Db, a: Address): Read<seq<byte>> {
    if Code(a) !in db then Found([]) else if db[Code(a)].BytesRow? then Found(db[Code(a)].bytes) else Malformed
  }

  function SlotAt(db: Db, a: Address, s: Hash256): Read<Hash256> {
    var k := StorageSlot(a, s);
    if k !in db then Found(ZERO_HASH)
    else if db[k].BytesRow? && |db[k].bytes| == 32 then Found(db[k].bytes)
    else Malformed
  }

  /** The latest snapshot at or before a height. */
  ghost predicate IsLatestSnapshot(db: Db, n: u64, r: Option<(u64, EvmAccounts)>) {
    match r
    case None => forall m: u64 :: m <= n ==> EvmSnapshot(m) !in db
    case Some((m, accounts)) =>
      m <= n && SnapshotAt(db, m) == Found(Some(accounts)) && forall l: u64 :: m < l <= n ==> EvmSnapshot(l) !in db
  }

  // ---- What is stored of code and slots ----

  lemma CodeRowAt(evm: EvmAccounts, k: Key)
    ensures k in CodeRows(evm) <==> k.Code? && k.address in evm && |evm[k.address].code| > 0
    ensures k in CodeRows(evm) ==> CodeRows(evm)[k] == BytesRow(evm[k.address].code)
  {
    if k.Code? { assert k == Code(k.address); }
  }

  predicate NonZero(slots: map<Hash256, Hash256>, s: Hash256) {
    s in slots && slots[s] != ZERO_HASH
  }

  lemma SlotRowAt(evm: EvmAccounts, k: Key)
    ensures k in SlotRows(evm) <==> k.StorageSlot? && k.address in evm && NonZero(evm[k.address].slots, k.slot)
    ensures k in SlotRows(evm) ==> SlotRows(evm)[k] == BytesRow(evm[k.address].slots[k.slot])
  {
    if k.StorageSlot? { assert k == StorageSlot(k.address, k.slot); }
  }

  // ---- After a publication ----

  /** The state that readers see is the supplied one and nothing else. */
  ghost predicate StateIs(db: Db, tip: u64, evm: EvmAccounts, supply: Supply) {
    (forall n: u64 :: SnapshotAt(db, n) == Found(if n == tip then Some(evm) else None)) &&
    SupplyTotals(db) == Found(supply) && RewardIndexedTo(db) == Found(tip) &&
    (forall a: Address :: CodeAt(db, a) == Found(if a in evm then evm[a].code else [])) &&
    (forall a: Address, s: Hash256 :: SlotAt(db, a, s) ==
      Found(if a in evm && s in evm[a].slots then evm[a].slots[s] else ZERO_HASH))
  }

  lemma PublishedCode(db: Db, x: Suffix, a: Address)
    requires ValidSuffix(x)
    ensures CodeAt(Published(db, x), a) == Found(if a in x.evm then x.evm[a].code else [])
  {
    hide Published, BalanceRows, NonceRows, CodeRows, SlotRows, SummaryRows;
    PublishedAccountRow(db, x, Code(a));
    CodeRowAt(x.evm, Code(a));
    SummaryHas(TipOf(x).number, x.evm, x.supply, Code(a));
  }

  lemma PublishedSlot(db: Db, x: Suffix, a: Address, s: Hash256)
    requires ValidSuffix(x)
    ensures SlotAt(Published(db, x), a, s) ==
      Found(if a in x.evm && s in x.evm[a].slots then x.evm[a].slots[s] else ZERO_HASH)
  {
    hide Published, BalanceRows, NonceRows, CodeRows, SlotRows, SummaryRows, ToBe;
    PublishedAccountRow(db, x, StorageSlot(a, s));
    SlotRowAt(x.evm, StorageSlot(a, s));
    SummaryHas(TipOf(x).number, x.evm, x.supply, StorageSlot(a, s));
  }

  lemma SummaryHas(tip: u64, evm: EvmAccounts, supply: Supply, k: Key)
    ensures k in SummaryRows(tip, evm, supply) ==> !IsAccount(k)
  {
    hide SummaryRows;
  }

  /** Rows that are neither of a table nor of an account come from the new state, or
      were there before; old snapshots are gone. */
  lemma PublishedSummaryRow(db: Db, x: Suffix, k: Key)
    requires ValidSuffix(x) && !IsTable(k) && !IsAccount(k)
    ensures var rows := SummaryRows(TipOf(x).number, x.evm, x.supply);
      (k in rows ==> k in Published(db, x) && Published(db, x)[k] == rows[k]) &&
      (k !in rows && k.EvmSnapshot? ==> k !in Published(db, x))
  {
    hide Rebuild, SuffixKeys, LogKeysFrom, BalanceRows, NonceRows, CodeRows, SlotRows, SummaryRows;
    RebuildKeys(x.replacement, k);
  }

  lemma PublishedSnapshot(db: Db, x: Suffix, n: u64)
    requires ValidSuffix(x)
    ensures SnapshotAt(Published(db, x), n) == Found(if n == TipOf(x).number then Some(x.evm) else None)
  {
    hide Published;
    PublishedSummaryRow(db, x, EvmSnapshot(n));
  }

  lemma PublishedSupply(db: Db, x: Suffix)
    requires ValidSuffix(x)
    ensures SupplyTotals(Published(db, x)) == Found(x.supply)
    ensures RewardIndexedTo(Published(db, x)) == Found(TipOf(x).number)
  {
    hide Published;
    PublishedSummaryRow(db, x, SupplyIndexedTo);
    PublishedSummaryRow(db, x, SupplyTotal);
    PublishedSummaryRow(db, x, SupplyBurned);
    PublishedSummaryRow(db, x, RewardsIndexedTo);
  }

  /** After a publication every reader of the execution state answers with what the
      publication supplied: the snapshot of the new tip and no other, the supply, the
      reward height, and code and slots of every account. */
  lemma PublishedState(db: Db, x: Suffix)
    requires ValidSuffix(x)
    ensures StateIs(Published(db, x), TipOf(x).number, x.evm, x.supply)
  {
    hide Published, SnapshotAt, CodeAt, SlotAt, SupplyTotals, RewardIndexedTo, ValidSuffix, ToBe;
    PublishedSupply(db, x);
    forall n: u64 ensures SnapshotAt(Published(db, x), n) == Found(if n == TipOf(x).number then Some(x.evm) else None) {
      PublishedSnapshot(db, x, n);
    }
    forall a: Address ensures CodeAt(Published(db, x), a) == Found(if a in x.evm then x.evm[a].code else []) {
      PublishedCode(db, x, a);
    }
    forall a: Address, s: Hash256
      ensures SlotAt(Published(db, x), a, s) ==
        Found(if a in x.evm && s in x.evm[a].slots then x.evm[a].slots[s] else ZERO_HASH)
    {
      PublishedSlot(db, x, a, s);
    }
  }

  /** And the search for a snapshot finds it from the tip on, and nothing before. */
  lemma LatestAfterPublication(db: Db, tip: u64, evm: EvmAccounts, supply: Supply, n: u64,
                               r: Option<(u64, EvmAccounts)>)
    requires StateIs(db, tip, evm, supply) && IsLatestSnapshot(db, n, r)
    ensures r == if n >= tip then Some((tip, evm)) else None
  {
    hide SupplyTotals, RewardIndexedTo, CodeAt, SlotAt;
    assert SnapshotAt(db, tip) == Found(Some(evm));
    if r.Some? { assert SnapshotAt(db, r.value.0) == Found(Some(r.value.1)); }
  }
}
