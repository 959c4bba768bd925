/** Assembling the rows of blocks and accounts, and the batch of a publication. */
module BatchBuilder {
  import opened Bytes
  import opened Primitives
  import opened Keys
  import opened ChainTables
  import opened StateReaders
  import opened Publication
  import Canonical

  // ---- Rows of a block ----

  method WriteTransactionRows(rows0: Db, b: Block, i: nat) returns (rows: Db)
    requires Storable(b) && i < |b.transactions|
    ensures rows == rows0 + TransactionRows(b, i)
  {
    hide Canonical.TransactionHash, Canonical.RpcHash;
    var t := b.transactions[i];
    var hash := Canonical.TransactionHash(t);
    rows := rows0[TransactionBy(hash) := TransactionRow(t)];
    if t.externalHash.Some? {
      rows := rows[TransactionBy(t.externalHash.value) := TransactionRow(t)];
    }
    var stored := ReceiptRow(StoredReceipt(b.receipts[i], b.header, i, t));
    rows := rows[ReceiptBy(Canonical.RpcHash(t)) := stored];
    rows := rows[ReceiptBy(hash) := stored];
  }

  lemma PlusAssociates(a: Db, b: Db, c: Db)
    ensures (a + b) + c == a + (b + c)
  {
  }

  method WriteTopicRows(rows0: Db, topics: seq<Hash256>, location: Location) returns (rows: Db)
    ensures rows == rows0 + TopicRows(topics, location)
  {
    rows := rows0;
    for k := 0 to |topics|
      invariant rows == rows0 + TopicRows(topics[..k], location)
    {
      assert topics[..k + 1][..k] == topics[..k];
      ghost var row := map[LogByTopic(topics[k], location) := LocationRow(location)];
      PlusAssociates(rows0, TopicRows(topics[..k], location), row);
      rows := rows[LogByTopic(topics[k], location) := LocationRow(location)];
      assert rows == rows0 + TopicRows(topics[..k], location) + row;
    }
    assert topics[..|topics|] == topics;
  }

  method WriteLogRows(rows0: Db, log: LogEntry, location: Location) returns (rows: Db)
    ensures rows == rows0 + LogRows(log, location)
  {
    hide TopicRows;
    rows := rows0[LogAt(location) := LocationRow(location)];
    rows := rows[LogByAddress(log.address, location) := LocationRow(location)];
    rows := WriteTopicRows(rows, log.topics, location);
  }

  method WriteReceiptLogs(rows0: Db, b: Block, i: nat) returns (rows: Db)
    requires i < |b.receipts|
    ensures rows == rows0 + ReceiptLogRows(b, i, |b.receipts[i].logs|)
  {
    hide LogRows, LogLocation;
    rows := rows0;
    for j := 0 to |b.receipts[i].logs|
      invariant rows == rows0 + ReceiptLogRows(b, i, j)
    {
      var log, location := b.receipts[i].logs[j], LogLocation(b.header.number, i, j);
      PlusAssociates(rows0, ReceiptLogRows(b, i, j), LogRows(log, location));
      rows := WriteLogRows(rows, log, location);
    }
  }

  method WriteAllTransactions(rows0: Db, b: Block) returns (rows: Db)
    requires Storable(b)
    ensures rows == rows0 + AllTransactionRows(b, |b.transactions|)
  {
    hide TransactionRows;
    rows := rows0;
    for i := 0 to |b.transactions|
      invariant rows == rows0 + AllTransactionRows(b, i)
    {
      PlusAssociates(rows0, AllTransactionRows(b, i), TransactionRows(b, i));
      rows := WriteTransactionRows(rows, b, i);
    }
  }

  method WriteAllLogs(rows0: Db, b: Block) returns (rows: Db)
    ensures rows == rows0 + AllLogRows(b, |b.receipts|)
  {
    hide ReceiptLogRows;
    rows := rows0;
    for i := 0 to |b.receipts|
      invariant rows == rows0 + AllLogRows(b, i)
    {
      PlusAssociates(rows0, AllLogRows(b, i), ReceiptLogRows(b, i, |b.receipts[i].logs|));
      rows := WriteReceiptLogs(rows, b, i);
    }
  }

  /** Body, header, transaction, receipt and log rows, in the order they are written. */
  method WriteRows(rows0: Db, b: Block) returns (rows: Db)
    requires Storable(b)
    ensures rows == rows0 + Rows(b)
  {
    hide AllTransactionRows, AllLogRows;
    rows := rows0[BlockAt(b.header.number) := BlockRow(b)];
    rows := rows[HeaderAt(b.header.number) := HeaderRow(b.header)];
    ghost var first :=
      map[BlockAt(b.header.number) := BlockRow(b)] + map[HeaderAt(b.header.number) := HeaderRow(b.header)];
    assert rows == rows0 + first;
    rows := WriteAllTransactions(rows, b);
    PlusAssociates(rows0, first, AllTransactionRows(b, |b.transactions|));
    rows := WriteAllLogs(rows, b);
    PlusAssociates(rows0, first + AllTransactionRows(b, |b.transactions|), AllLogRows(b, |b.receipts|));
  }

  // ---- Building the batch of a suffix publication ----

  method DeleteAll(batch0: Batch, keys: set<Key>) returns (batch: Batch)
    ensures batch == batch0 + Deletes(keys)
  {
    batch := batch0;
    var rest := keys;
    while rest != {}
      invariant rest <= keys && batch == batch0 + Deletes(keys - rest)
      decreases |rest|
    {
      var key :| key in rest;
      rest := rest - {key};
      batch := batch[key := None];
    }
  }

  lemma DeletesUnion(batch: Batch, a: set<Key>, b: set<Key>)
    ensures (batch + Deletes(a)) + Deletes(b) == batch + Deletes(a + b)
  {
  }

  /** What is removed for one transaction. */
  function TransactionKeys(t: Transaction): set<Key> {
    {TransactionBy(Canonical.TransactionHash(t)), TransactionBy(Canonical.RpcHash(t)),
     ReceiptBy(Canonical.TransactionHash(t)), ReceiptBy(Canonical.RpcHash(t))}
  }

  /** What is removed for the first `i` transactions. */
  function FirstKeys(b: Block, i: nat): set<Key>
    requires i <= |b.transactions|
  {
    HashKeys(b.(transactions := b.transactions[..i]))
  }

  lemma KeysOfPrefix(b: Block, i: nat)
    requires i < |b.transactions|
    ensures FirstKeys(b, i + 1) == FirstKeys(b, i) + TransactionKeys(b.transactions[i])
  {
    hide Canonical.TransactionHash, Canonical.RpcHash;
    var t := b.transactions[i];
    assert b.transactions[..i + 1] == b.transactions[..i] + [t];
    assert HashesOf(b.(transactions := b.transactions[..i + 1])) ==
      HashesOf(b.(transactions := b.transactions[..i])) + {Canonical.TransactionHash(t), Canonical.RpcHash(t)};
  }

  lemma NoTransactionKeys(b: Block)
    ensures FirstKeys(b, 0) == {} && FirstKeys(b, |b.transactions|) == HashKeys(b)
  {
    assert b.(transactions := b.transactions[..|b.transactions|]) == b;
    assert b.transactions[..0] == [];
    assert HashesOf(b.(transactions := [])) == {};
  }

  method RemoveBlockFromBatch(batch0: Batch, b: Block) returns (batch: Batch)
    ensures batch == batch0 + Deletes(BlockKeys(b))
  {
    hide FirstKeys, TransactionKeys, HashKeys;
    NoTransactionKeys(b);
    ghost var own := {BlockAt(b.header.number), HeaderAt(b.header.number)};
    batch := batch0[BlockAt(b.header.number) := None];
    batch := batch[HeaderAt(b.header.number) := None];
    for i := 0 to |b.transactions|
      invariant batch == batch0 + Deletes(own + FirstKeys(b, i))
    {
      KeysOfPrefix(b, i);
      assert own + FirstKeys(b, i + 1) == (own + FirstKeys(b, i)) + TransactionKeys(b.transactions[i]);
      DeletesUnion(batch0, own + FirstKeys(b, i), TransactionKeys(b.transactions[i]));
      batch := DeleteTransaction(batch, b.transactions[i]);
    }
  }

  method DeleteTransaction(batch0: Batch, t: Transaction) returns (batch: Batch)
    ensures batch == batch0 + Deletes(TransactionKeys(t))
  {
    hide Canonical.TransactionHash;
    batch := batch0[TransactionBy(Canonical.TransactionHash(t)) := None];
    if t.externalHash.Some? {
      batch := batch[TransactionBy(t.externalHash.value) := None];
    }
    batch := batch[ReceiptBy(Canonical.RpcHash(t)) := None];
    batch := batch[ReceiptBy(Canonical.TransactionHash(t)) := None];
  }

  lemma {:induction false} MissingBodyPersists(db: Db, low: nat, end: nat, end': nat)
    requires end <= end' <= U64_MAX + 1 && Bodies(db, low, end).None?
    ensures Bodies(db, low, end').None?
    decreases end'
  {
    if end < end' { MissingBodyPersists(db, low, end, end' - 1); }
  }

  lemma BodiesStep(db: Db, low: nat, number: u64)
    requires low <= number && Bodies(db, low, number).Some?
    ensures BlockAt(number) in db && db[BlockAt(number)].BlockRow? ==>
      Bodies(db, low, number + 1) == Some(Bodies(db, low, number).value + [db[BlockAt(number)].block])
    ensures !(BlockAt(number) in db && db[BlockAt(number)].BlockRow?) ==> Bodies(db, low, number + 1).None?
  {
  }

  lemma SuffixKeysStep(front: seq<Block>, last: Block)
    ensures SuffixKeys(front + [last]) == SuffixKeys(front) + BlockKeys(last)
  {
    assert (front + [last])[..|front|] == front;
  }

  /** Removes the rows of every body from a height up to the tip; fails on a gap. */
  method RemoveSuffix(db: Db, low: nat, best: u64) returns (batch: Option<Batch>)
    ensures Bodies(db, low, best + 1).None? ==> batch.None?
    ensures Bodies(db, low, best + 1).Some? ==> batch == Some(Deletes(SuffixKeys(Bodies(db, low, best + 1).value)))
  {
    hide BlockKeys, Bodies;
    var out: Batch := map[];
    var number := low;
    EmptyBodies(db, low, Min(low, best + 1));
    while number <= best
      invariant low <= number && (number <= best + 1 || number == low)
      invariant Bodies(db, low, Min(number, best + 1)).Some?
      invariant out == Deletes(SuffixKeys(Bodies(db, low, Min(number, best + 1)).value))
    {
      BodiesStep(db, low, number);
      if BlockAt(number) !in db || !db[BlockAt(number)].BlockRow? {
        MissingBodyPersists(db, low, number + 1, best + 1);
        return None;
      }
      var block := db[BlockAt(number)].block;
      SuffixKeysStep(Bodies(db, low, number).value, block);
      DeletesUnion(map[], SuffixKeys(Bodies(db, low, number).value), BlockKeys(block));
      out := RemoveBlockFromBatch(out, block);
      number := number + 1;
    }
    batch := Some(out);
  }

  lemma EmptyBodies(db: Db, low: nat, end: nat)
    requires end <= low && end <= U64_MAX + 1
    ensures Bodies(db, low, end) == Some([]) && Deletes(SuffixKeys([])) == map[]
  {
  }

  lemma DeleteOne(batch: Batch, keys: set<Key>, key: Key)
    ensures (batch + Deletes(keys))[key := None] == batch + Deletes(keys + {key})
  {
  }

  lemma ScanFindsLogs(db: Db)
    ensures (set k | k in db && "log:index:" <= Spell(k)) == set k | k in db && IsLog(k)
  {
    hide Spell;
    forall k | k in db ensures "log:index:" <= Spell(k) <==> IsLog(k) { ScanLogIndex(k); }
  }

  lemma ScanStep(db: Db, low: nat, rest: set<Key>, key: Key)
    requires key in rest && key in db && IsLog(key) && db[key].LocationRow?
    ensures LogKeysFrom(db, low) - (rest - {key}) ==
      (LogKeysFrom(db, low) - rest) + (if LocationNumber(db[key].location) >= low then {key} else {})
  {
    hide LocationNumber;
  }

  lemma ScanEnds(db: Db, low: nat)
    ensures LogKeysFrom(db, low) - (set k | k in db && IsLog(k)) == {}
    ensures LogKeysFrom(db, low) - {} == LogKeysFrom(db, low)
  {
    hide LocationNumber;
  }

  /** Deletes the log rows at or above a height, found by a prefix scan. */
  method RemoveLogRows(db: Db, low: nat, batch0: Batch) returns (batch: Option<Batch>)
    ensures LogRowsReadable(db) ==> batch == Some(batch0 + Deletes(LogKeysFrom(db, low)))
    ensures !LogRowsReadable(db) ==> batch.None?
  {
    hide Spell, LocationNumber, Deletes, LogKeysFrom;
    var keys := set k | k in db && "log:index:" <= Spell(k);
    ScanFindsLogs(db);
    var out := batch0;
    var rest := keys;
    ScanEnds(db, low);
    NothingDeleted(batch0);
    while rest != {}
      invariant rest <= keys
      invariant forall k :: k in keys - rest ==> db[k].LocationRow?
      invariant out == batch0 + Deletes(LogKeysFrom(db, low) - rest)
      decreases |rest|
    {
      var key :| key in rest;
      if !db[key].LocationRow? {
        return None;
      }
      ScanStep(db, low, rest, key);
      if LocationNumber(db[key].location) >= low {
        DeleteOne(batch0, LogKeysFrom(db, low) - rest, key);
        out := out[key := None];
      }
      rest := rest - {key};
    }
    batch := Some(out);
  }

  lemma NothingDeleted(batch: Batch)
    ensures batch + Deletes({}) == batch
  {
  }

  method StateKeys(db: Db) returns (keys: set<Key>)
    ensures keys == AccountKeys(db)
  {
    hide Spell;
    keys := set k | k in db && ("account:" <= Spell(k) || "state:evm:snapshot:" <= Spell(k));
    forall k | k in db ensures k in keys <==> k in AccountKeys(db) {
      ScanAccounts(k);
      ScanSnapshots(k);
    }
  }

  /** The rows of the replacement blocks, inserted in order. */
  method WriteBlocks(blocks: seq<Block>) returns (rows: Db)
    requires AllStorable(blocks)
    ensures rows == Rebuild(blocks)
  {
    hide Rows;
    rows := map[];
    for i := 0 to |blocks|
      invariant rows == Rebuild(blocks[..i])
    {
      assert blocks[..i + 1][..i] == blocks[..i];
      rows := WriteRows(rows, blocks[i]);
    }
    assert blocks[..|blocks|] == blocks;
  }

  function NativeRows(native: Accounts): Db {
    BalanceRows(native) + NonceRows(native)
  }

  function NativeRow(a: Address, account: (u128, u64)): Db {
    map[Balance(a) := AmountRow(account.0), Nonce(a) := CountRow(account.1)]
  }

  lemma Interleave(a: Db, a': Db, b: Db, b': Db)
    requires a'.Keys !! b.Keys
    ensures (a + a') + (b + b') == (a + b) + (a' + b')
  {
  }

  lemma NativeStep(native: Accounts, a: Address, account: (u128, u64))
    ensures NativeRows(native[a := account]) == NativeRows(native) + NativeRow(a, account)
  {
    BalanceStep(native, a, account);
    NonceStep(native, a, account);
    hide BalanceRows, NonceRows;
    var balance, nonce: Db := map[Balance(a) := AmountRow(account.0)], map[Nonce(a) := CountRow(account.1)];
    Interleave(BalanceRows(native), balance, NonceRows(native), nonce);
    assert balance + nonce == NativeRow(a, account);
  }

  lemma BalanceStep(native: Accounts, a: Address, account: (u128, u64))
    ensures BalanceRows(native[a := account]) == BalanceRows(native) + map[Balance(a) := AmountRow(account.0)]
  {
    assert forall b: Address :: Balance(b).address == b;
  }

  lemma NonceStep(native: Accounts, a: Address, account: (u128, u64))
    ensures NonceRows(native[a := account]) == NonceRows(native) + map[Nonce(a) := CountRow(account.1)]
  {
    assert forall b: Address :: Nonce(b).address == b;
  }

  method WriteNative(rows0: Db, native: Accounts) returns (rows: Db)
    ensures rows == rows0 + NativeRows(native)
  {
    hide NativeRows, NativeRow;
    rows := rows0;
    var rest := native.Keys;
    ghost var written: Accounts := map[];
    assert NativeRows(map[]) == map[] by { NoNativeRows(); }
    while rest != {}
      invariant rest <= native.Keys && written == map a | a in native.Keys - rest :: native[a]
      invariant rows == rows0 + NativeRows(written)
      decreases |rest|
    {
      var a :| a in rest;
      NativeStep(written, a, native[a]);
      PlusAssociates(rows0, NativeRows(written), NativeRow(a, native[a]));
      rows := WriteNativeRow(rows, a, native[a]);
      written := written[a := native[a]];
      rest := rest - {a};
    }
    assert written == native;
  }

  lemma NoNativeRows()
    ensures NativeRows(map[]) == map[]
  {
  }

  method WriteNativeRow(rows0: Db, a: Address, account: (u128, u64)) returns (rows: Db)
    ensures rows == rows0 + NativeRow(a, account)
  {
    rows := rows0[Balance(a) := AmountRow(account.0)];
    rows := rows[Nonce(a) := CountRow(account.1)];
  }

  function EvmRows(evm: EvmAccounts): Db {
    CodeRows(evm) + SlotRows(evm)
  }

  /** The slots of one account that are stored. */
  function StoredSlots(a: Address, slots: map<Hash256, Hash256>): (rows: Db)
    ensures forall k :: k in rows ==> k.StorageSlot?
  {
    map k: Key | k in (set s | s in slots && slots[s] != ZERO_HASH :: StorageSlot(a, s)) :: BytesRow(slots[k.slot])
  }

  function StoredCode(a: Address, code: seq<byte>): (rows: Db)
    ensures forall k :: k in rows ==> k.Code?
  {
    if |code| > 0 then map[Code(a) := BytesRow(code)] else map[]
  }

  lemma EvmStep(evm: EvmAccounts, a: Address, account: EvmAccount)
    requires a !in evm
    ensures EvmRows(evm[a := account]) == EvmRows(evm) + (StoredCode(a, account.code) + StoredSlots(a, account.slots))
  {
    CodeStep(evm, a, account);
    SlotStep(evm, a, account);
    hide CodeRows, SlotRows, StoredCode, StoredSlots;
    Interleave(CodeRows(evm), StoredCode(a, account.code), SlotRows(evm), StoredSlots(a, account.slots));
  }

  lemma CodeStep(evm: EvmAccounts, a: Address, account: EvmAccount)
    requires a !in evm
    ensures CodeRows(evm[a := account]) == CodeRows(evm) + StoredCode(a, account.code)
  {
    hide CodeRows;
    forall k: Key
      ensures k in CodeRows(evm[a := account]) <==> k in CodeRows(evm) || k in StoredCode(a, account.code)
      ensures k in CodeRows(evm) ==>
        k !in StoredCode(a, account.code) && CodeRows(evm[a := account])[k] == CodeRows(evm)[k]
      ensures k in StoredCode(a, account.code) ==> CodeRows(evm[a := account])[k] == StoredCode(a, account.code)[k]
    {
      CodeRowAt(evm, k);
      CodeRowAt(evm[a := account], k);
    }
    hide *;
  }

  lemma StoredSlotAt(a: Address, slots: map<Hash256, Hash256>, k: Key)
    ensures k in StoredSlots(a, slots) <==> k.StorageSlot? && k.address == a && NonZero(slots, k.slot)
    ensures k in StoredSlots(a, slots) ==> StoredSlots(a, slots)[k] == BytesRow(slots[k.slot])
  {
    if k.StorageSlot? { assert k == StorageSlot(k.address, k.slot); }
  }

  lemma SlotStep(evm: EvmAccounts, a: Address, account: EvmAccount)
    requires a !in evm
    ensures SlotRows(evm[a := account]) == SlotRows(evm) + StoredSlots(a, account.slots)
  {
    hide *;
    var next := evm[a := account];
    forall k: Key
      ensures k in SlotRows(next) <==> k in SlotRows(evm) || k in StoredSlots(a, account.slots)
      ensures k in StoredSlots(a, account.slots) ==> SlotRows(next)[k] == StoredSlots(a, account.slots)[k]
      ensures k in SlotRows(evm) ==> k !in StoredSlots(a, account.slots) && SlotRows(next)[k] == SlotRows(evm)[k]
    {
      SlotRowAt(evm, k);
      SlotRowAt(next, k);
      StoredSlotAt(a, account.slots, k);
    }
  }

  function StoredSlot(a: Address, s: Hash256, value: Hash256): Db {
    if value != ZERO_HASH then map[StorageSlot(a, s) := BytesRow(value)] else map[]
  }

  lemma StoredSlotStepAt(a: Address, slots: map<Hash256, Hash256>, s: Hash256, value: Hash256, k: Key)
    requires s !in slots
    ensures var before, added, after :=
      StoredSlots(a, slots), StoredSlot(a, s, value), StoredSlots(a, slots[s := value]);
      (k in after <==> k in before || k in added) && (k in added ==> after[k] == added[k]) &&
      (k in before ==> k !in added && after[k] == before[k])
  {
    hide StoredSlots, ToBe;
    StoredSlotAt(a, slots, k);
    StoredSlotAt(a, slots[s := value], k);
  }

  lemma StoredSlotStep(a: Address, slots: map<Hash256, Hash256>, s: Hash256, value: Hash256)
    requires s !in slots
    ensures StoredSlots(a, slots[s := value]) == StoredSlots(a, slots) + StoredSlot(a, s, value)
  {
    hide *;
    forall k: Key { StoredSlotStepAt(a, slots, s, value, k); }
  }

  method WriteSlots(rows0: Db, a: Address, slots: map<Hash256, Hash256>) returns (rows: Db)
    ensures rows == rows0 + StoredSlots(a, slots)
  {
    hide StoredSlots, ToBe;
    rows := rows0;
    var rest := slots.Keys;
    ghost var written: map<Hash256, Hash256> := map[];
    assert StoredSlots(a, map[]) == map[] by { NoSlots(a); }
    while rest != {}
      invariant rest <= slots.Keys && written == map s | s in slots.Keys - rest :: slots[s]
      invariant rows == rows0 + StoredSlots(a, written)
      decreases |rest|
    {
      var s :| s in rest;
      StoredSlotStep(a, written, s, slots[s]);
      PlusAssociates(rows0, StoredSlots(a, written), StoredSlot(a, s, slots[s]));
      if slots[s] != ZERO_HASH {
        rows := rows[StorageSlot(a, s) := BytesRow(slots[s])];
      }
      written := written[s := slots[s]];
      rest := rest - {s};
    }
    assert written == slots;
  }

  lemma NoSlots(a: Address)
    ensures StoredSlots(a, map[]) == map[]
  {
  }

  method WriteEvmAccount(rows0: Db, a: Address, account: EvmAccount) returns (rows: Db)
    ensures rows == rows0 + (StoredCode(a, account.code) + StoredSlots(a, account.slots))
  {
    hide StoredSlots;
    rows := rows0;
    PlusAssociates(rows0, StoredCode(a, account.code), StoredSlots(a, account.slots));
    if |account.code| > 0 {
      rows := rows[Code(a) := BytesRow(account.code)];
    }
    assert rows == rows0 + StoredCode(a, account.code);
    rows := WriteSlots(rows, a, account.slots);
  }

  method WriteEvm(rows0: Db, evm: EvmAccounts) returns (rows: Db)
    ensures rows == rows0 + EvmRows(evm)
  {
    hide EvmRows, StoredSlots, StoredCode;
    rows := rows0;
    var rest := evm.Keys;
    ghost var written: EvmAccounts := map[];
    assert EvmRows(map[]) == map[] by { NoEvmRows(); }
    while rest != {}
      invariant rest <= evm.Keys && written == map a | a in evm.Keys - rest :: evm[a]
      invariant rows == rows0 + EvmRows(written)
      decreases |rest|
    {
      var a :| a in rest;
      EvmStep(written, a, evm[a]);
      PlusAssociates(rows0, EvmRows(written), StoredCode(a, evm[a].code) + StoredSlots(a, evm[a].slots));
      rows := WriteEvmAccount(rows, a, evm[a]);
      written := written[a := evm[a]];
      rest := rest - {a};
    }
    assert written == evm;
  }

  lemma NoEvmRows()
    ensures EvmRows(map[]) == map[]
  {
  }

  method WriteSummary(rows0: Db, tip: u64, evm: EvmAccounts, supply: Supply) returns (rows: Db)
    ensures rows == rows0 + SummaryRows(tip, evm, supply)
  {
    rows := rows0[EvmSnapshot(tip) := SnapshotRow(evm)];
    rows := rows[RewardsIndexedTo := CountRow(tip)];
    rows := rows[SupplyIndexedTo := CountRow(supply.indexedTo)];
    rows := rows[SupplyTotal := AmountRow(supply.total)];
    rows := rows[SupplyBurned := AmountRow(supply.burned)];
    rows := rows[BestNumber := CountRow(tip)];
  }

  lemma FiveRows(base: Db, a: Db, b: Db, c: Db, d: Db, e: Db)
    ensures base + (a + b) + (c + d) + e == base + (a + b + c + d + e)
  {
    PlusAssociates(a + b, c, d);
    PlusAssociates(base, a + b, c + d);
    PlusAssociates(base, a + b + c + d, e);
  }

  /** The batch of a publication: every removal, then every row of the new suffix
      and the new state. A later write to a key replaces an earlier one. */
  method BuildBatch(db: Db, r: Request) returns (batch: Option<Batch>)
    requires BestHeader(db).Some? && AllStorable(r.replacement) && |r.replacement| > 0
    ensures SuffixOf(db, r).None? ==> batch.None?
    ensures SuffixOf(db, r).Some? ==> batch.Some? && ApplyBatch(db, batch.value) == Published(db, SuffixOf(db, r).value)
  {
    hide Bodies, LogRowsReadable, Rebuild, Puts, Deletes, ApplyBatch, BestHeader;
    hide SuffixKeys, LogKeysFrom, AccountKeys, BalanceRows, NonceRows, CodeRows, SlotRows, SummaryRows;
    var low := NextNumber(r.ancestor.number);
    var bodies := RemoveSuffix(db, low, BestHeader(db).value.number);
    if bodies.None? {
      return None;
    }
    var logs := RemoveLogRows(db, low, bodies.value);
    if logs.None? {
      return None;
    }
    var state := StateKeys(db);
    var removals := DeleteAll(logs.value, state);
    var tip := r.replacement[|r.replacement| - 1].header.number;
    var rows := WriteBlocks(r.replacement);
    rows := WriteNative(rows, r.native);
    rows := WriteEvm(rows, r.evm);
    rows := WriteSummary(rows, tip, r.evm, r.supply);
    ghost var x := SuffixOf(db, r).value;
    FiveRows(Rebuild(r.replacement), BalanceRows(r.native), NonceRows(r.native), CodeRows(r.evm), SlotRows(r.evm),
             SummaryRows(tip, r.evm, r.supply));
    assert rows == NewRows(x);
    assert removals == Deletes(RemovedKeys(db, x)) by {
      NothingDeletedYet(SuffixKeys(x.removed), LogKeysFrom(db, low), state);
    }
    ApplyDeletesThenPuts(db, RemovedKeys(db, x), rows);
    batch := Some(removals + Puts(rows));
  }

  lemma NothingDeletedYet(a: set<Key>, b: set<Key>, c: set<Key>)
    ensures Deletes(a) + Deletes(b) + Deletes(c) == Deletes(a + b + c)
  {
  }
}
