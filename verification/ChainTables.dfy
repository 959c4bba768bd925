/** The rows a block contributes to the database, and replacing a chain suffix. */
module ChainTables {
  import opened Bytes
  import opened Primitives
  import opened Keys
  import Canonical

  datatype StoredReceipt = StoredReceipt(
    receipt: Receipt, header: BlockHeader, transactionIndex: nat, transaction: Transaction)

  datatype EvmAccount = EvmAccount(balance: u128, nonce: u64, code: seq<byte>, slots: map<Hash256, Hash256>)

  datatype Value =
    | BlockRow(block: Block)
    | HeaderRow(header: BlockHeader)
    | TransactionRow(transaction: Transaction)
    | ReceiptRow(stored: StoredReceipt)
    | LocationRow(location: Location)
    | CountRow(count: u64)
    | AmountRow(amount: u128)
    | BytesRow(bytes: seq<byte>)
    | SnapshotRow(accounts: map<Address, EvmAccount>)

  type Db = map<Key, Value>

  // ---- The rows of one block ----

  /** Blocks that can be stored: one receipt per transaction at least. */
  predicate Storable(b: Block) {
    |b.transactions| <= |b.receipts|
  }

  function TransactionRows(b: Block, i: nat): Db
    requires i < |b.transactions| && Storable(b)
  {
    var t := b.transactions[i];
    var hash := Canonical.TransactionHash(t);
    var stored := ReceiptRow(StoredReceipt(b.receipts[i], b.header, i, t));
    map[TransactionBy(hash) := TransactionRow(t)]
      + (if t.externalHash.Some? then map[TransactionBy(t.externalHash.value) := TransactionRow(t)] else map[])
      + map[ReceiptBy(Canonical.RpcHash(t)) := stored]
      + map[ReceiptBy(hash) := stored]
  }

  /** Rows of the first `n` transactions; a later one replaces an earlier. */
  function AllTransactionRows(b: Block, n: nat): Db
    requires n <= |b.transactions| && Storable(b)
  {
    if n == 0 then map[] else AllTransactionRows(b, n - 1) + TransactionRows(b, n - 1)
  }

  function TopicRows(topics: seq<Hash256>, location: Location): Db {
    if |topics| == 0 then map[]
    else
      var last := topics[|topics| - 1];
      TopicRows(topics[..|topics| - 1], location) + map[LogByTopic(last, location) := LocationRow(location)]
  }

  function LogRows(log: LogEntry, location: Location): Db {
    map[LogAt(location) := LocationRow(location)]
      + map[LogByAddress(log.address, location) := LocationRow(location)]
      + TopicRows(log.topics, location)
  }

  function ReceiptLogRows(b: Block, i: nat, n: nat): Db
    requires i < |b.receipts| && n <= |b.receipts[i].logs|
  {
    if n == 0 then map[]
    else ReceiptLogRows(b, i, n - 1) + LogRows(b.receipts[i].logs[n - 1], LogLocation(b.header.number, i, n - 1))
  }

  function AllLogRows(b: Block, n: nat): Db
    requires n <= |b.receipts|
  {
    if n == 0 then map[] else AllLogRows(b, n - 1) + ReceiptLogRows(b, n - 1, |b.receipts[n - 1].logs|)
  }

  function Rows(b: Block): Db
    requires Storable(b)
  {
    map[BlockAt(b.header.number) := BlockRow(b)]
      + map[HeaderAt(b.header.number) := HeaderRow(b.header)]
      + AllTransactionRows(b, |b.transactions|)
      + AllLogRows(b, |b.receipts|)
  }

  // ---- What is in those rows ----

  predicate IsTable(k: Key) {
    k.BlockAt? || k.HeaderAt? || k.TransactionBy? || k.ReceiptBy? || IsLog(k)
  }

  /** The hashes a block's transactions are indexed under. */
  function HashesOf(b: Block): set<Hash256> {
    (set t | t in b.transactions :: Canonical.TransactionHash(t)) +
      (set t | t in b.transactions :: Canonical.RpcHash(t))
  }

  /** The block number a row belongs to, for rows that are filed by number. */
  function NumberOf(k: Key): Option<u64> {
    match k
    case BlockAt(n) => Some(n)
    case HeaderAt(n) => Some(n)
    case LogAt(l) => Some(LocationNumber(l))
    case LogByAddress(_, l) => Some(LocationNumber(l))
    case LogByTopic(_, l) => Some(LocationNumber(l))
    case _ => None
  }

  function HashOf(k: Key): Option<Hash256> {
    match k
    case TransactionBy(h) => Some(h)
    case ReceiptBy(h) => Some(h)
    case _ => None
  }

  predicate IndexedUnder(t: Transaction, hash: Hash256) {
    Canonical.TransactionHash(t) == hash || Canonical.RpcHash(t) == hash
  }

  /** Log rows hold the location they are filed under. */
  predicate LogRowSound(k: Key, v: Value) {
    IsLog(k) ==> v == LocationRow(k.location)
  }

  lemma {:induction false} TransactionRowKeys(b: Block, n: nat, k: Key)
    requires Storable(b) && n <= |b.transactions|
    ensures k in AllTransactionRows(b, n) <==>
      HashOf(k).Some? && exists i :: 0 <= i < n && IndexedUnder(b.transactions[i], HashOf(k).value)
  {
    hide TransactionRows, IndexedUnder;
    if n > 0 {
      TransactionRowKeys(b, n - 1, k);
      OneTransactionRowKeys(b, n - 1, k);
    }
  }

  lemma OneTransactionRowKeys(b: Block, i: nat, k: Key)
    requires Storable(b) && i < |b.transactions|
    ensures k in TransactionRows(b, i) <==> HashOf(k).Some? && IndexedUnder(b.transactions[i], HashOf(k).value)
  {
    hide Canonical.TransactionHash;
  }

  lemma {:induction false} TopicRowKeys(topics: seq<Hash256>, location: Location, k: Key)
    requires k in TopicRows(topics, location)
    ensures k.LogByTopic? && k.location == location && TopicRows(topics, location)[k] == LocationRow(location)
  {
    if |topics| > 0 && k in TopicRows(topics[..|topics| - 1], location) {
      TopicRowKeys(topics[..|topics| - 1], location, k);
    }
  }

  lemma {:induction false} ReceiptLogRowKeys(b: Block, i: nat, n: nat, k: Key)
    requires i < |b.receipts| && n <= |b.receipts[i].logs| && k in ReceiptLogRows(b, i, n)
    ensures IsLog(k) && NumberOf(k) == Some(b.header.number) && ReceiptLogRows(b, i, n)[k] == LocationRow(k.location)
  {
    hide LogLocation, LocationNumber;
    var log, location := b.receipts[i].logs[n - 1], LogLocation(b.header.number, i, n - 1);
    LocationNumberBack(b.header.number, i, n - 1);
    if k in TopicRows(log.topics, location) { TopicRowKeys(log.topics, location, k); }
    if k !in LogRows(log, location) { ReceiptLogRowKeys(b, i, n - 1, k); }
  }

  lemma {:induction false} LogRowKeys(b: Block, n: nat, k: Key)
    requires n <= |b.receipts| && k in AllLogRows(b, n)
    ensures IsLog(k) && NumberOf(k) == Some(b.header.number) && AllLogRows(b, n)[k] == LocationRow(k.location)
  {
    hide LocationNumber;
    var last := ReceiptLogRows(b, n - 1, |b.receipts[n - 1].logs|);
    if k in last { ReceiptLogRowKeys(b, n - 1, |b.receipts[n - 1].logs|, k); } else { LogRowKeys(b, n - 1, k); }
  }

  /** Every row of a block is filed under its number or under one of its hashes. */
  lemma RowKeys(b: Block, k: Key)
    requires Storable(b)
    ensures k in Rows(b) ==> IsTable(k) && LogRowSound(k, Rows(b)[k])
    ensures k in Rows(b) && NumberOf(k).Some? ==> NumberOf(k).value == b.header.number
    ensures HashOf(k).Some? ==> (k in Rows(b) <==> HashOf(k).value in HashesOf(b))
    ensures BlockAt(b.header.number) in Rows(b) && Rows(b)[BlockAt(b.header.number)] == BlockRow(b)
    ensures HeaderAt(b.header.number) in Rows(b) && Rows(b)[HeaderAt(b.header.number)] == HeaderRow(b.header)
  {
    hide LocationNumber, AllTransactionRows, AllLogRows, IndexedUnder, HashesOf;
    TransactionRowKeys(b, |b.transactions|, k);
    if k in AllLogRows(b, |b.receipts|) { LogRowKeys(b, |b.receipts|, k); }
    FiledByNumber(b, BlockAt(b.header.number));
    FiledByNumber(b, HeaderAt(b.header.number));
    if HashOf(k).Some? { HashesIndexed(b, k); }
  }

  lemma FiledByNumber(b: Block, k: Key)
    requires Storable(b) && (k.BlockAt? || k.HeaderAt?)
    ensures k !in AllTransactionRows(b, |b.transactions|) && k !in AllLogRows(b, |b.receipts|)
  {
    hide AllTransactionRows, AllLogRows;
    TransactionRowKeys(b, |b.transactions|, k);
    if k in AllLogRows(b, |b.receipts|) { LogRowKeys(b, |b.receipts|, k); }
  }

  lemma HashesIndexed(b: Block, k: Key)
    requires HashOf(k).Some?
    ensures HashOf(k).value in HashesOf(b) <==>
      exists i :: 0 <= i < |b.transactions| && IndexedUnder(b.transactions[i], HashOf(k).value)
  {
    hide Canonical.TransactionHash, Canonical.RpcHash;
  }

  // ---- The rows of a chain ----

  predicate AllStorable(chain: seq<Block>) {
    forall k :: 0 <= k < |chain| ==> Storable(chain[k])
  }

  /** The tables that inserting the blocks in order into an empty database gives. */
  function Rebuild(chain: seq<Block>): Db
    requires AllStorable(chain)
  {
    if |chain| == 0 then map[] else Rebuild(chain[..|chain| - 1]) + Rows(chain[|chain| - 1])
  }

  ghost function ChainHashes(chain: seq<Block>): set<Hash256> {
    if |chain| == 0 then {} else ChainHashes(chain[..|chain| - 1]) + HashesOf(chain[|chain| - 1])
  }

  lemma {:induction false} RebuildConcat(a: seq<Block>, b: seq<Block>)
    requires AllStorable(a) && AllStorable(b)
    ensures Rebuild(a + b) == Rebuild(a) + Rebuild(b)
  {
    hide Rows, Storable;
    if |b| == 0 {
      assert a + b == a;
    } else {
      var front := b[..|b| - 1];
      assert (a + b)[..|a + b| - 1] == a + front;
      RebuildConcat(a, front);
    }
  }

  lemma {:induction false} RebuildKeys(chain: seq<Block>, k: Key)
    requires AllStorable(chain)
    ensures k in Rebuild(chain) ==> IsTable(k) && LogRowSound(k, Rebuild(chain)[k])
    ensures k in Rebuild(chain) && NumberOf(k).Some? ==> exists b :: b in chain && b.header.number == NumberOf(k).value
    ensures HashOf(k).Some? ==> (k in Rebuild(chain) <==> HashOf(k).value in ChainHashes(chain))
  {
    hide Rows, Storable, LocationNumber, HashesOf;
    if |chain| > 0 {
      var front, last := chain[..|chain| - 1], chain[|chain| - 1];
      RebuildKeys(front, k);
      RowKeys(last, k);
      assert last in chain && forall b :: b in front ==> b in chain;
    }
  }

  // ---- A sled batch: at most one pending write per key ----

  type Batch = map<Key, Option<Value>>

  function ApplyBatch(db: Db, batch: Batch): Db {
    map k | k in db.Keys + batch.Keys && (k in batch ==> batch[k].Some?) :: if k in batch then batch[k].value else db[k]
  }

  function Puts(rows: Db): Batch {
    map k | k in rows :: Some(rows[k])
  }

  function Deletes(keys: set<Key>): Batch {
    map k | k in keys :: None
  }

  lemma ApplyDeletesThenPuts(db: Db, keys: set<Key>, rows: Db)
    ensures ApplyBatch(db, Deletes(keys) + Puts(rows)) == (db - keys) + rows
  {
  }

  // ---- Replacing a suffix ----

  /** The transaction and receipt rows of a block. */
  function HashKeys(b: Block): set<Key> {
    (set h | h in HashesOf(b) :: TransactionBy(h)) + (set h | h in HashesOf(b) :: ReceiptBy(h))
  }

  function BlockKeys(b: Block): set<Key> {
    {BlockAt(b.header.number), HeaderAt(b.header.number)} + HashKeys(b)
  }

  function SuffixKeys(removed: seq<Block>): set<Key> {
    if |removed| == 0 then {} else SuffixKeys(removed[..|removed| - 1]) + BlockKeys(removed[|removed| - 1])
  }

  /** Log rows at or above a height, by the location they hold. */
  function LogKeysFrom(db: Db, from: nat): set<Key> {
    set k | k in db && IsLog(k) && db[k].LocationRow? && LocationNumber(db[k].location) >= from
  }

  function AccountKeys(db: Db): set<Key> {
    set k | k in db && (IsAccount(k) || k.EvmSnapshot?)
  }

  type Accounts = map<Address, (u128, u64)>
  type EvmAccounts = map<Address, EvmAccount>

  ghost function Tables(db: Db): Db {
    map k | k in db && IsTable(k) :: db[k]
  }

  /** Table rows that belong below a height: what a node keeps under a suffix, all of
      it or what pruning left. */
  ghost predicate RowsBelow(base: Db, from: nat) {
    forall k :: k in base ==>
      IsTable(k) && LogRowSound(k, base[k]) && (NumberOf(k).Some? ==> NumberOf(k).value < from)
  }

  /** The chain tables after a suffix was replaced, before and after compared key
      by key: only a hash shared by the rows below and the removed suffix, and not
      brought back by the replacement, goes missing. */
  lemma ReplaceOneKey(db: Db, base: Db, removed: seq<Block>, replacement: seq<Block>, from: nat, k: Key)
    requires AllStorable(removed) && AllStorable(replacement) && RowsBelow(base, from)
    requires Tables(db) == base + Rebuild(removed) && IsTable(k)
    requires forall b :: b in removed || b in replacement ==> b.header.number >= from
    ensures var kept := db - (SuffixKeys(removed) + LogKeysFrom(db, from));
      var after, rebuilt := kept + Rebuild(replacement), base + Rebuild(replacement);
      ((k in after <==> k in rebuilt) && (k in after && k in rebuilt ==> after[k] == rebuilt[k])) <==>
      !(k in base && HashOf(k).Some? && HashOf(k).value in ChainHashes(removed) - ChainHashes(replacement))
  {
    hide Rebuild, ChainHashes, LocationNumber, Storable;
    RebuildKeys(removed, k);
    RebuildKeys(replacement, k);
    SuffixKeysAre(removed, k);
    assert k in db <==> k in Tables(db);
    assert k in db ==> db[k] == Tables(db)[k];
  }

  lemma {:induction false} SuffixKeysAre(removed: seq<Block>, k: Key)
    ensures HashOf(k).Some? ==> (k in SuffixKeys(removed) <==> HashOf(k).value in ChainHashes(removed))
    ensures k.BlockAt? || k.HeaderAt? ==>
      (k in SuffixKeys(removed) <==> exists b :: b in removed && b.header.number == k.number)
    ensures HashOf(k).None? && !k.BlockAt? && !k.HeaderAt? ==> k !in SuffixKeys(removed)
  {
    hide HashesOf;
    if |removed| > 0 {
      SuffixKeysAre(removed[..|removed| - 1], k);
      assert removed == removed[..|removed| - 1] + [removed[|removed| - 1]];
    }
  }

  // ---- The rows of the execution state ----

  function BalanceRows(native: Accounts): (rows: Db)
    ensures forall k :: k in rows ==> k.Balance?
  {
    map k: Key | k in (set a | a in native :: Balance(a)) :: AmountRow(native[k.address].0)
  }

  function NonceRows(native: Accounts): (rows: Db)
    ensures forall k :: k in rows ==> k.Nonce?
  {
    map k: Key | k in (set a | a in native :: Nonce(a)) :: CountRow(native[k.address].1)
  }

  function CodeRows(evm: EvmAccounts): (rows: Db)
    ensures forall k :: k in rows ==> k.Code?
  {
    map k: Key | k in (set a | a in evm && |evm[a].code| > 0 :: Code(a)) :: BytesRow(evm[k.address].code)
  }

  /** Slots that hold zero are not stored. */
  function SlotRows(evm: EvmAccounts): (rows: Db)
    ensures forall k :: k in rows ==> k.StorageSlot?
  {
    map k: Key | k in (set a, s | a in evm && s in evm[a].slots && evm[a].slots[s] != ZERO_HASH :: StorageSlot(a, s))
      :: BytesRow(evm[k.address].slots[k.slot])
  }

  datatype Supply = Supply(indexedTo: u64, total: u128, burned: u128)

  function SummaryRows(tip: u64, evm: EvmAccounts, supply: Supply): (rows: Db)
    ensures forall k :: k in rows ==> !IsTable(k) && !IsAccount(k)
  {
    map[EvmSnapshot(tip) := SnapshotRow(evm), RewardsIndexedTo := CountRow(tip),
        SupplyIndexedTo := CountRow(supply.indexedTo), SupplyTotal := AmountRow(supply.total),
        SupplyBurned := AmountRow(supply.burned), BestNumber := CountRow(tip)]
  }

  function StateRows(native: Accounts, evm: EvmAccounts, supply: Supply, tip: u64): Db {
    BalanceRows(native) + NonceRows(native) + CodeRows(evm) + SlotRows(evm) + SummaryRows(tip, evm, supply)
  }

  lemma StateRowKeys(native: Accounts, evm: EvmAccounts, supply: Supply, tip: u64, k: Key)
    requires k in StateRows(native, evm, supply, tip)
    ensures !IsTable(k)
  {
    hide BalanceRows, NonceRows, CodeRows, SlotRows, SummaryRows;
  }

  /** Everything a suffix publication supplies besides the old database. */
  datatype Suffix = Suffix(
    from: nat, removed: seq<Block>, replacement: seq<Block>, native: Accounts, evm: EvmAccounts, supply: Supply)

  predicate ValidSuffix(x: Suffix) {
    |x.replacement| > 0 && AllStorable(x.replacement)
  }

  function TipOf(x: Suffix): BlockHeader
    requires ValidSuffix(x)
  {
    x.replacement[|x.replacement| - 1].header
  }

  function RemovedKeys(db: Db, x: Suffix): set<Key> {
    SuffixKeys(x.removed) + LogKeysFrom(db, x.from) + AccountKeys(db)
  }

  function NewRows(x: Suffix): Db
    requires ValidSuffix(x)
  {
    Rebuild(x.replacement) + StateRows(x.native, x.evm, x.supply, TipOf(x).number)
  }

  function Published(db: Db, x: Suffix): Db
    requires ValidSuffix(x)
  {
    (db - RemovedKeys(db, x)) + NewRows(x)
  }

  /** Every hash that the rows below share with the removed suffix is in the
      replacement again. */
  ghost predicate NoHashLost(base: Db, x: Suffix) {
    forall k :: k in base && HashOf(k).Some? && HashOf(k).value in ChainHashes(x.removed) ==>
      HashOf(k).value in ChainHashes(x.replacement)
  }

  /** Replacing a suffix leaves the rows below it, whatever they are, with the rows of
      the replacement on top, exactly when no hash is lost. */
  lemma ReorgReplacesSuffix(db: Db, base: Db, x: Suffix)
    requires ValidSuffix(x) && AllStorable(x.removed) && RowsBelow(base, x.from)
    requires Tables(db) == base + Rebuild(x.removed)
    requires forall b :: b in x.removed || b in x.replacement ==> b.header.number >= x.from
    ensures Tables(Published(db, x)) == base + Rebuild(x.replacement) <==> NoHashLost(base, x)
  {
    hide Rebuild, ChainHashes, SuffixKeys, LogKeysFrom, StateRows, Storable, Tables;
    var after, rebuilt := Tables(Published(db, x)), base + Rebuild(x.replacement);
    forall k: Key
      ensures ((k in after <==> k in rebuilt) && (k in after && k in rebuilt ==> after[k] == rebuilt[k])) <==>
        !(k in base && HashOf(k).Some? && HashOf(k).value in ChainHashes(x.removed) - ChainHashes(x.replacement))
    {
      PublishedTable(db, x, k);
      if IsTable(k) {
        ReplaceOneKey(db, base, x.removed, x.replacement, x.from, k);
      } else {
        RebuildKeys(x.replacement, k);
      }
    }
    if NoHashLost(base, x) {
      assert after == rebuilt;
    }
  }

  lemma RebuildBelow(prefix: seq<Block>, from: nat)
    requires AllStorable(prefix) && forall b :: b in prefix ==> b.header.number < from
    ensures RowsBelow(Rebuild(prefix), from)
  {
    hide Rebuild, ChainHashes, LocationNumber, Storable;
    forall k | k in Rebuild(prefix)
      ensures IsTable(k) && LogRowSound(k, Rebuild(prefix)[k]) && (NumberOf(k).Some? ==> NumberOf(k).value < from)
    {
      RebuildKeys(prefix, k);
    }
  }

  lemma HashLostExactly(prefix: seq<Block>, x: Suffix)
    requires AllStorable(prefix)
    ensures NoHashLost(Rebuild(prefix), x) <==>
      ChainHashes(prefix) * ChainHashes(x.removed) <= ChainHashes(x.replacement)
  {
    hide Rebuild, ChainHashes, Storable;
    forall k: Key | HashOf(k).Some? ensures k in Rebuild(prefix) <==> HashOf(k).value in ChainHashes(prefix) {
      RebuildKeys(prefix, k);
    }
    if NoHashLost(Rebuild(prefix), x) {
      forall h | h in ChainHashes(prefix) * ChainHashes(x.removed) ensures h in ChainHashes(x.replacement) {
        assert HashOf(TransactionBy(h)) == Some(h);
      }
    }
  }

  /** A reorganisation leaves the tables that a fresh node has after inserting the
      new chain. It does so exactly when every transaction hash that the kept
      prefix shares with the removed suffix is in the replacement again; otherwise
      removing the suffix takes the prefix's row with it. */
  lemma ReorgEqualsRebuild(db: Db, prefix: seq<Block>, x: Suffix)
    requires ValidSuffix(x) && AllStorable(prefix) && AllStorable(x.removed) && AllStorable(prefix + x.removed)
    requires Tables(db) == Rebuild(prefix + x.removed)
    requires forall b :: b in prefix ==> b.header.number < x.from
    requires forall b :: b in x.removed || b in x.replacement ==> b.header.number >= x.from
    ensures AllStorable(prefix + x.replacement)
    ensures Tables(Published(db, x)) == Rebuild(prefix + x.replacement)
       <==> ChainHashes(prefix) * ChainHashes(x.removed) <= ChainHashes(x.replacement)
  {
    hide Rebuild, ChainHashes, Published, Storable, Tables, RowsBelow, NoHashLost;
    RebuildConcat(prefix, x.removed);
    RebuildConcat(prefix, x.replacement);
    RebuildBelow(prefix, x.from);
    HashLostExactly(prefix, x);
    ReorgReplacesSuffix(db, Rebuild(prefix), x);
  }

  lemma PublishedTable(db: Db, x: Suffix, k: Key)
    requires ValidSuffix(x)
    ensures var after := (db - (SuffixKeys(x.removed) + LogKeysFrom(db, x.from))) + Rebuild(x.replacement);
      (k in Tables(Published(db, x)) <==> IsTable(k) && k in after) &&
      (IsTable(k) && k in after ==> Tables(Published(db, x))[k] == after[k])
  {
    hide Rebuild, SuffixKeys, LogKeysFrom, StateRows, Storable;
    if k in StateRows(x.native, x.evm, x.supply, TipOf(x).number) {
      StateRowKeys(x.native, x.evm, x.supply, TipOf(x).number, k);
    }
  }

  // ---- Accounts read back ----

  /** Balances and nonces by address; what is missing counts as zero. */
  function AccountSnapshot(db: Db): Accounts {
    map a | a in (set k | k in db && (k.Balance? || k.Nonce?) :: k.address) ::
      (if Balance(a) in db && db[Balance(a)].AmountRow? then db[Balance(a)].amount else 0,
       if Nonce(a) in db && db[Nonce(a)].CountRow? then db[Nonce(a)].count else 0)
  }

  lemma StateRowAccounts(x: Suffix, a: Address)
    requires ValidSuffix(x)
    ensures var rows := StateRows(x.native, x.evm, x.supply, TipOf(x).number);
      (Balance(a) in rows <==> a in x.native) && (a in x.native ==> rows[Balance(a)] == AmountRow(x.native[a].0)) &&
      (Nonce(a) in rows <==> a in x.native) && (a in x.native ==> rows[Nonce(a)] == CountRow(x.native[a].1))
  {
    hide CodeRows, SlotRows, SummaryRows;
    assert SummaryRowsHaveNoAccounts(x);
  }

  ghost predicate SummaryRowsHaveNoAccounts(x: Suffix)
    requires ValidSuffix(x)
  {
    forall a: Address :: Balance(a) !in SummaryRows(TipOf(x).number, x.evm, x.supply) &&
      Nonce(a) !in SummaryRows(TipOf(x).number, x.evm, x.supply)
  }

  lemma PublishedAccountRow(db: Db, x: Suffix, k: Key)
    requires ValidSuffix(x) && IsAccount(k)
    ensures k in Published(db, x) <==> k in StateRows(x.native, x.evm, x.supply, TipOf(x).number)
    ensures k in Published(db, x) ==> Published(db, x)[k] == StateRows(x.native, x.evm, x.supply, TipOf(x).number)[k]
  {
    hide Rebuild, SuffixKeys, LogKeysFrom, StateRows;
    RebuildKeys(x.replacement, k);
  }

  /** After a publication the accounts are the supplied ones, with nothing left of
      the accounts before. */
  lemma PublishedAccounts(db: Db, x: Suffix)
    requires ValidSuffix(x)
    ensures AccountSnapshot(Published(db, x)) == x.native
  {
    hide Published, StateRows;
    var after := Published(db, x);
    forall k: Key | k.Balance? || k.Nonce?
      ensures k in after <==> k.address in x.native
      ensures k in after ==>
        after[k] == if k.Balance? then AmountRow(x.native[k.address].0) else CountRow(x.native[k.address].1)
    {
      PublishedAccountRow(db, x, k);
      StateRowAccounts(x, k.address);
    }
    forall a: Address ensures a in AccountSnapshot(after) <==> a in x.native {
      assert Balance(a).address == a;
    }
  }
}
