/** The derived log index agrees with the block bodies through every run of tip
    extensions, suffix publications and pruning. */
module LogIndex {
  import opened Bytes
  import opened Primitives
  import opened Keys
  import opened ChainTables

  // ---- Which log rows a block has ----

  ghost predicate HasLog(b: Block, log: LogEntry) {
    exists i, j :: 0 <= i < |b.receipts| && 0 <= j < |b.receipts[i].logs| && b.receipts[i].logs[j] == log
  }

  /** A log row speaks of a log: of any, of one with this address, of one with this topic. */
  predicate Describes(k: Key, log: LogEntry) {
    match k
    case LogAt(_) => true
    case LogByAddress(a, _) => log.address == a
    case LogByTopic(t, _) => t in log.topics
    case _ => false
  }

  /** The same row at another location. */
  function Relocated(k: Key, location: Location): Key
    requires IsLog(k)
  {
    match k
    case LogAt(_) => LogAt(location)
    case LogByAddress(a, _) => LogByAddress(a, location)
    case LogByTopic(t, _) => LogByTopic(t, location)
  }

  lemma {:induction false} TopicRowsExactly(topics: seq<Hash256>, location: Location, k: Key)
    ensures k in TopicRows(topics, location) <==> k.LogByTopic? && k.topic in topics && k.location == location
  {
    if |topics| > 0 {
      TopicRowsExactly(topics[..|topics| - 1], location, k);
      assert topics == topics[..|topics| - 1] + [topics[|topics| - 1]];
    }
  }

  lemma LogRowsExactly(log: LogEntry, location: Location, k: Key)
    ensures k in LogRows(log, location) <==> IsLog(k) && Describes(k, log) && k.location == location
  {
    TopicRowsExactly(log.topics, location, k);
  }

  lemma {:induction false} ReceiptLogsExactly(b: Block, i: nat, n: nat, k: Key)
    requires i < |b.receipts| && n <= |b.receipts[i].logs|
    ensures k in ReceiptLogRows(b, i, n) <==>
      IsLog(k) && exists j :: 0 <= j < n && RowOf(b, i, j, k)
  {
    hide LogRows, LogLocation, Describes;
    if n > 0 {
      ReceiptLogsExactly(b, i, n - 1, k);
      RowOfIs(b, i, n - 1, k);
    }
  }

  /** `k` is a row of log `j` of receipt `i`. */
  ghost predicate RowOf(b: Block, i: nat, j: nat, k: Key)
    requires i < |b.receipts| && j < |b.receipts[i].logs|
  {
    IsLog(k) && Describes(k, b.receipts[i].logs[j]) && k.location == LogLocation(b.header.number, i, j)
  }

  lemma RowOfIs(b: Block, i: nat, j: nat, k: Key)
    requires i < |b.receipts| && j < |b.receipts[i].logs|
    ensures RowOf(b, i, j, k) <==> k in LogRows(b.receipts[i].logs[j], LogLocation(b.header.number, i, j))
  {
    LogRowsExactly(b.receipts[i].logs[j], LogLocation(b.header.number, i, j), k);
  }

  ghost predicate SomeRowOf(b: Block, i: nat, k: Key)
    requires i < |b.receipts|
  {
    exists j :: 0 <= j < |b.receipts[i].logs| && RowOf(b, i, j, k)
  }

  lemma ReceiptRowsExactly(b: Block, i: nat, k: Key)
    requires i < |b.receipts|
    ensures k in ReceiptLogRows(b, i, |b.receipts[i].logs|) <==> IsLog(k) && SomeRowOf(b, i, k)
  {
    hide ReceiptLogRows, RowOf;
    ReceiptLogsExactly(b, i, |b.receipts[i].logs|, k);
  }

  lemma {:induction false} AllLogsExactly(b: Block, n: nat, k: Key)
    requires n <= |b.receipts|
    ensures k in AllLogRows(b, n) <==> IsLog(k) && exists i :: 0 <= i < n && SomeRowOf(b, i, k)
  {
    hide ReceiptLogRows, SomeRowOf;
    if n > 0 {
      AllLogsExactly(b, n - 1, k);
      ReceiptRowsExactly(b, n - 1, k);
    }
  }

  function BlockLogRows(b: Block): Db {
    AllLogRows(b, |b.receipts|)
  }

  /** A block has a row of a given kind, somewhere, exactly when it has such a log. */
  lemma RowIffLog(b: Block, k: Key)
    requires IsLog(k)
    ensures (exists l: Location :: Relocated(k, l) in BlockLogRows(b)) <==>
      (exists log :: HasLog(b, log) && Describes(k, log))
  {
    if l: Location :| Relocated(k, l) in BlockLogRows(b) {
      AllLogsExactly(b, |b.receipts|, Relocated(k, l));
      var i :| 0 <= i < |b.receipts| && SomeRowOf(b, i, Relocated(k, l));
      var j :| 0 <= j < |b.receipts[i].logs| && RowOf(b, i, j, Relocated(k, l));
      assert HasLog(b, b.receipts[i].logs[j]) && Describes(k, b.receipts[i].logs[j]);
    }
    if log :| HasLog(b, log) && Describes(k, log) {
      var i, j :| 0 <= i < |b.receipts| && 0 <= j < |b.receipts[i].logs| && b.receipts[i].logs[j] == log;
      var l := LogLocation(b.header.number, i, j);
      assert RowOf(b, i, j, Relocated(k, l));
      assert SomeRowOf(b, i, Relocated(k, l));
      AllLogsExactly(b, |b.receipts|, Relocated(k, l));
    }
  }

  // ---- The invariant ----

  /** Bodies are filed under their number, at most up to the recorded tip, and the
      log rows are those of the bodies. */
  ghost predicate BodiesSound(db: Db) {
    (forall n: u64 :: BlockAt(n) in db ==> db[BlockAt(n)].BlockRow? && db[BlockAt(n)].block.header.number == n) &&
    (forall n: u64 :: BlockAt(n) in db ==> BestNumber in db && db[BestNumber].CountRow? && n <= db[BestNumber].count)
  }

  ghost predicate LogRowMatches(db: Db, k: Key)
    requires IsLog(k)
  {
    (k in db ==> db[k] == LocationRow(k.location)) &&
    (k in db <==>
      var n := LocationNumber(k.location);
      BlockAt(n) in db && db[BlockAt(n)].BlockRow? && k in BlockLogRows(db[BlockAt(n)].block))
  }

  ghost predicate IndexSound(db: Db) {
    BodiesSound(db) && forall k: Key :: IsLog(k) ==> LogRowMatches(db, k)
  }

  // ---- What each operation does to it ----

  /** Inserting a block at the tip. */
  function Extended(db: Db, b: Block): Db
    requires Storable(b)
  {
    db + Rows(b) + map[BestNumber := CountRow(b.header.number)]
  }

  function LogKeysAt(db: Db, n: u64): set<Key> {
    set k | k in db && IsLog(k) && db[k].LocationRow? && LocationNumber(db[k].location) == n
  }

  /** Dropping one body: its log rows, the body and its transaction rows go, the
      header stays. */
  function Pruned(db: Db, n: u64): Db
    requires BlockAt(n) in db && db[BlockAt(n)].BlockRow?
  {
    db - (LogKeysAt(db, n) + {BlockAt(n)} + HashKeys(db[BlockAt(n)].block))
  }

  datatype ChainOp = Extend(block: Block) | Replace(suffix: Suffix) | Prune(number: u64)

  /** When the node may perform an operation: extensions go above the tip,
      replacements name the bodies they remove and are numbered without gaps. */
  ghost predicate Enabled(db: Db, op: ChainOp) {
    match op
    case Extend(b) =>
      Storable(b) && (BestNumber in db ==> db[BestNumber].CountRow? && db[BestNumber].count < b.header.number)
    case Replace(x) =>
      ValidSuffix(x) &&
      (forall n: u64 :: n >= x.from && BlockAt(n) in db ==>
        db[BlockAt(n)].BlockRow? && db[BlockAt(n)].block in x.removed) &&
      (forall b :: b in x.removed ==> b.header.number >= x.from) &&
      (forall k :: 0 <= k < |x.replacement| ==> x.replacement[k].header.number == x.from + k)
    case Prune(n) => BlockAt(n) in db && db[BlockAt(n)].BlockRow?
  }

  ghost function After(db: Db, op: ChainOp): Db
    requires Enabled(db, op)
  {
    match op
    case Extend(b) => Extended(db, b)
    case Replace(x) => Published(db, x)
    case Prune(n) => Pruned(db, n)
  }

  lemma RowsLogPart(b: Block, k: Key)
    requires Storable(b) && IsLog(k)
    ensures k in Rows(b) <==> k in BlockLogRows(b)
    ensures k in Rows(b) ==> Rows(b)[k] == LocationRow(k.location) && LocationNumber(k.location) == b.header.number
  {
    hide AllLogRows, AllTransactionRows, LocationNumber;
    TransactionRowKeys(b, |b.transactions|, k);
    RowKeys(b, k);
  }

  /** Storing a block at or above the tip keeps the index exact precisely when no
      log row of a body it overwrites is left behind. */
  lemma ExtendSoundExactly(db: Db, b: Block)
    requires IndexSound(db) && Storable(b)
    requires BestNumber in db ==> db[BestNumber].CountRow? && db[BestNumber].count <= b.header.number
    ensures IndexSound(Extended(db, b)) <==>
      (BlockAt(b.header.number) in db ==> BlockLogRows(db[BlockAt(b.header.number)].block).Keys <= BlockLogRows(b).Keys)
  {
    hide Rows, LocationNumber, BlockLogRows;
    var n, after := b.header.number, Extended(db, b);
    forall m: u64 ensures BlockAt(m) in Rows(b) <==> m == n {
      RowKeys(b, BlockAt(m));
    }
    RowKeys(b, BlockAt(n));
    assert after[BlockAt(n)] == BlockRow(b);
    forall k: Key | IsLog(k)
      ensures LogRowMatches(after, k) <==> !(LocationNumber(k.location) == n && k in db && k !in BlockLogRows(b))
    {
      RowsLogPart(b, k);
      assert LogRowMatches(db, k);
    }
    if BlockAt(n) in db {
      forall k | k in BlockLogRows(db[BlockAt(n)].block)
        ensures IsLog(k) && LocationNumber(k.location) == n && k in db
      {
        BlockRowIsLog(db[BlockAt(n)].block, k);
        assert LogRowMatches(db, k);
      }
    }
  }

  lemma ExtendKeepsSound(db: Db, b: Block)
    requires IndexSound(db) && Enabled(db, Extend(b))
    ensures IndexSound(Extended(db, b))
  {
    hide BlockLogRows, Extended;
    ExtendSoundExactly(db, b);
  }

  lemma PruneKeepsSound(db: Db, n: u64)
    requires IndexSound(db) && Enabled(db, Prune(n))
    ensures IndexSound(Pruned(db, n))
  {
    hide LocationNumber, BlockLogRows, HashesOf;
    forall k: Key | IsLog(k) ensures LogRowMatches(Pruned(db, n), k) {
      assert LogRowMatches(db, k);
    }
  }

  /** In a chain with distinct numbers every block's body and log rows survive. */
  lemma {:induction false} RebuildBodies(chain: seq<Block>, from: nat, k: Key)
    requires AllStorable(chain) && forall i :: 0 <= i < |chain| ==> chain[i].header.number == from + i
    ensures forall n: u64 :: BlockAt(n) in Rebuild(chain) <==> from <= n < from + |chain|
    ensures forall n: u64 :: from <= n < from + |chain| ==> Rebuild(chain)[BlockAt(n)] == BlockRow(chain[n - from])
    ensures IsLog(k) ==>
      (k in Rebuild(chain) <==>
        var n := LocationNumber(k.location);
        from <= n < from + |chain| && k in BlockLogRows(chain[n - from]))
  {
    hide Rows, LocationNumber, BlockLogRows, Storable;
    if |chain| > 0 {
      var front, last := chain[..|chain| - 1], chain[|chain| - 1];
      RebuildBodies(front, from, k);
      forall m: u64 ensures BlockAt(m) in Rows(last) <==> m == last.header.number {
        RowKeys(last, BlockAt(m));
      }
      RowKeys(last, BlockAt(last.header.number));
      if IsLog(k) { RowsLogPart(last, k); }
    }
  }

  lemma ReplaceKeepsSound(db: Db, x: Suffix)
    requires IndexSound(db) && Enabled(db, Replace(x))
    ensures IndexSound(Published(db, x))
  {
    hide Rebuild, LocationNumber, BlockLogRows, Storable, SuffixKeys, StateRows;
    var after := Published(db, x);
    RebuildBodies(x.replacement, x.from, BestNumber);
    forall n: u64 ensures BlockAt(n) in after <==> BlockAt(n) in (if n < x.from then db else Rebuild(x.replacement))
      ensures BlockAt(n) in after ==>
        after[BlockAt(n)] == (if n < x.from then db else Rebuild(x.replacement))[BlockAt(n)]
    {
      SuffixKeysAre(x.removed, BlockAt(n));
      PublishedRow(db, x, BlockAt(n));
    }
    PublishedBest(db, x);
    forall k: Key | IsLog(k) ensures LogRowMatches(after, k) {
      assert LogRowMatches(db, k);
      RebuildBodies(x.replacement, x.from, k);
      RebuildKeys(x.replacement, k);
      SuffixKeysAre(x.removed, k);
      PublishedRow(db, x, k);
    }
  }

  lemma PublishedRow(db: Db, x: Suffix, k: Key)
    requires ValidSuffix(x) && IsTable(k)
    ensures k in Published(db, x) <==>
      k in Rebuild(x.replacement) || (k in db && k !in SuffixKeys(x.removed) && k !in LogKeysFrom(db, x.from))
    ensures k in Published(db, x) ==>
      Published(db, x)[k] == if k in Rebuild(x.replacement) then Rebuild(x.replacement)[k] else db[k]
  {
    hide Rebuild, SuffixKeys, LogKeysFrom;
    PublishedTable(db, x, k);
  }

  lemma PublishedBest(db: Db, x: Suffix)
    requires ValidSuffix(x)
    ensures BestNumber in Published(db, x) && Published(db, x)[BestNumber] == CountRow(TipOf(x).number)
  {
    hide Rebuild, SuffixKeys, LogKeysFrom, BalanceRows, NonceRows, CodeRows, SlotRows;
  }

  // ---- Headers ----

  /** Every header row sits under its own number. */
  ghost predicate HeadersFiled(db: Db) {
    forall n: u64 :: HeaderAt(n) in db ==> db[HeaderAt(n)].HeaderRow? && db[HeaderAt(n)].header.number == n
  }

  lemma {:induction false} RebuildHeaders(chain: seq<Block>)
    requires AllStorable(chain)
    ensures HeadersFiled(Rebuild(chain))
  {
    hide Rows, Storable;
    if |chain| > 0 {
      var front, last := chain[..|chain| - 1], chain[|chain| - 1];
      RebuildHeaders(front);
      forall n: u64 ensures HeaderAt(n) in Rows(last) <==> n == last.header.number { RowKeys(last, HeaderAt(n)); }
      RowKeys(last, HeaderAt(last.header.number));
    }
  }

  /** Extending, replacing a suffix and pruning all keep the headers filed. */
  lemma HeadersStayFiled(db: Db, op: ChainOp)
    requires HeadersFiled(db)
    ensures op.Extend? && Storable(op.block) ==> HeadersFiled(Extended(db, op.block))
    ensures op.Replace? && ValidSuffix(op.suffix) ==> HeadersFiled(Published(db, op.suffix))
    ensures op.Prune? && Enabled(db, op) ==> HeadersFiled(Pruned(db, op.number))
  {
    hide Rows, Rebuild, SuffixKeys, LogKeysFrom, StateRows, HashesOf, LocationNumber, Storable;
    match op {
      case Extend(b) =>
        if Storable(b) {
          forall n: u64 ensures HeaderAt(n) in Rows(b) <==> n == b.header.number { RowKeys(b, HeaderAt(n)); }
          RowKeys(b, HeaderAt(b.header.number));
        }
      case Replace(x) =>
        if ValidSuffix(x) {
          RebuildHeaders(x.replacement);
          forall n: u64 | HeaderAt(n) in Published(db, x)
            ensures Published(db, x)[HeaderAt(n)].HeaderRow? && Published(db, x)[HeaderAt(n)].header.number == n
          {
            PublishedRow(db, x, HeaderAt(n));
          }
        }
      case Prune(n) =>
    }
  }

  // ---- Runs ----

  ghost predicate ValidRun(db: Db, ops: seq<ChainOp>)
    decreases |ops|
  {
    |ops| == 0 || (Enabled(db, ops[0]) && ValidRun(After(db, ops[0]), ops[1..]))
  }

  ghost function RunOps(db: Db, ops: seq<ChainOp>): Db
    requires ValidRun(db, ops)
    decreases |ops|
  {
    if |ops| == 0 then db else RunOps(After(db, ops[0]), ops[1..])
  }

  lemma {:induction false} RunKeepsSound(db: Db, ops: seq<ChainOp>)
    requires IndexSound(db) && ValidRun(db, ops)
    ensures IndexSound(RunOps(db, ops))
    decreases |ops|
  {
    hide IndexSound, Enabled, Extended, Published, Pruned;
    if |ops| > 0 {
      match ops[0] {
        case Extend(b) => ExtendKeepsSound(db, b);
        case Replace(x) => ReplaceKeepsSound(db, x);
        case Prune(n) => PruneKeepsSound(db, n);
      }
      RunKeepsSound(After(db, ops[0]), ops[1..]);
    }
  }

  // ---- Queries ----

  /** Addresses take precedence over topics; without either every log counts. */
  datatype Filter = Any | Addresses(addresses: seq<Address>) | Topics(topics: seq<Hash256>)

  predicate Selects(f: Filter, log: LogEntry) {
    match f
    case Any => true
    case Addresses(addresses) => log.address in addresses
    case Topics(topics) => exists t :: t in topics && t in log.topics
  }

  /** The keys a prefix scan visits. */
  predicate Scanned(f: Filter, k: Key) {
    match f
    case Any => "log:index:location:" <= Spell(k)
    case Addresses(addresses) => exists a :: a in addresses && LogAddressPrefix(a) <= Spell(k)
    case Topics(topics) => exists t :: t in topics && LogTopicPrefix(t) <= Spell(k)
  }

  lemma ScannedIs(f: Filter, k: Key)
    ensures Scanned(f, k) <==>
      match f
      case Any => k.LogAt?
      case Addresses(addresses) => k.LogByAddress? && k.address in addresses
      case Topics(topics) => k.LogByTopic? && k.topic in topics
  {
    hide Spell, LogAddressPrefix, LogTopicPrefix;
    match f
    case Any => ScanLocations(k);
    case Addresses(addresses) =>
      forall a ensures LogAddressPrefix(a) <= Spell(k) <==> k.LogByAddress? && k.address == a { ScanAddress(k, a); }
    case Topics(topics) =>
      forall t ensures LogTopicPrefix(t) <= Spell(k) <==> k.LogByTopic? && k.topic == t { ScanTopic(k, t); }
  }

  /** The heights the index reports. */
  function IndexedNumbers(db: Db, f: Filter, from: u64, to: u64): set<u64> {
    set k | k in db && Scanned(f, k) && db[k].LocationRow? && from <= LocationNumber(db[k].location) <= to
      :: LocationNumber(db[k].location)
  }

  ghost predicate RetainedMatch(db: Db, f: Filter, n: u64) {
    BlockAt(n) in db && db[BlockAt(n)].BlockRow? && exists log :: HasLog(db[BlockAt(n)].block, log) && Selects(f, log)
  }

  /** A row of `b` that the filter scans exists exactly when the filter selects one
      of its logs. */
  lemma ScannedRowIffSelected(b: Block, f: Filter)
    ensures (exists k: Key :: k in BlockLogRows(b) && Scanned(f, k)) <==>
      (exists log :: HasLog(b, log) && Selects(f, log))
  {
    hide Scanned, BlockLogRows;
    if k: Key :| k in BlockLogRows(b) && Scanned(f, k) {
      ScannedIs(f, k);
      assert Relocated(k, k.location) in BlockLogRows(b);
      RowIffLog(b, k);
      var log :| HasLog(b, log) && Describes(k, log);
      assert Selects(f, log);
    }
    if log :| HasLog(b, log) && Selects(f, log) {
      var l: Location := ToBe(0, 16);
      var k := match f
        case Any => LogAt(l)
        case Addresses(_) => LogByAddress(log.address, l)
        case Topics(topics) => (var t :| t in topics && t in log.topics; LogByTopic(t, l));
      assert Describes(k, log);
      RowIffLog(b, k);
      var l' :| Relocated(k, l') in BlockLogRows(b);
      ScannedIs(f, Relocated(k, l'));
    }
  }

  /** The index answers as a scan of the retained bodies would. */
  lemma IndexAgreesWithScan(db: Db, f: Filter, from: u64, to: u64, n: u64)
    requires IndexSound(db)
    ensures n in IndexedNumbers(db, f, from, to) <==> from <= n <= to && RetainedMatch(db, f, n)
  {
    hide Scanned, BlockLogRows, LocationNumber, Selects;
    if n in IndexedNumbers(db, f, from, to) {
      var k :| k in db && Scanned(f, k) && db[k].LocationRow? && LocationNumber(db[k].location) == n;
      ScannedIs(f, k);
      assert LogRowMatches(db, k);
      ScannedRowIffSelected(db[BlockAt(n)].block, f);
    }
    if from <= n <= to && RetainedMatch(db, f, n) {
      var b := db[BlockAt(n)].block;
      ScannedRowIffSelected(b, f);
      var k :| k in BlockLogRows(b) && Scanned(f, k);
      BlockRowIsLog(b, k);
      assert LogRowMatches(db, k);
    }
  }

  lemma BlockRowIsLog(b: Block, k: Key)
    requires k in BlockLogRows(b)
    ensures IsLog(k) && LocationNumber(k.location) == b.header.number
  {
    LogRowKeys(b, |b.receipts|, k);
  }

  /** Over every run from an empty database, every query is exact. */
  lemma EveryRunAnswersExactly(ops: seq<ChainOp>, f: Filter, from: u64, to: u64, n: u64)
    requires ValidRun(map[], ops)
    ensures n in IndexedNumbers(RunOps(map[], ops), f, from, to) <==>
      from <= n <= to && RetainedMatch(RunOps(map[], ops), f, n)
  {
    hide BlockLogRows, LocationNumber, IndexedNumbers, RetainedMatch, RunOps, ValidRun;
    RunKeepsSound(map[], ops);
    IndexAgreesWithScan(RunOps(map[], ops), f, from, to, n);
  }
}
