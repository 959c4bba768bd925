/** What the rows of a stored chain answer: transactions, receipts and logs. */
module Lookups {
  import opened Bytes
  import opened Primitives
  import opened Keys
  import opened ChainTables
  import opened Publication
  import opened NodeRuns
  import Canonical
  import LogIndex

  // ---- Logs ----

  const MAX_INDEX: nat := 0x1_0000_0000

  /** Receipts and logs that 32-bit indexes can count. */
  ghost predicate Countable(b: Block) {
    |b.receipts| <= MAX_INDEX && forall i :: 0 <= i < |b.receipts| ==> |b.receipts[i].logs| <= MAX_INDEX
  }

  lemma LocationInjective(n: u64, i: nat, j: nat, n': u64, i': nat, j': nat)
    requires i < MAX_INDEX && j < MAX_INDEX && i' < MAX_INDEX && j' < MAX_INDEX
    requires LogLocation(n, i, j) == LogLocation(n', i', j')
    ensures n == n' && i == i' && j == j'
  {
    hide LogLocation, LocationNumber;
    LocationNumberBack(n, i, j);
    LocationNumberBack(n', i', j');
    LocationParts(n, i, j);
    LocationParts(n', i', j');
  }

  /** The log at a position of a block. */
  ghost predicate LogIs(b: Block, i: nat, j: nat, log: LogEntry) {
    i < |b.receipts| && j < |b.receipts[i].logs| && b.receipts[i].logs[j] == log
  }

  /** In a database with an exact index, the rows at a position are those of the log that
      the body has there: the position itself, its address and each of its topics. */
  lemma LogRowsReadBack(db: Db, n: u64, b: Block, i: nat, j: nat)
    requires LogIndex.IndexSound(db) && BlockAt(n) in db && db[BlockAt(n)] == BlockRow(b) && Countable(b)
    requires i < MAX_INDEX && j < MAX_INDEX
    ensures var l := LogLocation(n, i, j);
      (LogAt(l) in db <==> exists log :: LogIs(b, i, j, log)) &&
      (forall a: Address :: LogByAddress(a, l) in db <==> exists log :: LogIs(b, i, j, log) && log.address == a) &&
      (forall t: Hash256 :: LogByTopic(t, l) in db <==> exists log :: LogIs(b, i, j, log) && t in log.topics)
  {
    hide LogLocation, LogIndex.BlockLogRows, Countable, LogIndex.IndexSound;
    var l := LogLocation(n, i, j);
    if i < |b.receipts| && j < |b.receipts[i].logs| { assert LogIs(b, i, j, b.receipts[i].logs[j]); }
    OneLogRow(db, n, b, i, j, LogAt(l));
    forall a: Address ensures LogByAddress(a, l) in db <==> exists log :: LogIs(b, i, j, log) && log.address == a {
      OneLogRow(db, n, b, i, j, LogByAddress(a, l));
    }
    forall t: Hash256 ensures LogByTopic(t, l) in db <==> exists log :: LogIs(b, i, j, log) && t in log.topics {
      OneLogRow(db, n, b, i, j, LogByTopic(t, l));
    }
  }

  lemma OneLogRow(db: Db, n: u64, b: Block, i: nat, j: nat, k: Key)
    requires LogIndex.IndexSound(db) && BlockAt(n) in db && db[BlockAt(n)] == BlockRow(b) && Countable(b)
    requires i < MAX_INDEX && j < MAX_INDEX && IsLog(k) && k.location == LogLocation(n, i, j)
    ensures k in db <==> i < |b.receipts| && j < |b.receipts[i].logs| && LogIndex.Describes(k, b.receipts[i].logs[j])
  {
    hide LogLocation, LocationNumber, AllLogRows, LogIndex.Describes;
    LocationNumberBack(n, i, j);
    assert LogIndex.LogRowMatches(db, k);
    LogIndex.AllLogsExactly(b, |b.receipts|, k);
    assert b.header.number == n;
    if i' :| 0 <= i' < |b.receipts| && LogIndex.SomeRowOf(b, i', k) {
      var j' :| 0 <= j' < |b.receipts[i'].logs| && LogIndex.RowOf(b, i', j', k);
      LocationInjective(n, i, j, n, i', j');
    }
    if i < |b.receipts| && j < |b.receipts[i].logs| && LogIndex.Describes(k, b.receipts[i].logs[j]) {
      assert LogIndex.RowOf(b, i, j, k);
      assert LogIndex.SomeRowOf(b, i, k);
    }
  }

  // ---- Transactions and receipts ----

  /** A transaction goes by its own hash and by the hash it came in with. */
  ghost predicate GoesBy(t: Transaction, h: Hash256) {
    Canonical.TransactionHash(t) == h || t.externalHash == Some(h)
  }

  /** The last of the first `n` transactions of a block that goes by a hash. */
  ghost predicate LastIn(b: Block, n: nat, i: nat, h: Hash256) {
    i < n <= |b.transactions| && GoesBy(b.transactions[i], h) &&
    forall k :: i < k < n ==> !GoesBy(b.transactions[k], h)
  }

  /** The last transaction of a chain that goes by a hash. */
  ghost predicate LastOf(chain: seq<Block>, m: nat, i: nat, h: Hash256) {
    m < |chain| && LastIn(chain[m], |chain[m].transactions|, i, h) &&
    forall k, l :: m < k < |chain| && 0 <= l < |chain[k].transactions| ==> !GoesBy(chain[k].transactions[l], h)
  }

  ghost predicate Known(chain: seq<Block>, h: Hash256) {
    exists m, i :: 0 <= m < |chain| && 0 <= i < |chain[m].transactions| && GoesBy(chain[m].transactions[i], h)
  }

  /** The rows of a hash hold the transaction, and its receipt with the header of its
      block and its place in it. */
  ghost predicate AnswersWith(rows: Db, h: Hash256, b: Block, i: nat)
    requires i < |b.transactions| && i < |b.receipts|
  {
    TransactionBy(h) in rows && rows[TransactionBy(h)] == TransactionRow(b.transactions[i]) &&
    ReceiptBy(h) in rows &&
    rows[ReceiptBy(h)] == ReceiptRow(StoredReceipt(b.receipts[i], b.header, i, b.transactions[i]))
  }

  lemma OneTransactionAnswers(b: Block, i: nat, h: Hash256)
    requires Storable(b) && i < |b.transactions|
    ensures GoesBy(b.transactions[i], h) ==> AnswersWith(TransactionRows(b, i), h, b, i)
    ensures !GoesBy(b.transactions[i], h) ==>
      TransactionBy(h) !in TransactionRows(b, i) && ReceiptBy(h) !in TransactionRows(b, i)
  {
    hide Canonical.TransactionHash;
  }

  lemma {:induction false} BlockAnswers(b: Block, n: nat, i: nat, h: Hash256)
    requires Storable(b) && LastIn(b, n, i, h)
    ensures AnswersWith(AllTransactionRows(b, n), h, b, i)
  {
    hide GoesBy, TransactionRows;
    OneTransactionAnswers(b, n - 1, h);
    if i < n - 1 { BlockAnswers(b, n - 1, i, h); }
  }

  lemma RowsAnswer(b: Block, i: nat, h: Hash256)
    requires Storable(b) && LastIn(b, |b.transactions|, i, h)
    ensures AnswersWith(Rows(b), h, b, i)
  {
    hide AllTransactionRows, AllLogRows, LastIn;
    BlockAnswers(b, |b.transactions|, i, h);
    if TransactionBy(h) in AllLogRows(b, |b.receipts|) { LogRowKeys(b, |b.receipts|, TransactionBy(h)); }
    if ReceiptBy(h) in AllLogRows(b, |b.receipts|) { LogRowKeys(b, |b.receipts|, ReceiptBy(h)); }
  }

  lemma NoRowsFor(b: Block, h: Hash256)
    requires Storable(b) && forall l :: 0 <= l < |b.transactions| ==> !GoesBy(b.transactions[l], h)
    ensures TransactionBy(h) !in Rows(b) && ReceiptBy(h) !in Rows(b)
  {
    hide Rows, HashesOf, Canonical.TransactionHash;
    RowKeys(b, TransactionBy(h));
    RowKeys(b, ReceiptBy(h));
    HashesIndexed(b, TransactionBy(h));
  }

  lemma {:induction false} ChainAnswers(chain: seq<Block>, m: nat, i: nat, h: Hash256)
    requires AllStorable(chain) && LastOf(chain, m, i, h)
    ensures AnswersWith(Rebuild(chain), h, chain[m], i)
  {
    hide Rows, GoesBy, LastIn;
    var front, last := chain[..|chain| - 1], chain[|chain| - 1];
    if m == |front| {
      RowsAnswer(last, i, h);
    } else {
      ChainAnswers(front, m, i, h);
      NoRowsFor(last, h);
    }
  }

  lemma {:induction false} UnknownHasNoRows(chain: seq<Block>, h: Hash256)
    requires AllStorable(chain) && !Known(chain, h)
    ensures TransactionBy(h) !in Rebuild(chain) && ReceiptBy(h) !in Rebuild(chain)
  {
    hide Rows, GoesBy;
    if |chain| > 0 {
      var front, last := chain[..|chain| - 1], chain[|chain| - 1];
      forall l | 0 <= l < |last.transactions| ensures !GoesBy(last.transactions[l], h) {
        assert chain[|chain| - 1].transactions[l] == last.transactions[l];
      }
      assert forall m :: 0 <= m < |front| ==> front[m] == chain[m];
      NoRowsFor(last, h);
      UnknownHasNoRows(front, h);
    }
  }

  /** Through every run, a transaction or receipt asked for by a hash is that of the
      last transaction of the node's chain that goes by it, with the header and the
      position it has there; and an unknown hash finds neither. */
  lemma RunAnswers(d: Disk, chain: seq<Block>, ops: seq<NodeOp>, h: Hash256)
    requires NodeSound(d) && Stores(d.db, chain) && LosslessRun(d, chain, ops)
    ensures ValidRun(d, ops) && AllStorable(ChainOf(d, chain, ops))
    ensures var end, stored := Run(d, ops).db, ChainOf(d, chain, ops);
      (forall m: nat, i: nat :: LastOf(stored, m, i, h) ==>
        i < |stored[m].receipts| && AnswersWith(end, h, stored[m], i)) &&
      (!Known(stored, h) ==> TransactionBy(h) !in end && ReceiptBy(h) !in end)
  {
    hide NodeSound, LosslessRun, ChainOf, Rebuild, LastOf, Known, Run, BestHeader;
    RunStoresChain(d, chain, ops);
    var end, stored := Run(d, ops).db, ChainOf(d, chain, ops);
    assert Tables(end) == Rebuild(stored);
    forall m: nat, i: nat | LastOf(stored, m, i, h)
      ensures m < |stored| && i < |stored[m].transactions| && i < |stored[m].receipts| &&
        AnswersWith(end, h, stored[m], i)
    {
      LastIsThere(stored, m, i, h);
      ChainAnswers(stored, m, i, h);
    }
    if !Known(stored, h) {
      UnknownHasNoRows(stored, h);
      assert TransactionBy(h) !in Tables(end) && ReceiptBy(h) !in Tables(end);
    }
  }

  lemma LastIsThere(chain: seq<Block>, m: nat, i: nat, h: Hash256)
    requires AllStorable(chain) && LastOf(chain, m, i, h)
    ensures m < |chain| && i < |chain[m].transactions| && i < |chain[m].receipts|
  {
    hide GoesBy;
  }
}
