/** Inserting a block and dropping a body as the single row writes they are made of,
    and what a stop between two of them leaves. */
module RowWrites {
  import opened Bytes
  import opened Primitives
  import opened Keys
  import opened ChainTables
  import opened Publication
  import opened BatchBuilder
  import Canonical
  import LogIndex
  import Pruning

  datatype RowWrite = Put(key: Key, value: Value) | Remove(key: Key)

  function ApplyRow(db: Db, w: RowWrite): Db {
    match w
    case Put(k, v) => db[k := v]
    case Remove(k) => db - {k}
  }

  function ApplyRows(db: Db, ws: seq<RowWrite>): Db {
    if |ws| == 0 then db else ApplyRow(ApplyRows(db, ws[..|ws| - 1]), ws[|ws| - 1])
  }

  lemma {:induction false} ApplyConcat(db: Db, ws: seq<RowWrite>, ws': seq<RowWrite>)
    ensures ApplyRows(db, ws + ws') == ApplyRows(ApplyRows(db, ws), ws')
  {
    hide ApplyRow;
    if |ws'| == 0 {
      assert ws + ws' == ws;
    } else {
      var front := ws'[..|ws'| - 1];
      assert (ws + ws')[..|ws + ws'| - 1] == ws + front;
      ApplyConcat(db, ws, front);
    }
  }

  ghost function KeysOf(ws: seq<RowWrite>): set<Key> {
    set w | w in ws :: w.key
  }

  ghost predicate AllPuts(ws: seq<RowWrite>) {
    forall w :: w in ws ==> w.Put?
  }

  ghost predicate AllRemoves(ws: seq<RowWrite>) {
    forall w :: w in ws ==> w.Remove?
  }

  lemma KeysSnoc(ws: seq<RowWrite>)
    requires |ws| > 0
    ensures KeysOf(ws) == KeysOf(ws[..|ws| - 1]) + {ws[|ws| - 1].key}
  {
    assert ws == ws[..|ws| - 1] + [ws[|ws| - 1]];
  }

  /** Puts lay their rows over what is there; removes take their keys away. */
  lemma {:induction false} PutsOverlay(db: Db, ws: seq<RowWrite>)
    requires AllPuts(ws)
    ensures ApplyRows(db, ws) == db + ApplyRows(map[], ws) && ApplyRows(map[], ws).Keys == KeysOf(ws)
  {
    if |ws| > 0 {
      var front, last := ws[..|ws| - 1], ws[|ws| - 1];
      assert ws == front + [last];
      KeysSnoc(ws);
      PutsOverlay(db, front);
      hide KeysOf;
    }
  }

  lemma {:induction false} RemovesTake(db: Db, ws: seq<RowWrite>)
    requires AllRemoves(ws)
    ensures ApplyRows(db, ws) == db - KeysOf(ws)
  {
    if |ws| > 0 {
      var front, last := ws[..|ws| - 1], ws[|ws| - 1];
      assert ws == front + [last];
      KeysSnoc(ws);
      RemovesTake(db, front);
      assert last in ws && last.Remove?;
      hide KeysOf;
      assert (db - KeysOf(front)) - {last.key} == db - (KeysOf(front) + {last.key});
    } else {
      assert KeysOf(ws) == {} && db - {} == db;
    }
  }

  // ---- Inserting a block ----

  function TransactionWrites(b: Block, i: nat): seq<RowWrite>
    requires i < |b.transactions| && Storable(b)
  {
    var t := b.transactions[i];
    var stored := ReceiptRow(StoredReceipt(b.receipts[i], b.header, i, t));
    [Put(TransactionBy(Canonical.TransactionHash(t)), TransactionRow(t))]
      + (if t.externalHash.Some? then [Put(TransactionBy(t.externalHash.value), TransactionRow(t))] else [])
      + [Put(ReceiptBy(Canonical.RpcHash(t)), stored), Put(ReceiptBy(Canonical.TransactionHash(t)), stored)]
  }

  function AllTransactionWrites(b: Block, n: nat): seq<RowWrite>
    requires n <= |b.transactions| && Storable(b)
  {
    if n == 0 then [] else AllTransactionWrites(b, n - 1) + TransactionWrites(b, n - 1)
  }

  function TopicWrites(topics: seq<Hash256>, location: Location): seq<RowWrite> {
    if |topics| == 0 then []
    else
      var last := topics[|topics| - 1];
      TopicWrites(topics[..|topics| - 1], location) + [Put(LogByTopic(last, location), LocationRow(location))]
  }

  function LogWrites(log: LogEntry, location: Location): seq<RowWrite> {
    [Put(LogAt(location), LocationRow(location)), Put(LogByAddress(log.address, location), LocationRow(location))]
      + TopicWrites(log.topics, location)
  }

  function ReceiptLogWrites(b: Block, i: nat, n: nat): seq<RowWrite>
    requires i < |b.receipts| && n <= |b.receipts[i].logs|
  {
    if n == 0 then []
    else ReceiptLogWrites(b, i, n - 1) + LogWrites(b.receipts[i].logs[n - 1], LogLocation(b.header.number, i, n - 1))
  }

  function AllLogWrites(b: Block, n: nat): seq<RowWrite>
    requires n <= |b.receipts|
  {
    if n == 0 then [] else AllLogWrites(b, n - 1) + ReceiptLogWrites(b, n - 1, |b.receipts[n - 1].logs|)
  }

  function TipWrites(b: Block): seq<RowWrite> {
    [Put(HeaderAt(b.header.number), HeaderRow(b.header)), Put(BestNumber, CountRow(b.header.number))]
  }

  /** Body, transactions, logs, header, best number: in that order. */
  function InsertWrites(b: Block): seq<RowWrite>
    requires Storable(b)
  {
    [Put(BlockAt(b.header.number), BlockRow(b))] + AllTransactionWrites(b, |b.transactions|)
      + AllLogWrites(b, |b.receipts|) + TipWrites(b)
  }

  // ---- They are the rows of the block ----

  lemma ApplyTransaction(db: Db, b: Block, i: nat)
    requires Storable(b) && i < |b.transactions|
    ensures ApplyRows(db, TransactionWrites(b, i)) == db + TransactionRows(b, i)
  {
    hide Canonical.TransactionHash, Canonical.RpcHash, ApplyRows, ApplyRow, TransactionRows;
    var t := b.transactions[i];
    var hash, rpc := Canonical.TransactionHash(t), Canonical.RpcHash(t);
    var stored := ReceiptRow(StoredReceipt(b.receipts[i], b.header, i, t));
    var first, third, fourth :=
      Put(TransactionBy(hash), TransactionRow(t)), Put(ReceiptBy(rpc), stored), Put(ReceiptBy(hash), stored);
    if t.externalHash.Some? {
      var second := Put(TransactionBy(t.externalHash.value), TransactionRow(t));
      ApplyConcat(db, [first, second], [third, fourth]);
      ApplyTwo(db, first, second);
      ApplyTwo(ApplyRows(db, [first, second]), third, fourth);
      assert TransactionWrites(b, i) == [first, second] + [third, fourth];
    } else {
      ApplyConcat(db, [first], [third, fourth]);
      ApplyOne(db, first);
      ApplyTwo(ApplyRows(db, [first]), third, fourth);
      assert TransactionWrites(b, i) == [first] + [third, fourth];
    }
    TransactionRowsPut(db, b, i);
  }

  lemma TransactionRowsPut(db: Db, b: Block, i: nat)
    requires Storable(b) && i < |b.transactions|
    ensures var t := b.transactions[i];
      var hash, stored := Canonical.TransactionHash(t), ReceiptRow(StoredReceipt(b.receipts[i], b.header, i, t));
      var first := ApplyRow(db, Put(TransactionBy(hash), TransactionRow(t)));
      var second :=
        if t.externalHash.None? then first
        else ApplyRow(first, Put(TransactionBy(t.externalHash.value), TransactionRow(t)));
      ApplyRow(ApplyRow(second, Put(ReceiptBy(Canonical.RpcHash(t)), stored)), Put(ReceiptBy(hash), stored)) ==
      db + TransactionRows(b, i)
  {
    hide Canonical.TransactionHash, Canonical.RpcHash;
  }

  lemma ApplyOne(db: Db, w: RowWrite)
    ensures ApplyRows(db, [w]) == ApplyRow(db, w)
  {
    assert [w][..0] == [];
  }

  lemma ApplyTwo(db: Db, w: RowWrite, w': RowWrite)
    ensures ApplyRows(db, [w, w']) == ApplyRow(ApplyRow(db, w), w')
  {
    assert [w, w'][..1] == [w];
    ApplyOne(db, w);
  }

  lemma {:induction false} ApplyAllTransactions(db: Db, b: Block, n: nat)
    requires Storable(b) && n <= |b.transactions|
    ensures ApplyRows(db, AllTransactionWrites(b, n)) == db + AllTransactionRows(b, n)
  {
    hide TransactionWrites, TransactionRows;
    if n > 0 {
      ApplyAllTransactions(db, b, n - 1);
      ApplyConcat(db, AllTransactionWrites(b, n - 1), TransactionWrites(b, n - 1));
      ApplyTransaction(db + AllTransactionRows(b, n - 1), b, n - 1);
      PlusAssociates(db, AllTransactionRows(b, n - 1), TransactionRows(b, n - 1));
    }
  }

  lemma {:induction false} ApplyTopics(db: Db, topics: seq<Hash256>, location: Location)
    ensures ApplyRows(db, TopicWrites(topics, location)) == db + TopicRows(topics, location)
  {
    if |topics| > 0 {
      var front, w := topics[..|topics| - 1], Put(LogByTopic(topics[|topics| - 1], location), LocationRow(location));
      ApplyTopics(db, front, location);
      ApplyConcat(db, TopicWrites(front, location), [w]);
      ApplyOne(db + TopicRows(front, location), w);
      PlusAssociates(db, TopicRows(front, location), map[w.key := w.value]);
    }
  }

  lemma ApplyLog(db: Db, log: LogEntry, location: Location)
    ensures ApplyRows(db, LogWrites(log, location)) == db + LogRows(log, location)
  {
    hide TopicWrites, TopicRows;
    var w, w' :=
      Put(LogAt(location), LocationRow(location)), Put(LogByAddress(log.address, location), LocationRow(location));
    ApplyConcat(db, [w, w'], TopicWrites(log.topics, location));
    ApplyTwo(db, w, w');
    ApplyTopics(ApplyRows(db, [w, w']), log.topics, location);
  }

  lemma {:induction false} ApplyReceiptLogs(db: Db, b: Block, i: nat, n: nat)
    requires i < |b.receipts| && n <= |b.receipts[i].logs|
    ensures ApplyRows(db, ReceiptLogWrites(b, i, n)) == db + ReceiptLogRows(b, i, n)
  {
    hide LogWrites, LogRows, LogLocation;
    if n > 0 {
      var log, location := b.receipts[i].logs[n - 1], LogLocation(b.header.number, i, n - 1);
      ApplyReceiptLogs(db, b, i, n - 1);
      ApplyConcat(db, ReceiptLogWrites(b, i, n - 1), LogWrites(log, location));
      ApplyLog(db + ReceiptLogRows(b, i, n - 1), log, location);
      PlusAssociates(db, ReceiptLogRows(b, i, n - 1), LogRows(log, location));
    }
  }

  lemma {:induction false} ApplyAllLogs(db: Db, b: Block, n: nat)
    requires n <= |b.receipts|
    ensures ApplyRows(db, AllLogWrites(b, n)) == db + AllLogRows(b, n)
  {
    hide ReceiptLogWrites, ReceiptLogRows;
    if n > 0 {
      var m := |b.receipts[n - 1].logs|;
      ApplyAllLogs(db, b, n - 1);
      ApplyConcat(db, AllLogWrites(b, n - 1), ReceiptLogWrites(b, n - 1, m));
      ApplyReceiptLogs(db + AllLogRows(b, n - 1), b, n - 1, m);
      PlusAssociates(db, AllLogRows(b, n - 1), ReceiptLogRows(b, n - 1, m));
    }
  }

  /** All the writes together are the extension of the chain by the block. */
  lemma InsertWritesExtend(db: Db, b: Block)
    requires Storable(b)
    ensures ApplyRows(db, InsertWrites(b)) == LogIndex.Extended(db, b)
  {
    hide AllTransactionWrites, AllLogWrites, AllTransactionRows, AllLogRows, ApplyRows, TipWrites, Rows;
    var body := Put(BlockAt(b.header.number), BlockRow(b));
    var ts, ls := AllTransactionWrites(b, |b.transactions|), AllLogWrites(b, |b.receipts|);
    ApplyConcat(db, [body] + ts + ls, TipWrites(b));
    ApplyConcat(db, [body] + ts, ls);
    ApplyConcat(db, [body], ts);
    ApplyOne(db, body);
    ApplyAllTransactions(db[body.key := body.value], b, |b.transactions|);
    ApplyAllLogs(db[body.key := body.value] + AllTransactionRows(b, |b.transactions|), b, |b.receipts|);
    ApplyTip(ApplyRows(db, [body] + ts + ls), b);
    HeaderCommutes(db, b);
  }

  lemma ApplyTip(db: Db, b: Block)
    ensures ApplyRows(db, TipWrites(b)) ==
      db[HeaderAt(b.header.number) := HeaderRow(b.header)] + map[BestNumber := CountRow(b.header.number)]
  {
    ApplyTwo(db, TipWrites(b)[0], TipWrites(b)[1]);
  }

  /** The header row can be written last: no other row of the block has its key. */
  lemma HeaderCommutes(db: Db, b: Block)
    requires Storable(b)
    ensures (db[BlockAt(b.header.number) := BlockRow(b)] +
             AllTransactionRows(b, |b.transactions|) + AllLogRows(b, |b.receipts|))
        [HeaderAt(b.header.number) := HeaderRow(b.header)] == db + Rows(b)
  {
    hide AllTransactionRows, AllLogRows;
    FiledByNumber(b, HeaderAt(b.header.number));
  }

  // ---- What kind of writes they are ----

  /** A put of a row that belongs to the block. */
  predicate OwnWrite(b: Block, w: RowWrite) {
    w.Put? && (HashOf(w.key).Some? || (IsLog(w.key) && w.value == LocationRow(w.key.location)) ||
               w == Put(BlockAt(b.header.number), BlockRow(b)) || w in TipWrites(b))
  }

  ghost predicate AllOwn(b: Block, ws: seq<RowWrite>) {
    forall w :: w in ws ==> OwnWrite(b, w)
  }

  lemma {:induction false} TransactionsOwn(b: Block, n: nat)
    requires Storable(b) && n <= |b.transactions|
    ensures AllOwn(b, AllTransactionWrites(b, n)) && forall w :: w in AllTransactionWrites(b, n) ==> HashOf(w.key).Some?
  {
    hide TransactionWrites;
    if n > 0 {
      TransactionsOwn(b, n - 1);
      TransactionOwn(b, n - 1);
    }
  }

  lemma TransactionOwn(b: Block, i: nat)
    requires Storable(b) && i < |b.transactions|
    ensures forall w :: w in TransactionWrites(b, i) ==> OwnWrite(b, w) && HashOf(w.key).Some?
  {
    hide Canonical.TransactionHash, Canonical.RpcHash;
  }

  lemma {:induction false} TopicsOwn(topics: seq<Hash256>, location: Location)
    ensures forall w :: w in TopicWrites(topics, location) ==>
      w.Put? && IsLog(w.key) && w.value == LocationRow(w.key.location)
  {
    if |topics| > 0 { TopicsOwn(topics[..|topics| - 1], location); }
  }

  lemma {:induction false} ReceiptLogsOwn(b: Block, i: nat, n: nat)
    requires i < |b.receipts| && n <= |b.receipts[i].logs|
    ensures forall w :: w in ReceiptLogWrites(b, i, n) ==>
      w.Put? && IsLog(w.key) && w.value == LocationRow(w.key.location)
  {
    hide LogLocation;
    if n > 0 {
      ReceiptLogsOwn(b, i, n - 1);
      TopicsOwn(b.receipts[i].logs[n - 1].topics, LogLocation(b.header.number, i, n - 1));
    }
  }

  lemma {:induction false} LogsOwn(b: Block, n: nat)
    requires n <= |b.receipts|
    ensures AllOwn(b, AllLogWrites(b, n)) && forall w :: w in AllLogWrites(b, n) ==> IsLog(w.key)
  {
    hide ReceiptLogWrites;
    if n > 0 {
      LogsOwn(b, n - 1);
      ReceiptLogsOwn(b, n - 1, |b.receipts[n - 1].logs|);
    }
  }

  lemma FixedOwn(b: Block)
    ensures OwnWrite(b, Put(BlockAt(b.header.number), BlockRow(b))) && AllOwn(b, TipWrites(b))
  {
  }

  lemma InsertWritesOwn(b: Block)
    requires Storable(b)
    ensures AllOwn(b, InsertWrites(b)) && AllPuts(InsertWrites(b))
    ensures forall w :: w in InsertWrites(b) && IsLog(w.key) ==> w.key in LogIndex.BlockLogRows(b)
  {
    hide OwnWrite, AllTransactionWrites, AllLogWrites, LogIndex.BlockLogRows;
    var ls := AllLogWrites(b, |b.receipts|);
    TransactionsOwn(b, |b.transactions|);
    LogsOwn(b, |b.receipts|);
    FixedOwn(b);
    OwnPuts(b, InsertWrites(b));
    OwnPuts(b, ls);
    LogWriteKeys(b);
    forall w | w in InsertWrites(b) && IsLog(w.key) ensures w.key in LogIndex.BlockLogRows(b) {
      assert w in ls;
    }
  }

  lemma OwnPuts(b: Block, ws: seq<RowWrite>)
    ensures AllOwn(b, ws) ==> AllPuts(ws)
  {
  }

  lemma LogWriteKeys(b: Block)
    ensures forall w :: w in AllLogWrites(b, |b.receipts|) ==> w.key in LogIndex.BlockLogRows(b)
  {
    hide AllLogWrites, AllLogRows, OwnWrite;
    var ls := AllLogWrites(b, |b.receipts|);
    LogsOwn(b, |b.receipts|);
    OwnPuts(b, ls);
    ApplyAllLogs(map[], b, |b.receipts|);
    PutsOverlay(map[], ls);
    assert map[] + AllLogRows(b, |b.receipts|) == AllLogRows(b, |b.receipts|);
  }

  // ---- Stopped while inserting ----

  /** Bodies are filed under their number and the log rows are theirs. */
  ghost predicate IndexExact(db: Db) {
    (forall n: u64 :: BlockAt(n) in db ==> db[BlockAt(n)].BlockRow? && db[BlockAt(n)].block.header.number == n) &&
    forall k: Key :: IsLog(k) ==> LogIndex.LogRowMatches(db, k)
  }

  /** The rows that the first `j` writes of an insertion put. */
  lemma InsertPrefix(db: Db, b: Block, j: nat)
    requires Storable(b) && j <= |InsertWrites(b)|
    ensures var part := ApplyRows(map[], InsertWrites(b)[..j]);
      ApplyRows(db, InsertWrites(b)[..j]) == db + part && part.Keys == KeysOf(InsertWrites(b)[..j])
    ensures forall k: Key :: k in ApplyRows(map[], InsertWrites(b)[..j]) ==>
      OwnWrite(b, Put(k, ApplyRows(map[], InsertWrites(b)[..j])[k]))
    ensures forall k: Key :: k in ApplyRows(map[], InsertWrites(b)[..j]) && IsLog(k) ==> k in LogIndex.BlockLogRows(b)
  {
    hide InsertWrites, OwnWrite, LogIndex.BlockLogRows;
    var ws := InsertWrites(b);
    InsertWritesOwn(b);
    assert forall w :: w in ws[..j] ==> w in ws;
    PutsOverlay(db, ws[..j]);
    RowsAreWrites(ws[..j]);
  }

  lemma {:induction false} RowsAreWrites(ws: seq<RowWrite>)
    requires AllPuts(ws)
    ensures forall k: Key :: k in ApplyRows(map[], ws) ==> Put(k, ApplyRows(map[], ws)[k]) in ws
  {
    if |ws| > 0 {
      var front, last := ws[..|ws| - 1], ws[|ws| - 1];
      assert ws == front + [last];
      RowsAreWrites(front);
    }
  }

  /** Stopped after `j` writes, an insertion at a new height leaves an exact index
      precisely when nothing was written yet or all log rows of the block were. */
  lemma InsertPrefixExact(db: Db, b: Block, j: nat)
    requires IndexExact(db) && Storable(b) && BlockAt(b.header.number) !in db && j <= |InsertWrites(b)|
    ensures IndexExact(ApplyRows(db, InsertWrites(b)[..j])) <==>
      j == 0 || LogIndex.BlockLogRows(b).Keys <= KeysOf(InsertWrites(b)[..j])
  {
    hide InsertWrites, ApplyRows, LogIndex.BlockLogRows, LocationNumber, KeysOf;
    if j == 0 {
      assert InsertWrites(b)[..0] == [];
      NoRows(db);
    } else {
      var part := ApplyRows(map[], InsertWrites(b)[..j]);
      InsertPrefix(db, b, j);
      FirstIsBody(b, j);
      assert OnlyBody(part, b);
      forall k: Key | IsLog(k)
        ensures LogIndex.LogRowMatches(db + part, k) <==> (k in LogIndex.BlockLogRows(b) ==> k in part)
      {
        PrefixLogRow(db, part, b, k);
      }
      forall k | k in LogIndex.BlockLogRows(b) ensures IsLog(k) { LogIndex.BlockRowIsLog(b, k); }
    }
  }

  /** Of bodies, the rows hold the block's own and no other. */
  ghost predicate OnlyBody(part: Db, b: Block) {
    forall n: u64 :: BlockAt(n) in part ==> n == b.header.number && part[BlockAt(n)] == BlockRow(b)
  }

  lemma PrefixLogRow(db: Db, part: Db, b: Block, k: Key)
    requires IndexExact(db) && BlockAt(b.header.number) !in db && IsLog(k)
    requires OnlyBody(part, b) && BlockAt(b.header.number) in part
    requires k in part ==> part[k] == LocationRow(k.location) && k in LogIndex.BlockLogRows(b)
    ensures LogIndex.LogRowMatches(db + part, k) <==> (k in LogIndex.BlockLogRows(b) ==> k in part)
  {
    hide LogIndex.BlockLogRows, LocationNumber;
    OwnLogRow(b, k);
    assert LogIndex.LogRowMatches(db, k);
  }

  lemma NoRows(db: Db)
    ensures ApplyRows(db, []) == db
  {
  }

  lemma FirstIsBody(b: Block, j: nat)
    requires Storable(b) && 0 < j <= |InsertWrites(b)|
    ensures BlockAt(b.header.number) in KeysOf(InsertWrites(b)[..j])
  {
    hide AllTransactionWrites, AllLogWrites;
    assert InsertWrites(b)[..j][0] == Put(BlockAt(b.header.number), BlockRow(b));
  }

  lemma OwnLogRow(b: Block, k: Key)
    requires IsLog(k)
    ensures k in LogIndex.BlockLogRows(b) ==> LocationNumber(k.location) == b.header.number
  {
    hide LogIndex.BlockLogRows, LocationNumber;
    if k in LogIndex.BlockLogRows(b) { LogIndex.BlockRowIsLog(b, k); }
  }

  /** Inserting the block again completes a stopped insertion. */
  lemma InsertResumes(db: Db, b: Block, j: nat)
    requires Storable(b) && j <= |InsertWrites(b)|
    ensures ApplyRows(ApplyRows(db, InsertWrites(b)[..j]), InsertWrites(b)) == LogIndex.Extended(db, b)
  {
    hide InsertWrites, ApplyRows, LogIndex.Extended;
    var ws := InsertWrites(b);
    InsertPrefix(db, b, j);
    assert ws[..|ws|] == ws;
    InsertPrefix(db, b, |ws|);
    InsertPrefix(ApplyRows(db, ws[..j]), b, |ws|);
    assert KeysOf(ws[..j]) <= KeysOf(ws) by { assert forall w :: w in ws[..j] ==> w in ws; }
    var part, whole := ApplyRows(map[], ws[..j]), ApplyRows(map[], ws);
    assert (db + part) + whole == db + whole;
    InsertWritesExtend(db, b);
  }

  /** And the generation verifies until the last write, which moves the tip: from then
      on it does not, until the manifest is refreshed. */
  lemma InsertPrefixVerifies(d: Disk, b: Block, j: nat)
    requires Verify(d).Some? && LogIndex.HeadersFiled(d.db) && Storable(b) && j <= |InsertWrites(b)|
    requires b.header.number > BestHeader(d.db).value.number
    ensures Verify(d.(db := ApplyRows(d.db, InsertWrites(b)[..j]))).Some? <==> j < |InsertWrites(b)|
  {
    hide InsertWrites, ApplyRows, Canonical.HeaderHash, LogIndex.Extended;
    var ws := InsertWrites(b);
    if j == |ws| {
      assert ws[..j] == ws;
      InsertWritesExtend(d.db, b);
      ExtendedBest(d.db, b);
    } else {
      InsertPrefix(d.db, b, j);
      BestIsLast(b, j);
      var after := ApplyRows(d.db, ws[..j]);
      forall n: u64 | n != b.header.number ensures HeaderByNumber(after, n) == HeaderByNumber(d.db, n) {
      }
      assert BestHeader(after) == BestHeader(d.db);
    }
  }

  lemma BestIsLast(b: Block, j: nat)
    requires Storable(b) && j < |InsertWrites(b)|
    ensures BestNumber !in KeysOf(InsertWrites(b)[..j])
  {
    hide AllTransactionWrites, AllLogWrites;
    var ts, ls := AllTransactionWrites(b, |b.transactions|), AllLogWrites(b, |b.receipts|);
    TransactionsOwn(b, |b.transactions|);
    LogsOwn(b, |b.receipts|);
    var front := [Put(BlockAt(b.header.number), BlockRow(b))] + ts + ls + [TipWrites(b)[0]];
    assert InsertWrites(b) == front + [TipWrites(b)[1]];
    assert forall w :: w in InsertWrites(b)[..j] ==> w in front;
  }

  // ---- Dropping a body ----

  function TransactionRemoves(t: Transaction): seq<RowWrite> {
    [Remove(TransactionBy(Canonical.TransactionHash(t))), Remove(TransactionBy(Canonical.RpcHash(t))),
     Remove(ReceiptBy(Canonical.RpcHash(t))), Remove(ReceiptBy(Canonical.TransactionHash(t)))]
  }

  function AllTransactionRemoves(ts: seq<Transaction>): seq<RowWrite> {
    if |ts| == 0 then [] else AllTransactionRemoves(ts[..|ts| - 1]) + TransactionRemoves(ts[|ts| - 1])
  }

  function Removes(keys: seq<Key>): seq<RowWrite> {
    seq(|keys|, i requires 0 <= i < |keys| => Remove(keys[i]))
  }

  /** Log rows first, as the scan meets them, then the body, then its transactions. */
  function PruneWrites(logKeys: seq<Key>, b: Block, n: u64): seq<RowWrite> {
    Removes(logKeys) + [Remove(BlockAt(n))] + AllTransactionRemoves(b.transactions)
  }

  /** The log rows of a height, each once. */
  ghost predicate LogListing(db: Db, n: u64, logKeys: seq<Key>) {
    (forall k :: k in logKeys <==> k in LogIndex.LogKeysAt(db, n)) &&
    forall i, j :: 0 <= i < j < |logKeys| ==> logKeys[i] != logKeys[j]
  }

  lemma {:induction false} TransactionRemoveKeys(b: Block, n: nat)
    requires n <= |b.transactions|
    ensures AllRemoves(AllTransactionRemoves(b.transactions[..n]))
    ensures KeysOf(AllTransactionRemoves(b.transactions[..n])) == FirstKeys(b, n)
  {
    hide FirstKeys, TransactionRemoves, TransactionKeys, KeysOf;
    if n == 0 {
      NoTransactionKeys(b);
      NoKeys();
    } else {
      var last := b.transactions[n - 1];
      assert b.transactions[..n][..n - 1] == b.transactions[..n - 1];
      TransactionRemoveKeys(b, n - 1);
      KeysConcat(AllTransactionRemoves(b.transactions[..n - 1]), TransactionRemoves(last));
      OneRemoveKeys(last);
      KeysOfPrefix(b, n - 1);
    }
  }

  lemma NoKeys()
    ensures KeysOf([]) == {}
  {
  }

  lemma KeysConcat(ws: seq<RowWrite>, ws': seq<RowWrite>)
    ensures KeysOf(ws + ws') == KeysOf(ws) + KeysOf(ws')
  {
  }

  lemma OneRemoveKeys(t: Transaction)
    ensures KeysOf(TransactionRemoves(t)) == TransactionKeys(t) && AllRemoves(TransactionRemoves(t))
  {
    hide Canonical.TransactionHash, Canonical.RpcHash;
    var ws := TransactionRemoves(t);
    assert ws[0] in ws && ws[1] in ws && ws[2] in ws && ws[3] in ws;
  }

  lemma RemoveKeysAreHashKeys(b: Block)
    ensures AllRemoves(AllTransactionRemoves(b.transactions))
    ensures KeysOf(AllTransactionRemoves(b.transactions)) == HashKeys(b)
  {
    hide AllTransactionRemoves, FirstKeys, HashKeys;
    TransactionRemoveKeys(b, |b.transactions|);
    assert b.transactions[..|b.transactions|] == b.transactions;
    NoTransactionKeys(b);
  }

  // ---- Stopped while dropping ----

  lemma PruneWritesRemove(logKeys: seq<Key>, b: Block, n: u64)
    ensures AllRemoves(PruneWrites(logKeys, b, n)) && |PruneWrites(logKeys, b, n)| > |logKeys|
    ensures KeysOf(PruneWrites(logKeys, b, n)) == (set k | k in logKeys) + {BlockAt(n)} + HashKeys(b)
  {
    hide AllTransactionRemoves, HashKeys;
    var logs, ts := Removes(logKeys), AllTransactionRemoves(b.transactions);
    RemoveKeysAreHashKeys(b);
    KeysConcat(logs + [Remove(BlockAt(n))], ts);
    KeysConcat(logs, [Remove(BlockAt(n))]);
    RemoveKeys(logKeys);
    assert KeysOf([Remove(BlockAt(n))]) == {BlockAt(n)} by { assert [Remove(BlockAt(n))][0] in [Remove(BlockAt(n))]; }
  }

  lemma RemoveKeys(keys: seq<Key>)
    ensures KeysOf(Removes(keys)) == (set k | k in keys) && AllRemoves(Removes(keys))
  {
    var ws := Removes(keys);
    forall k | k in keys ensures k in KeysOf(ws) {
      var i :| 0 <= i < |keys| && keys[i] == k;
      assert ws[i] == Remove(k) && ws[i] in ws;
    }
    forall w | w in ws ensures w.Remove? && w.key in keys {
      var i :| 0 <= i < |ws| && ws[i] == w;
      assert w == Remove(keys[i]);
    }
  }

  /** The keys that the first `j` writes remove. */
  lemma PrunePrefix(logKeys: seq<Key>, b: Block, n: u64, j: nat)
    requires j <= |PruneWrites(logKeys, b, n)|
    ensures AllRemoves(PruneWrites(logKeys, b, n)[..j])
    ensures j <= |logKeys| ==> KeysOf(PruneWrites(logKeys, b, n)[..j]) == set k | k in logKeys[..j]
    ensures j > |logKeys| ==> (set k | k in logKeys) + {BlockAt(n)} <= KeysOf(PruneWrites(logKeys, b, n)[..j])
    ensures KeysOf(PruneWrites(logKeys, b, n)[..j]) <= (set k | k in logKeys) + {BlockAt(n)} + HashKeys(b)
  {
    hide AllTransactionRemoves, HashKeys;
    var ws := PruneWrites(logKeys, b, n);
    PruneWritesRemove(logKeys, b, n);
    assert forall w :: w in ws[..j] ==> w in ws;
    if j <= |logKeys| {
      assert ws[..j] == Removes(logKeys[..j]);
      RemoveKeys(logKeys[..j]);
    } else {
      RemoveKeys(logKeys);
      var head := Removes(logKeys) + [Remove(BlockAt(n))];
      assert ws[..j] == head + ws[|head|..j];
      KeysConcat(head, ws[|head|..j]);
      KeysConcat(Removes(logKeys), [Remove(BlockAt(n))]);
      assert KeysOf([Remove(BlockAt(n))]) == {BlockAt(n)} by { assert [Remove(BlockAt(n))][0] in [Remove(BlockAt(n))]; }
    }
  }

  /** Together they drop the body. */
  lemma PruneWritesPrune(db: Db, n: u64, logKeys: seq<Key>)
    requires Pruning.HasBody(db, n) && LogListing(db, n, logKeys)
    ensures ApplyRows(db, PruneWrites(logKeys, db[BlockAt(n)].block, n)) == LogIndex.Pruned(db, n)
  {
    hide AllTransactionRemoves, HashKeys, ApplyRows, LogIndex.LogKeysAt, PruneWrites;
    var b := db[BlockAt(n)].block;
    PruneWritesRemove(logKeys, b, n);
    RemovesTake(db, PruneWrites(logKeys, b, n));
    assert (set k | k in logKeys) == LogIndex.LogKeysAt(db, n);
  }

  /** Stopped after `j` writes, dropping a body leaves an exact index precisely when
      nothing was removed yet or the body itself was. */
  lemma PrunePrefixExact(db: Db, n: u64, logKeys: seq<Key>, j: nat)
    requires IndexExact(db) && Pruning.HasBody(db, n) && LogListing(db, n, logKeys)
    requires j <= |PruneWrites(logKeys, db[BlockAt(n)].block, n)|
    ensures IndexExact(ApplyRows(db, PruneWrites(logKeys, db[BlockAt(n)].block, n)[..j])) <==> j == 0 || j > |logKeys|
  {
    hide ApplyRows, PruneWrites, KeysOf, LogIndex.BlockLogRows, LocationNumber, HashesOf;
    var b := db[BlockAt(n)].block;
    var ws := PruneWrites(logKeys, b, n);
    var after := ApplyRows(db, ws[..j]);
    PrunePrefix(logKeys, b, n, j);
    RemovesTake(db, ws[..j]);
    if j == 0 {
      assert logKeys[..0] == [] && after == db;
    } else if j <= |logKeys| {
      var k := logKeys[0];
      assert k in logKeys && k in logKeys[..j] by { assert logKeys[..j][0] == k; }
      assert LogIndex.LogRowMatches(db, k);
      assert !LogIndex.LogRowMatches(after, k);
    } else {
      forall k: Key | IsLog(k) ensures LogIndex.LogRowMatches(after, k) {
        assert LogIndex.LogRowMatches(db, k);
        assert k in logKeys <==> k in db && LocationNumber(k.location) == n;
      }
    }
  }

  /** Dropping the body again completes what was stopped, exactly while the body is
      still there, or when no transaction or receipt row of it was left anyway. */
  lemma PruneResumes(db: Db, n: u64, logKeys: seq<Key>, j: nat)
    requires Pruning.HasBody(db, n) && LogListing(db, n, logKeys)
    requires j <= |PruneWrites(logKeys, db[BlockAt(n)].block, n)|
    ensures var b := db[BlockAt(n)].block;
      var after := ApplyRows(db, PruneWrites(logKeys, b, n)[..j]);
      Pruning.Step(after, n) == LogIndex.Pruned(db, n) <==> j <= |logKeys| || after.Keys !! HashKeys(b)
  {
    hide ApplyRows, PruneWrites, KeysOf, HashKeys, LocationNumber;
    var b := db[BlockAt(n)].block;
    var after := ApplyRows(db, PruneWrites(logKeys, b, n)[..j]);
    PrunePrefix(logKeys, b, n, j);
    RemovesTake(db, PruneWrites(logKeys, b, n)[..j]);
    HashKeysHold(b);
    if j <= |logKeys| {
      var gone := set k | k in logKeys[..j];
      assert gone <= LogIndex.LogKeysAt(db, n) by { assert forall k :: k in logKeys[..j] ==> k in logKeys; }
      assert LogIndex.LogKeysAt(after, n) == LogIndex.LogKeysAt(db, n) - gone;
    } else {
      assert (set k | k in logKeys) == LogIndex.LogKeysAt(db, n);
      assert BlockAt(n) !in after && Pruning.Step(after, n) == after;
    }
  }

  lemma HashKeysHold(b: Block)
    ensures forall k :: k in HashKeys(b) ==> HashOf(k).Some?
  {
    hide HashesOf;
  }

  // ---- A machine that stops ----

  /** With power for `p` writes exactly the first `p` of them were made. */
  ghost predicate Did(db: Db, p: nat, db': Db, p': nat, ok: bool, ws: seq<RowWrite>) {
    db' == ApplyRows(db, ws[..Min(p, |ws|)]) && p' == (if p >= |ws| then p - |ws| else 0) && (ok <==> p >= |ws|)
  }

  lemma DidNothing(db: Db, p: nat)
    ensures Did(db, p, db, p, true, [])
  {
  }

  lemma DidThen(db: Db, p: nat, db1: Db, p1: nat, db2: Db, p2: nat, ok: bool, ws: seq<RowWrite>, ws': seq<RowWrite>)
    requires Did(db, p, db1, p1, true, ws) && Did(db1, p1, db2, p2, ok, ws')
    ensures Did(db, p, db2, p2, ok, ws + ws')
  {
    hide ApplyRows;
    var done := ws'[..Min(p1, |ws'|)];
    assert ws[..|ws|] == ws;
    ApplyConcat(db, ws, done);
    assert (ws + ws')[..Min(p, |ws + ws'|)] == ws + done;
  }

  lemma DidStop(db: Db, p: nat, db1: Db, p1: nat, ws: seq<RowWrite>, ws': seq<RowWrite>)
    requires Did(db, p, db1, p1, false, ws) && ws <= ws'
    ensures Did(db, p, db1, p1, false, ws')
  {
    hide ApplyRows;
    assert ws'[..p] == ws[..p];
  }

  lemma {:induction false} TransactionsPrefix(b: Block, i: nat, n: nat)
    requires Storable(b) && i <= n <= |b.transactions|
    ensures AllTransactionWrites(b, i) <= AllTransactionWrites(b, n)
  {
    hide TransactionWrites;
    if i < n { TransactionsPrefix(b, i, n - 1); }
  }

  lemma {:induction false} ReceiptLogsPrefix(b: Block, i: nat, j: nat, n: nat)
    requires i < |b.receipts| && j <= n <= |b.receipts[i].logs|
    ensures ReceiptLogWrites(b, i, j) <= ReceiptLogWrites(b, i, n)
  {
    hide LogWrites, LogLocation;
    if j < n { ReceiptLogsPrefix(b, i, j, n - 1); }
  }

  lemma {:induction false} LogsPrefix(b: Block, i: nat, n: nat)
    requires i <= n <= |b.receipts|
    ensures AllLogWrites(b, i) <= AllLogWrites(b, n)
  {
    hide ReceiptLogWrites;
    if i < n { LogsPrefix(b, i, n - 1); }
  }

  lemma {:induction false} RemovesPrefix(ts: seq<Transaction>, i: nat)
    requires i <= |ts|
    ensures AllTransactionRemoves(ts[..i]) <= AllTransactionRemoves(ts)
    decreases |ts|
  {
    hide TransactionRemoves;
    if i < |ts| {
      RemovesPrefix(ts[..|ts| - 1], i);
      assert ts[..|ts| - 1][..i] == ts[..i];
    } else {
      assert ts[..i] == ts;
    }
  }
}
