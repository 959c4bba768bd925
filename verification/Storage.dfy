/** The storage node: fields that operations update in place, and durable writes
    that stop working when the machine does. */
module Storage {
  import opened Bytes
  import opened Primitives
  import opened Keys
  import opened ChainTables
  import opened Publication
  import opened BatchBuilder
  import opened RowWrites
  import opened StateReaders
  import Canonical
  import LogIndex
  import Pruning

  /** Checks that blocks follow one another from the ancestor and gives the last header. */
  method CheckContiguous(ancestor: BlockHeader, blocks: seq<Block>) returns (last: Option<BlockHeader>)
    ensures Contiguous(ancestor, blocks) ==> last == Some(LastHeader(ancestor, blocks))
    ensures !Contiguous(ancestor, blocks) ==> last.None?
  {
    hide Canonical.HeaderHash, Follows;
    var parent := ancestor;
    for i := 0 to |blocks|
      invariant parent == if i == 0 then ancestor else blocks[i - 1].header
      invariant forall k :: 0 <= k < i ==> Follows(blocks[k].header, ParentOf(ancestor, blocks, k))
    {
      if !Follows(blocks[i].header, parent) {
        assert parent == ParentOf(ancestor, blocks, i);
        return None;
      }
      assert parent == ParentOf(ancestor, blocks, i);
      parent := blocks[i].header;
    }
    last := Some(parent);
  }

  lemma {:induction false} PerformSnoc(d: Disk, writes: seq<Write>, w: Write)
    ensures Perform(d, writes + [w]) == Do(Perform(d, writes), w)
    decreases |writes|
  {
    if |writes| == 0 {
      assert (writes + [w])[1..] == [];
    } else {
      assert (writes + [w])[1..] == writes[1..] + [w];
      PerformSnoc(Do(d, writes[0]), writes[1..], w);
    }
  }

  lemma CrashedStep(d: Disk, writes: seq<Write>, k: nat)
    requires k < |writes|
    ensures Perform(d, Crashed(writes, k + 1)) == Do(Perform(d, Crashed(writes, k)), writes[k])
  {
    assert writes[..k + 1] == writes[..k] + [writes[k]];
    PerformSnoc(d, writes[..k], writes[k]);
  }

  /** A machine with power for `k` writes completes exactly the first `k`. */
  lemma PowerFails(writes: seq<Write>, k: nat)
    ensures k >= |writes| ==> Crashed(writes, k) == writes
    ensures Crashed(writes, 0) == []
  {
  }

  class SledStorage {
    var db: Db
    var manifest: Option<Manifest>
    var checkpoint: Option<Checkpoint>
    var publication: Option<PublicationRecord>
    var journal: Option<Journal>
    /** How many durable writes still complete before the machine stops. */
    var power: nat

    function OnDisk(): Disk
      reads this
    {
      Disk(db, manifest, checkpoint, publication, journal)
    }

    constructor (d: Disk, power: nat)
      ensures OnDisk() == d && this.power == power
    {
      db, manifest, checkpoint, publication, journal := d.db, d.manifest, d.checkpoint, d.publication, d.journal;
      this.power := power;
    }

    method Write(w: Write) returns (ok: bool)
      modifies this
      ensures ok <==> old(power) > 0
      ensures ok ==> OnDisk() == Do(old(OnDisk()), w) && power == old(power) - 1
      ensures !ok ==> OnDisk() == old(OnDisk()) && power == 0
    {
      if power == 0 {
        return false;
      }
      power := power - 1;
      match w {
        case SetJournal(j) => journal := Some(j);
        case Commit(rows) => db := rows;
        case SetCheckpoint(c) => checkpoint := c;
        case SetManifest(m) => manifest := Some(m);
        case SetPublication(r) => publication := Some(r);
        case ClearJournal => journal := None;
      }
      ok := true;
    }

    /** Brings the derived files in line with a committed target. */
    method Settle(target: Manifest) returns (ok: bool)
      modifies this
      ensures ok <==> old(power) >= 4
      ensures power == if ok then old(power) - 4 else 0
      ensures OnDisk() == Perform(old(OnDisk()), Crashed(Finish(target), old(power)))
    {
      hide Perform, Crashed, Do;
      ghost var d, k, writes := OnDisk(), power, Finish(target);
      CrashedSteps(d, writes, k);
      ok := Write(SetCheckpoint(CheckpointFor(target)));
      if !ok { return; }
      ok := Write(SetManifest(target));
      if !ok { return; }
      ok := Write(SetPublication(RecordFor(target)));
      if !ok { return; }
      ok := Write(ClearJournal);
    }

    /** Completes or discards an interrupted publication when the node opens. */
    method RecoverSuffixPublication() returns (ok: bool)
      modifies this
      ensures power + 4 >= old(power)
      ensures var plan := RecoverPlan(old(OnDisk()));
        OnDisk() == Perform(old(OnDisk()), Crashed(plan.writes, old(power))) &&
        (ok <==> plan.ok && old(power) >= |plan.writes|) && (plan.ok && !ok ==> power == 0)
    {
      hide Perform, TipMatches, Crashed, Do;
      ghost var d := OnDisk();
      PowerFails(RecoverPlan(d).writes, power);
      NothingPerformed(d);
      if journal.None? {
        return true;
      }
      var target, previous := journal.value.target, journal.value.previous;
      if TipMatches(db, target) {
        ok := Settle(target);
      } else if TipMatches(db, previous) {
        OneWrite(d, ClearJournal);
        ok := Write(ClearJournal);
      } else {
        ok := false;
      }
    }

    method PublishCanonicalSuffix(r: Request) returns (ok: bool)
      requires AllStorable(r.replacement)
      modifies this
      ensures var plan := PublishPlan(old(OnDisk()), r);
        OnDisk() == Perform(old(OnDisk()), Crashed(plan.writes, old(power))) &&
        (ok <==> plan.ok && old(power) >= |plan.writes|) && (plan.ok && !ok ==> power == 0)
    {
      hide Perform, BestHeader, Canonical.HeaderHash, Published, SuffixOf, Contiguous, HeaderMatches, Finish;
      ghost var d, plan := OnDisk(), PublishPlan(OnDisk(), r);
      NothingPerformed(d);
      PowerFails(plan.writes, power);
      ok := CheckRequest(r);
      if !ok { return; }
      ghost var j := SetJournal(Journal(manifest.value, r.target));
      OneWrite(d, j);
      ok := Write(SetJournal(Journal(manifest.value, r.target)));
      if !ok { return; }
      var batch := BuildBatch(db, r);
      if batch.None? {
        return false;
      }
      ghost var suffix := SuffixOf(d.db, r).value;
      FirstTwoWrites(d, j, Commit(Published(d.db, suffix)), Finish(r.target), old(power));
      ok := Write(Commit(ApplyBatch(db, batch.value)));
      if !ok { return; }
      ok := Settle(r.target);
    }

    method CheckRequest(r: Request) returns (ok: bool)
      ensures ok <==> RequestAccepted(OnDisk(), r)
    {
      hide Canonical.HeaderHash, Contiguous, HeaderMatches, BestHeader;
      if manifest.None? || BestHeader(db).None? { return false; }
      var canonical := HeaderByNumber(db, r.ancestor.number);
      if r.ancestor.number > BestHeader(db).value.number || canonical.None? { return false; }
      if Canonical.HeaderHash(canonical.value) != Canonical.HeaderHash(r.ancestor) { return false; }
      var last := CheckContiguous(r.ancestor, r.replacement);
      ok := last.Some? && |r.replacement| > 0 && HeaderMatches(last.value, r.target) &&
        r.target.replayCheckpoint == Some(last.value.number);
    }

    method WriteRow(w: RowWrite) returns (ok: bool)
      modifies this`db, this`power
      ensures Did(old(db), old(power), db, power, ok, [w])
    {
      ApplyOne(db, w);
      NoRows(db);
      assert [w][..1] == [w] && [w][..0] == [];
      if power == 0 { return false; }
      power := power - 1;
      match w {
        case Put(k, v) => db := db[k := v];
        case Remove(k) => db := db - {k};
      }
      ok := true;
    }

    method WriteRowsOf(ws: seq<RowWrite>) returns (ok: bool)
      modifies this`db, this`power
      ensures Did(old(db), old(power), db, power, ok, ws)
    {
      hide Did;
      ok := true;
      DidNothing(db, power);
      for i := 0 to |ws|
        invariant ok && Did(old(db), old(power), db, power, true, ws[..i])
      {
        ghost var db0, p0 := db, power;
        ok := WriteRow(ws[i]);
        DidThen(old(db), old(power), db0, p0, db, power, ok, ws[..i], [ws[i]]);
        assert ws[..i] + [ws[i]] == ws[..i + 1];
        if !ok {
          DidStop(old(db), old(power), db, power, ws[..i + 1], ws);
          return;
        }
      }
      assert ws[..|ws|] == ws;
    }

    method InsertTransactions(b: Block) returns (ok: bool)
      requires Storable(b)
      modifies this`db, this`power
      ensures Did(old(db), old(power), db, power, ok, AllTransactionWrites(b, |b.transactions|))
    {
      hide Did, TransactionWrites;
      ok := true;
      DidNothing(db, power);
      for i := 0 to |b.transactions|
        invariant ok && Did(old(db), old(power), db, power, true, AllTransactionWrites(b, i))
      {
        ghost var db0, p0 := db, power;
        ok := WriteRowsOf(TransactionWrites(b, i));
        DidThen(old(db), old(power), db0, p0, db, power, ok, AllTransactionWrites(b, i), TransactionWrites(b, i));
        if !ok {
          TransactionsPrefix(b, i + 1, |b.transactions|);
          DidStop(old(db), old(power), db, power, AllTransactionWrites(b, i + 1),
            AllTransactionWrites(b, |b.transactions|));
          return;
        }
      }
    }

    method InsertReceiptLogs(b: Block, i: nat) returns (ok: bool)
      requires i < |b.receipts|
      modifies this`db, this`power
      ensures Did(old(db), old(power), db, power, ok, ReceiptLogWrites(b, i, |b.receipts[i].logs|))
    {
      hide Did, LogWrites, LogLocation;
      var logs := b.receipts[i].logs;
      ok := true;
      DidNothing(db, power);
      for j := 0 to |logs|
        invariant ok && Did(old(db), old(power), db, power, true, ReceiptLogWrites(b, i, j))
      {
        ghost var db0, p0 := db, power;
        var ws := LogWrites(logs[j], LogLocation(b.header.number, i, j));
        ok := WriteRowsOf(ws);
        DidThen(old(db), old(power), db0, p0, db, power, ok, ReceiptLogWrites(b, i, j), ws);
        if !ok {
          ReceiptLogsPrefix(b, i, j + 1, |logs|);
          DidStop(old(db), old(power), db, power, ReceiptLogWrites(b, i, j + 1), ReceiptLogWrites(b, i, |logs|));
          return;
        }
      }
    }

    method IndexBlockLogs(b: Block) returns (ok: bool)
      modifies this`db, this`power
      ensures Did(old(db), old(power), db, power, ok, AllLogWrites(b, |b.receipts|))
    {
      hide Did, ReceiptLogWrites;
      ok := true;
      DidNothing(db, power);
      for i := 0 to |b.receipts|
        invariant ok && Did(old(db), old(power), db, power, true, AllLogWrites(b, i))
      {
        ghost var db0, p0, ws := db, power, ReceiptLogWrites(b, i, |b.receipts[i].logs|);
        ok := InsertReceiptLogs(b, i);
        DidThen(old(db), old(power), db0, p0, db, power, ok, AllLogWrites(b, i), ws);
        if !ok {
          LogsPrefix(b, i + 1, |b.receipts|);
          DidStop(old(db), old(power), db, power, AllLogWrites(b, i + 1), AllLogWrites(b, |b.receipts|));
          return;
        }
      }
    }

    /** Inserts a block at the tip, row by row. */
    method InsertBlock(b: Block) returns (ok: bool)
      requires Storable(b)
      modifies this`db, this`power
      ensures Did(old(db), old(power), db, power, ok, InsertWrites(b))
      ensures ok ==> db == LogIndex.Extended(old(db), b)
    {
      hide Did, AllTransactionWrites, AllLogWrites, TipWrites, LogIndex.Extended;
      ghost var db0, p0 := db, power;
      ghost var body, ts, ls := [Put(BlockAt(b.header.number), BlockRow(b))],
        AllTransactionWrites(b, |b.transactions|), AllLogWrites(b, |b.receipts|);
      ok := WriteRow(Put(BlockAt(b.header.number), BlockRow(b)));
      if !ok {
        DidStop(db0, p0, db, power, body, InsertWrites(b));
        return;
      }
      ghost var db1, p1 := db, power;
      ok := InsertTransactions(b);
      DidThen(db0, p0, db1, p1, db, power, ok, body, ts);
      if !ok {
        DidStop(db0, p0, db, power, body + ts, InsertWrites(b));
        return;
      }
      ghost var db2, p2 := db, power;
      ok := IndexBlockLogs(b);
      DidThen(db0, p0, db2, p2, db, power, ok, body + ts, ls);
      if !ok {
        DidStop(db0, p0, db, power, body + ts + ls, InsertWrites(b));
        return;
      }
      ghost var db3, p3 := db, power;
      ok := WriteRowsOf(TipWrites(b));
      DidThen(db0, p0, db3, p3, db, power, ok, body + ts + ls, TipWrites(b));
      if ok { AllDone(db0, p0, db, power, b); }
    }

    /** Heights with an indexed log, by address, by topic or at all; fails when a
        scanned row does not hold a location. */
    method IndexedLogBlockNumbers(filter: LogIndex.Filter, low: u64, high: u64) returns (numbers: Option<set<u64>>)
      ensures (forall k :: k in db && LogIndex.Scanned(filter, k) ==> db[k].LocationRow?) ==>
        numbers == Some(LogIndex.IndexedNumbers(db, filter, low, high))
      ensures numbers.Some? ==> forall k :: k in db && LogIndex.Scanned(filter, k) ==> db[k].LocationRow?
    {
      hide LogIndex.Scanned, LocationNumber;
      var found: set<u64> := {};
      var rest := set k | k in db && LogIndex.Scanned(filter, k);
      ghost var all := rest;
      while rest != {}
        invariant rest <= all
        invariant forall k :: k in all - rest ==> db[k].LocationRow?
        invariant found == NumbersIn(db, all - rest, low, high)
        decreases |rest|
      {
        var key :| key in rest;
        if !db[key].LocationRow? { return None; }
        NumbersStep(db, all - rest, key, low, high);
        assert all - (rest - {key}) == (all - rest) + {key};
        var number := LocationNumber(db[key].location);
        if low <= number <= high {
          found := found + {number};
        }
        rest := rest - {key};
      }
      assert all - rest == all;
      NumbersInAll(db, filter, low, high);
      numbers := Some(found);
    }

    /** Native accounts read back from the balance and nonce rows; fails when one of
        them is malformed. */
    method AccountSnapshot() returns (accounts: Option<Accounts>)
      ensures BalancesReadable(db) && NoncesReadable(db) ==> accounts == Some(ChainTables.AccountSnapshot(db))
      ensures accounts.Some? ==> BalancesReadable(db) && NoncesReadable(db)
    {
      hide *;
      accounts := ReadBalances(db);
      if accounts.Some? {
        accounts := ReadNonces(db, accounts.value);
      }
      SnapshotOfRows(db);
    }

    /** The latest snapshot up to a height; fails when a snapshot up to it is malformed. */
    method EvmSnapshotAtOrBefore(number: u64) returns (best: Read<Option<(u64, EvmAccounts)>>)
      ensures best.Malformed? <==>
        exists m: u64 :: m <= number && EvmSnapshot(m) in db && !db[EvmSnapshot(m)].SnapshotRow?
      ensures best.Found? ==> IsLatestSnapshot(db, number, best.value)
    {
      hide Spell;
      var rest := set k | k in db && "state:evm:snapshot:" <= Spell(k);
      forall k | k in db ensures "state:evm:snapshot:" <= Spell(k) <==> k.EvmSnapshot? { ScanSnapshots(k); }
      best := Found(None);
      while rest != {}
        invariant rest <= db.Keys && forall k :: k in rest ==> k.EvmSnapshot?
        invariant best.Found?
        invariant forall m: u64 :: m <= number && EvmSnapshot(m) in db && EvmSnapshot(m) !in rest ==>
          db[EvmSnapshot(m)].SnapshotRow? && best.value.Some? && m <= best.value.value.0
        invariant best.value.Some? ==>
          var (m, accounts) := best.value.value; m <= number && StateReaders.SnapshotAt(db, m) == Found(Some(accounts))
        decreases |rest|
      {
        var key :| key in rest;
        rest := rest - {key};
        if key.number > number { continue; }
        if !db[key].SnapshotRow? {
          assert EvmSnapshot(key.number) == key;
          return Malformed;
        }
        if best.value.None? || key.number > best.value.value.0 {
          best := Found(Some((key.number, db[key].accounts)));
        }
      }
    }

    /** The log rows of one height, as a scan collects them. */
    method LogKeysOf(number: u64) returns (keys: seq<Key>)
      ensures LogListing(db, number, keys)
    {
      hide Spell, LocationNumber, LogIndex.LogKeysAt;
      var rest :=
        set k | k in db && "log:index:" <= Spell(k) && db[k].LocationRow? && LocationNumber(db[k].location) == number;
      ScanFindsHeight(db, number);
      keys := [];
      while rest != {}
        invariant forall k :: k in LogIndex.LogKeysAt(db, number) <==> k in keys || k in rest
        invariant forall k :: k in keys ==> k !in rest
        invariant forall i, j :: 0 <= i < j < |keys| ==> keys[i] != keys[j]
        decreases |rest|
      {
        var key :| key in rest;
        assert forall i :: 0 <= i < |keys| ==> keys[i] in keys && keys[i] != key;
        keys := keys + [key];
        rest := rest - {key};
      }
    }

    method RemoveTransactions(b: Block) returns (ok: bool)
      modifies this`db, this`power
      ensures Did(old(db), old(power), db, power, ok, AllTransactionRemoves(b.transactions))
    {
      hide Did, TransactionRemoves;
      var ts := b.transactions;
      ok := true;
      DidNothing(db, power);
      for i := 0 to |ts|
        invariant ok && Did(old(db), old(power), db, power, true, AllTransactionRemoves(ts[..i]))
      {
        ghost var db0, p0 := db, power;
        ok := WriteRowsOf(TransactionRemoves(ts[i]));
        DidThen(old(db), old(power), db0, p0, db, power, ok, AllTransactionRemoves(ts[..i]), TransactionRemoves(ts[i]));
        assert ts[..i + 1][..i] == ts[..i];
        if !ok {
          RemovesPrefix(ts, i + 1);
          DidStop(old(db), old(power), db, power, AllTransactionRemoves(ts[..i + 1]), AllTransactionRemoves(ts));
          return;
        }
      }
      assert ts[..|ts|] == ts;
    }

    /** Drops one body, row by row; a body that cannot be read is passed over. */
    method PruneBlock(number: u64) returns (ok: bool, ghost logKeys: seq<Key>)
      modifies this`db, this`power
      ensures !Pruning.HasBody(old(db), number) ==> ok && db == old(db) && power == old(power)
      ensures Pruning.HasBody(old(db), number) ==> LogListing(old(db), number, logKeys)
      ensures Pruning.HasBody(old(db), number) ==>
        Did(old(db), old(power), db, power, ok, PruneWrites(logKeys, old(db)[BlockAt(number)].block, number))
      ensures ok ==> db == Pruning.Step(old(db), number)
    {
      hide Did, Removes, AllTransactionRemoves, LogListing, LogIndex.Pruned;
      logKeys := [];
      if BlockAt(number) !in db || !db[BlockAt(number)].BlockRow? { return true, []; }
      var block := db[BlockAt(number)].block;
      var keys := LogKeysOf(number);
      logKeys := keys;
      ghost var db0, p0, ws := db, power, PruneWrites(keys, block, number);
      ghost var logs, ts := Removes(keys), AllTransactionRemoves(block.transactions);
      ok := WriteRowsOf(Removes(keys));
      if !ok {
        DidStop(db0, p0, db, power, logs, ws);
        return;
      }
      ghost var db1, p1 := db, power;
      ok := WriteRow(Remove(BlockAt(number)));
      DidThen(db0, p0, db1, p1, db, power, ok, logs, [Remove(BlockAt(number))]);
      if !ok {
        DidStop(db0, p0, db, power, logs + [Remove(BlockAt(number))], ws);
        return;
      }
      ghost var db2, p2 := db, power;
      ok := RemoveTransactions(block);
      DidThen(db0, p0, db2, p2, db, power, ok, logs + [Remove(BlockAt(number))], ts);
      if ok { BodyDropped(db0, p0, db, power, number, keys); }
    }

    /** Drops bodies above a height, oldest first, until a reading of the disk usage is
        at the target. There is one reading before each of them. */
    method PruneOldBlocks(maxBytes: u64, minimum: u64, usage: nat -> u64)
      returns (ok: bool, ghost numbers: seq<u64>, ghost readings: seq<u64>)
      modifies this`db, this`power
      ensures Pruning.Listing(old(db), minimum, numbers) && |readings| == |numbers|
      ensures forall i :: 0 <= i < |readings| ==> readings[i] == usage(i)
      ensures ok ==> db == Pruning.PrunedTo(old(db), numbers, readings, Pruning.PruneTarget(maxBytes))
      ensures !ok ==> power == 0
    {
      hide Pruning.Step, PruneWrites, LogListing, ApplyRows;
      ok := true;
      var target := Pruning.PruneTarget(maxBytes);
      var heights := Pruning.ListHeights(db, minimum);
      numbers, readings := heights, seq(|heights|, i requires 0 <= i => usage(i));
      for i := 0 to |heights|
        invariant ok && Pruning.PrunedTo(db, numbers[i..], readings[i..], target) ==
          Pruning.PrunedTo(old(db), numbers, readings, target)
      {
        if usage(i) <= target { return; }
        assert numbers[i..][0] == heights[i] && numbers[i..][1..] == numbers[i + 1..];
        assert readings[i..][1..] == readings[i + 1..];
        ghost var logKeys;
        ok, logKeys := PruneBlock(heights[i]);
        if !ok { return; }
      }
    }

    /** The strict check of a generation; repairs the publication record last. The
        machine may stop before that write. */
    method VerifyGenerationManifest() returns (m: Option<Manifest>, alive: bool)
      modifies this
      ensures power + 1 >= old(power)
      ensures alive <==> !(Verify(old(OnDisk())).Some? && StalePublication(old(OnDisk())) && old(power) == 0)
      ensures alive ==> OnDisk() == Repaired(old(OnDisk())) && m == Verify(old(OnDisk()))
      ensures !alive ==> OnDisk() == old(OnDisk()) && power == 0
    {
      hide BestHeader, HeaderByNumber, Canonical.HeaderHash;
      if manifest.None? || !Publishable(manifest.value.status) { return None, true; }
      if !TipMatches(db, manifest.value) { return None, true; }
      if publication.Some? && publication.value.generationId != manifest.value.generationId { return None, true; }
      var stale := publication.Some? && publication.value.manifestChecksum != ManifestChecksum(manifest.value);
      if !CheckpointSound(OnDisk(), manifest.value, BestHeader(db).value) { return None, true; }
      alive := true;
      if stale {
        alive := Write(SetPublication(RecordFor(manifest.value)));
      }
      m := manifest;
    }
  }

  lemma AllDone(db: Db, p: nat, db': Db, p': nat, b: Block)
    requires Storable(b) && Did(db, p, db', p', true, InsertWrites(b))
    ensures db' == LogIndex.Extended(db, b)
  {
    hide ApplyRows, InsertWrites, LogIndex.Extended;
    assert InsertWrites(b)[..|InsertWrites(b)|] == InsertWrites(b);
    InsertWritesExtend(db, b);
  }

  lemma BodyDropped(db: Db, p: nat, db': Db, p': nat, n: u64, logKeys: seq<Key>)
    requires Pruning.HasBody(db, n) && LogListing(db, n, logKeys)
    requires Did(db, p, db', p', true, PruneWrites(logKeys, db[BlockAt(n)].block, n))
    ensures db' == LogIndex.Pruned(db, n)
  {
    hide ApplyRows, PruneWrites, LogIndex.Pruned, LogListing;
    var ws := PruneWrites(logKeys, db[BlockAt(n)].block, n);
    assert ws[..|ws|] == ws;
    PruneWritesPrune(db, n, logKeys);
  }

  lemma ScanFindsHeight(db: Db, number: u64)
    ensures (set k | k in db && "log:index:" <= Spell(k) && db[k].LocationRow? &&
      LocationNumber(db[k].location) == number) ==
      LogIndex.LogKeysAt(db, number)
  {
    hide Spell, LocationNumber;
    forall k | k in db ensures "log:index:" <= Spell(k) <==> IsLog(k) { ScanLogIndex(k); }
  }

  lemma NothingPerformed(d: Disk)
    ensures Perform(d, []) == d
  {
  }

  lemma OneWrite(d: Disk, w: Write)
    ensures Perform(d, [w]) == Do(d, w)
  {
    assert [w][1..] == [];
  }

  lemma CrashedSteps(d: Disk, writes: seq<Write>, k: nat)
    requires |writes| == 4
    ensures Perform(d, Crashed(writes, k)) ==
      if k == 0 then d
      else if k == 1 then Do(d, writes[0])
      else if k == 2 then Do(Do(d, writes[0]), writes[1])
      else if k == 3 then Do(Do(Do(d, writes[0]), writes[1]), writes[2])
      else Do(Do(Do(Do(d, writes[0]), writes[1]), writes[2]), writes[3])
  {
    hide Do, Perform;
    PowerFails(writes, k);
    NothingPerformed(d);
    CrashedStep(d, writes, 0);
    CrashedStep(d, writes, 1);
    CrashedStep(d, writes, 2);
    UnrollFour(d, writes);
  }

  // ---- Scans ----

  function NumbersIn(db: Db, keys: set<Key>, low: u64, high: u64): set<u64> {
    set k | k in keys && k in db && db[k].LocationRow? && low <= LocationNumber(db[k].location) <= high
      :: LocationNumber(db[k].location)
  }

  lemma NumbersStep(db: Db, keys: set<Key>, key: Key, low: u64, high: u64)
    requires key in db && db[key].LocationRow?
    ensures var n := LocationNumber(db[key].location);
      NumbersIn(db, keys + {key}, low, high) == NumbersIn(db, keys, low, high) + (if low <= n <= high then {n} else {})
  {
    hide LocationNumber;
  }

  lemma NumbersInAll(db: Db, filter: LogIndex.Filter, low: u64, high: u64)
    ensures NumbersIn(db, (set k | k in db && LogIndex.Scanned(filter, k)), low, high) ==
      LogIndex.IndexedNumbers(db, filter, low, high)
  {
    hide LocationNumber, LogIndex.Scanned;
  }

  predicate BalancesReadable(db: Db) {
    forall k :: k in db && k.Balance? ==> db[k].AmountRow?
  }

  predicate NoncesReadable(db: Db) {
    forall k :: k in db && k.Nonce? ==> db[k].CountRow?
  }

  function Only(db: Db, keys: set<Key>): Db {
    map k | k in keys && k in db :: db[k]
  }

  lemma OnlyStep(db: Db, keys: set<Key>, key: Key)
    requires key in db
    ensures Only(db, keys + {key}) == Only(db, keys)[key := db[key]]
  {
  }

  function BalanceKeys(db: Db): set<Key> {
    set k | k in db && k.Balance?
  }

  function NonceKeys(db: Db): set<Key> {
    set k | k in db && k.Nonce?
  }

  method ReadBalances(db: Db) returns (accounts: Option<Accounts>)
    ensures BalancesReadable(db) ==> accounts == Some(AccountSnapshot(Only(db, BalanceKeys(db))))
    ensures !BalancesReadable(db) ==> accounts.None?
  {
    hide AccountSnapshot, Spell, Only;
    var keys := set k | k in db && "account:balance:" <= Spell(k);
    ScanFindsAccounts(db);
    var found: Accounts := map[];
    EmptySnapshot(db);
    var rest := keys;
    assert keys - keys == {};
    while rest != {}
      invariant rest <= keys && forall k :: k in keys - rest ==> db[k].AmountRow?
      invariant found == AccountSnapshot(Only(db, keys - rest))
      decreases |rest|
    {
      var key :| key in rest;
      if !db[key].AmountRow? { return None; }
      assert keys - (rest - {key}) == (keys - rest) + {key};
      OnlyStep(db, keys - rest, key);
      BalanceSeen(Only(db, keys - rest), key.address, db[key].amount);
      var nonce := if key.address in found then found[key.address].1 else 0;
      found := found[key.address := (db[key].amount, nonce)];
      rest := rest - {key};
    }
    assert keys - rest == keys;
    accounts := Some(found);
  }

  method ReadNonces(db: Db, balances: Accounts) returns (accounts: Option<Accounts>)
    requires balances == AccountSnapshot(Only(db, BalanceKeys(db)))
    ensures NoncesReadable(db) ==> accounts == Some(AccountSnapshot(Only(db, BalanceKeys(db) + NonceKeys(db))))
    ensures !NoncesReadable(db) ==> accounts.None?
  {
    hide AccountSnapshot, Spell, Only, BalanceKeys;
    var keys := set k | k in db && "account:nonce:" <= Spell(k);
    ScanFindsAccounts(db);
    var found := balances;
    var rest := keys;
    assert BalanceKeys(db) + (keys - keys) == BalanceKeys(db);
    while rest != {}
      invariant rest <= keys && forall k :: k in keys - rest ==> db[k].CountRow?
      invariant found == AccountSnapshot(Only(db, BalanceKeys(db) + (keys - rest)))
      decreases |rest|
    {
      var key :| key in rest;
      if !db[key].CountRow? { return None; }
      ghost var seen := BalanceKeys(db) + (keys - rest);
      assert BalanceKeys(db) + (keys - (rest - {key})) == seen + {key};
      OnlyStep(db, seen, key);
      NonceSeen(Only(db, seen), key.address, db[key].count);
      var balance := if key.address in found then found[key.address].0 else 0;
      found := found[key.address := (balance, db[key].count)];
      rest := rest - {key};
    }
    assert keys - rest == keys;
    accounts := Some(found);
  }

  lemma ScanFindsAccounts(db: Db)
    ensures (set k | k in db && "account:balance:" <= Spell(k)) == set k | k in db && k.Balance?
    ensures (set k | k in db && "account:nonce:" <= Spell(k)) == set k | k in db && k.Nonce?
  {
    hide Spell;
    forall k | k in db
      ensures ("account:balance:" <= Spell(k) <==> k.Balance?) && ("account:nonce:" <= Spell(k) <==> k.Nonce?)
    {
      ScanBalancesAndNonces(k);
    }
  }

  lemma EmptySnapshot(db: Db)
    ensures AccountSnapshot(Only(db, {})) == map[]
  {
  }

  lemma SnapshotAt(db: Db, a: Address)
    ensures a in AccountSnapshot(db) <==> Balance(a) in db || Nonce(a) in db
    ensures a in AccountSnapshot(db) ==>
      AccountSnapshot(db)[a] == (if Balance(a) in db && db[Balance(a)].AmountRow? then db[Balance(a)].amount else 0,
                                 if Nonce(a) in db && db[Nonce(a)].CountRow? then db[Nonce(a)].count else 0)
  {
    assert Balance(a).address == a && Nonce(a).address == a;
  }

  lemma BalanceSeen(db: Db, a: Address, amount: u128)
    ensures var before := AccountSnapshot(db);
      AccountSnapshot(db[Balance(a) := AmountRow(amount)]) ==
        before[a := (amount, if a in before then before[a].1 else 0)]
  {
    hide AccountSnapshot;
    var before, after := AccountSnapshot(db), AccountSnapshot(db[Balance(a) := AmountRow(amount)]);
    SnapshotAt(db, a);
    SnapshotAt(db[Balance(a) := AmountRow(amount)], a);
    forall b: Address | b != a ensures (b in after <==> b in before) && (b in after ==> after[b] == before[b]) {
      SnapshotAt(db, b);
      SnapshotAt(db[Balance(a) := AmountRow(amount)], b);
    }
  }

  lemma NonceSeen(db: Db, a: Address, count: u64)
    ensures var before := AccountSnapshot(db);
      AccountSnapshot(db[Nonce(a) := CountRow(count)]) == before[a := (if a in before then before[a].0 else 0, count)]
  {
    hide AccountSnapshot;
    var before, after := AccountSnapshot(db), AccountSnapshot(db[Nonce(a) := CountRow(count)]);
    SnapshotAt(db, a);
    SnapshotAt(db[Nonce(a) := CountRow(count)], a);
    forall b: Address | b != a ensures (b in after <==> b in before) && (b in after ==> after[b] == before[b]) {
      SnapshotAt(db, b);
      SnapshotAt(db[Nonce(a) := CountRow(count)], b);
    }
  }

  lemma SnapshotOfRows(db: Db)
    ensures AccountSnapshot(Only(db, BalanceKeys(db) + NonceKeys(db))) == AccountSnapshot(db)
  {
    hide AccountSnapshot;
    var rows := Only(db, BalanceKeys(db) + NonceKeys(db));
    var before, after := AccountSnapshot(db), AccountSnapshot(rows);
    forall b: Address ensures (b in after <==> b in before) && (b in after ==> after[b] == before[b]) {
      SnapshotAt(db, b);
      SnapshotAt(rows, b);
    }
  }
}
