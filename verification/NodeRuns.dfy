/** A running node: insertions, publications, crashes, restarts and pruning in any
    order, and what holds at every moment of it. */
module NodeRuns {
  import opened Bytes
  import opened Primitives
  import opened Keys
  import opened ChainTables
  import opened Publication
  import Canonical
  import LogIndex
  import Pruning

  // ---- Operations ----

  datatype NodeOp =
    | Insert(block: Block, finalized: u64)
    | Publish(request: Request)
    | PublishCut(request: Request, writes: nat, crashes: seq<nat>)
    | Restart(crashes: seq<nat>)
    | Prune(number: u64)

  /** After an extension the manifest and its record are rewritten for the new tip. */
  function Refreshed(d: Disk, finalized: u64): Disk {
    if d.manifest.None? || BestHeader(d.db).None? then d
    else
      var best := BestHeader(d.db).value;
      var m := d.manifest.value.(status := Active, canonicalHeight := best.number,
        canonicalHash := Canonical.HeaderHash(best), stateRoot := best.stateRoot, finalizedHeight := finalized);
      d.(manifest := Some(m), publication := Some(RecordFor(m)))
  }

  function Inserted(d: Disk, b: Block, finalized: u64): Disk
    requires Storable(b)
  {
    Refreshed(d.(db := LogIndex.Extended(d.db, b)), finalized)
  }

  function Cut(d: Disk, r: Request, writes: nat): Disk
    requires AllStorable(r.replacement)
  {
    Perform(d, Crashed(PublishPlan(d, r).writes, writes))
  }

  function Restarted(d: Disk, crashes: seq<nat>): Disk {
    Settled(Interrupted(d, crashes))
  }

  /** What the node sees to: extensions are of the tip and only when no publication is
      pending, and a publication names a publishable target. */
  ghost predicate Allowed(d: Disk, op: NodeOp) {
    match op
    case Insert(b, _) =>
      Storable(b) && d.journal.None? && BestHeader(d.db).Some? && b.header.number == BestHeader(d.db).value.number + 1
    case Publish(r) => Presentable(r)
    case PublishCut(r, _, _) => Presentable(r)
    case Restart(_) => true
    case Prune(_) => true
  }

  ghost predicate Presentable(r: Request) {
    AllStorable(r.replacement) && Publishable(r.target.status) && r.ancestor.number + 1 + |r.replacement| <= U64_MAX
  }

  ghost function After(d: Disk, op: NodeOp): Disk
    requires Allowed(d, op)
  {
    match op
    case Insert(b, finalized) => Inserted(d, b, finalized)
    case Publish(r) => Perform(d, PublishPlan(d, r).writes)
    case PublishCut(r, writes, crashes) => Restarted(Cut(d, r, writes), crashes)
    case Restart(crashes) => Restarted(d, crashes)
    case Prune(n) => d.(db := Pruning.Step(d.db, n))
  }

  // ---- The invariant ----

  /** The generation verifies, a pending journal is one that recovery can discard, the
      log index is exact and the headers are filed. */
  ghost predicate NodeSound(d: Disk) {
    Verify(d).Some? && LeftoverJournal(d) && LogIndex.IndexSound(d.db) && LogIndex.HeadersFiled(d.db)
  }

  lemma BestIsCount(db: Db)
    requires LogIndex.HeadersFiled(db) && BestHeader(db).Some?
    ensures BestNumber in db && db[BestNumber] == CountRow(BestHeader(db).value.number)
  {
  }

  // ---- Insertion ----

  lemma ExtendedHeaders(db: Db, b: Block, n: u64)
    requires Storable(b)
    ensures HeaderByNumber(LogIndex.Extended(db, b), n) ==
      if n == b.header.number then Some(b.header) else HeaderByNumber(db, n)
  {
    hide Rows;
    RowKeys(b, HeaderAt(n));
  }

  lemma InsertVerifies(d: Disk, b: Block, finalized: u64)
    requires Verify(d).Some? && Storable(b) && b.header.number > BestHeader(d.db).value.number
    ensures Verify(Inserted(d, b, finalized)).Some? && !StalePublication(Inserted(d, b, finalized))
    ensures var m, after := d.manifest.value, Inserted(d, b, finalized);
      after.manifest == Some(Manifest(m.generationId, Active, b.header.number, Canonical.HeaderHash(b.header),
        b.header.stateRoot, m.profileFingerprint, finalized, m.replayCheckpoint)) &&
      after.checkpoint == d.checkpoint && after.journal == d.journal
  {
    hide BestHeader, HeaderByNumber, Canonical.HeaderHash, LogIndex.Extended;
    ExtendedBest(d.db, b);
    var m := d.manifest.value;
    if m.replayCheckpoint.Some? { ExtendedHeaders(d.db, b, m.replayCheckpoint.value); }
    ExtendedHeaders(d.db, b, b.header.number);
  }

  lemma InsertKeeps(d: Disk, b: Block, finalized: u64)
    requires NodeSound(d) && Allowed(d, Insert(b, finalized))
    ensures NodeSound(Inserted(d, b, finalized))
  {
    hide Verify, LogIndex.IndexSound, LogIndex.HeadersFiled, LogIndex.Extended, BestHeader;
    BestIsCount(d.db);
    InsertVerifies(d, b, finalized);
    LogIndex.ExtendKeepsSound(d.db, b);
    LogIndex.HeadersStayFiled(d.db, LogIndex.Extend(b));
  }

  // ---- Pruning ----

  lemma PrunedHeaders(db: Db, n: u64, k: Key)
    requires k.HeaderAt? || k == BestNumber
    ensures k in Pruning.Step(db, n) <==> k in db
    ensures k in db ==> Pruning.Step(db, n)[k] == db[k]
  {
    hide HashesOf, LocationNumber;
  }

  lemma PruneVerifies(d: Disk, n: u64)
    ensures Verify(d.(db := Pruning.Step(d.db, n))) == Verify(d)
  {
    hide Pruning.Step, Canonical.HeaderHash;
    PrunedHeaders(d.db, n, BestNumber);
    forall k: Key | k.HeaderAt?
      ensures (k in Pruning.Step(d.db, n) <==> k in d.db) && (k in d.db ==> Pruning.Step(d.db, n)[k] == d.db[k])
    {
      PrunedHeaders(d.db, n, k);
    }
  }

  lemma PruneKeeps(d: Disk, n: u64)
    requires NodeSound(d)
    ensures NodeSound(d.(db := Pruning.Step(d.db, n)))
  {
    hide Verify, LogIndex.IndexSound, LogIndex.HeadersFiled, LogIndex.Pruned;
    PruneVerifies(d, n);
    if Pruning.HasBody(d.db, n) {
      LogIndex.PruneKeepsSound(d.db, n);
      LogIndex.HeadersStayFiled(d.db, LogIndex.Prune(n));
    }
  }

  // ---- Publication ----

  /** Where the database of a publication ends: as it was, or published. */
  lemma CommittedKeeps(d: Disk, r: Request)
    requires NodeSound(d) && Presentable(r) && PublishPlan(d, r).ok
    ensures var db := Published(d.db, SuffixOf(d.db, r).value); LogIndex.IndexSound(db) && LogIndex.HeadersFiled(db)
  {
    hide Verify, LogIndex.HeadersFiled, Published, SuffixOf, LogIndex.Enabled;
    AcceptedIsEnabled(d, r);
    var x := SuffixOf(d.db, r).value;
    LogIndex.ReplaceKeepsSound(d.db, x);
    LogIndex.HeadersStayFiled(d.db, LogIndex.Replace(x));
  }

  lemma PublishCutKeeps(d: Disk, r: Request, writes: nat, crashes: seq<nat>)
    requires NodeSound(d) && Presentable(r)
    ensures NodeSound(Restarted(Cut(d, r, writes), crashes))
    ensures RecoverPlan(Interrupted(Cut(d, r, writes), crashes)).ok
  {
    hide Verify, LogIndex.IndexSound, LogIndex.HeadersFiled, Published, SuffixOf, PublishPlan, RequestAccepted,
      TipMatches;
    hide Interrupted, Perform, RecoverPlan, Settled;
    FiledTip(d.db);
    CrashSafe(d, r, writes, crashes);
    if PublishPlan(d, r).ok { CommittedKeeps(d, r); }
  }

  lemma RestartKeeps(d: Disk, crashes: seq<nat>)
    requires NodeSound(d)
    ensures NodeSound(Restarted(d, crashes)) && RecoverPlan(Interrupted(d, crashes)).ok
    ensures Restarted(d, crashes).db == d.db && Restarted(d, crashes).journal.None?
  {
    hide Verify, LogIndex.IndexSound, LogIndex.HeadersFiled, TipMatches, Interrupted, RecoverPlan, Settled;
    FiledTip(d.db);
    SettleResting(d);
    InterruptedSettles(d, crashes);
    if d.journal.Some? { VerifyDiscarded(d, d.journal.value.target); }
  }

  lemma PublishKeeps(d: Disk, r: Request)
    requires NodeSound(d) && Presentable(r)
    ensures NodeSound(Perform(d, PublishPlan(d, r).writes))
  {
    hide Verify, LogIndex.IndexSound, LogIndex.HeadersFiled, Published, SuffixOf, RequestAccepted, Perform, Finish;
    PublishPerforms(d, r);
    if RequestAccepted(d, r) { AcceptedTarget(d, r); }
    if PublishPlan(d, r).ok {
      CommittedKeeps(d, r);
      PublishedVerifies(d, r);
    } else if RequestAccepted(d, r) {
      VerifyIgnoresJournal(d, Journal(d.manifest.value, r.target));
    }
  }

  lemma PublishPerforms(d: Disk, r: Request)
    requires AllStorable(r.replacement)
    ensures Perform(d, PublishPlan(d, r).writes) ==
      if PublishPlan(d, r).ok then Done(Published(d.db, SuffixOf(d.db, r).value), r.target)
      else if RequestAccepted(d, r) && d.manifest.Some? then d.(journal := Some(Journal(d.manifest.value, r.target)))
      else d
  {
    hide Published, SuffixOf, RequestAccepted, Finish;
    if RequestAccepted(d, r) { AcceptedTarget(d, r); }
    if PublishPlan(d, r).ok {
      var j, db := Journal(d.manifest.value, r.target), Published(d.db, SuffixOf(d.db, r).value);
      FirstTwoWrites(d, SetJournal(j), Commit(db), Finish(r.target), 6);
      assert Crashed(PublishPlan(d, r).writes, 6) == PublishPlan(d, r).writes &&
        Crashed(Finish(r.target), 4) == Finish(r.target);
      FinishPrefix(d.(journal := Some(j), db := db), r.target, 4);
    } else if RequestAccepted(d, r) {
      OnlyJournal(d, Journal(d.manifest.value, r.target));
    }
  }

  lemma VerifyIgnoresJournal(d: Disk, j: Journal)
    ensures Verify(d.(journal := Some(j))) == Verify(d)
  {
    hide TipMatches, HeaderByNumber, Canonical.HeaderHash;
  }

  // ---- Runs ----

  ghost predicate ValidRun(d: Disk, ops: seq<NodeOp>)
    decreases |ops|
  {
    |ops| == 0 || (Allowed(d, ops[0]) && ValidRun(After(d, ops[0]), ops[1..]))
  }

  ghost function Run(d: Disk, ops: seq<NodeOp>): Disk
    requires ValidRun(d, ops)
    decreases |ops|
  {
    if |ops| == 0 then d else Run(After(d, ops[0]), ops[1..])
  }

  lemma StepKeeps(d: Disk, op: NodeOp)
    requires NodeSound(d) && Allowed(d, op)
    ensures NodeSound(After(d, op))
  {
    hide NodeSound, Inserted, Perform, Restarted, Cut, Pruning.Step, PublishPlan;
    match op
    case Insert(b, finalized) => InsertKeeps(d, b, finalized);
    case Publish(r) => PublishKeeps(d, r);
    case PublishCut(r, writes, crashes) => PublishCutKeeps(d, r, writes, crashes);
    case Restart(crashes) => RestartKeeps(d, crashes);
    case Prune(n) => PruneKeeps(d, n);
  }

  lemma {:induction false} RunKeepsSound(d: Disk, ops: seq<NodeOp>)
    requires NodeSound(d) && ValidRun(d, ops)
    ensures NodeSound(Run(d, ops))
    decreases |ops|
  {
    hide NodeSound, After, Allowed;
    if |ops| > 0 {
      StepKeeps(d, ops[0]);
      RunKeepsSound(After(d, ops[0]), ops[1..]);
    }
  }

  /** At the end of every run the node restarts, however often the restart is
      interrupted, into a generation that verifies with the same database, and every
      log query is answered as a scan of the retained bodies would. */
  lemma EveryRunIsSafe(d: Disk, ops: seq<NodeOp>, crashes: seq<nat>, f: LogIndex.Filter, low: u64, high: u64, n: u64)
    requires NodeSound(d) && ValidRun(d, ops)
    ensures var end := Run(d, ops);
      RecoverPlan(Interrupted(end, crashes)).ok && Restarted(end, crashes).db == end.db &&
      Verify(Restarted(end, crashes)).Some? && Restarted(end, crashes).journal.None? &&
      (n in LogIndex.IndexedNumbers(end.db, f, low, high) <==> low <= n <= high && LogIndex.RetainedMatch(end.db, f, n))
  {
    hide Run, Restarted, Interrupted, RecoverPlan, Verify, LogIndex.IndexedNumbers, LogIndex.RetainedMatch,
      LogIndex.IndexSound;
    RunKeepsSound(d, ops);
    RestartKeeps(Run(d, ops), crashes);
    LogIndex.IndexAgreesWithScan(Run(d, ops).db, f, low, high, n);
  }

  // ---- The chain behind it ----

  /** The chain that an operation leaves, as the node means it. */
  ghost function ChainAfter(d: Disk, chain: seq<Block>, op: NodeOp): seq<Block>
    requires Allowed(d, op)
  {
    match op
    case Insert(b, _) => chain + [b]
    case Publish(r) => if RequestAccepted(d, r) then Replaced(chain, r) else chain
    case PublishCut(r, writes, _) => if RequestAccepted(d, r) && writes >= 2 then Replaced(chain, r) else chain
    case Restart(_) => chain
    case Prune(_) => chain
  }

  ghost function Replaced(chain: seq<Block>, r: Request): seq<Block> {
    if r.ancestor.number < |chain| then chain[..r.ancestor.number + 1] + r.replacement else chain
  }

  /** No pruning, and no transaction that the kept prefix shares with the removed
      suffix is dropped by the replacement. */
  ghost predicate Lossless(d: Disk, chain: seq<Block>, op: NodeOp) {
    match op
    case Insert(_, _) => |chain| < U64_MAX
    case Publish(r) => RequestAccepted(d, r) ==> HashesReturn(chain, r)
    case PublishCut(r, _, _) => RequestAccepted(d, r) ==> HashesReturn(chain, r)
    case Restart(_) => true
    case Prune(_) => false
  }

  ghost predicate HashesReturn(chain: seq<Block>, r: Request) {
    var above := r.ancestor.number + 1;
    above <= |chain| ==> ChainHashes(chain[..above]) * ChainHashes(chain[above..]) <= ChainHashes(r.replacement)
  }

  lemma InsertStores(db: Db, chain: seq<Block>, b: Block)
    requires Stores(db, chain) && Storable(b) && b.header.number == |chain| < U64_MAX
    ensures Stores(LogIndex.Extended(db, b), chain + [b])
  {
    hide Rebuild, Rows, BestHeader;
    assert (chain + [b])[..|chain|] == chain;
    ExtendedBest(db, b);
    var after := LogIndex.Extended(db, b);
    forall k: Key ensures k in Tables(after) <==> k in Tables(db) || k in Rows(b)
      ensures k in Tables(after) ==> Tables(after)[k] == if k in Rows(b) then Rows(b)[k] else Tables(db)[k]
    {
      RowKeys(b, k);
    }
    assert Tables(after) == Tables(db) + Rows(b);
    RebuildSnoc(chain, b);
  }

  lemma RebuildSnoc(chain: seq<Block>, b: Block)
    requires AllStorable(chain) && Storable(b)
    ensures AllStorable(chain + [b]) && Rebuild(chain + [b]) == Rebuild(chain) + Rows(b)
  {
    hide Rows;
    assert (chain + [b])[..|chain|] == chain;
  }

  lemma ChainStepKeeps(d: Disk, chain: seq<Block>, op: NodeOp)
    requires NodeSound(d) && Allowed(d, op) && Stores(d.db, chain) && Lossless(d, chain, op)
    ensures Stores(After(d, op).db, ChainAfter(d, chain, op))
  {
    hide NodeSound, Stores, Inserted, Perform, Restarted, Cut, PublishPlan, RequestAccepted, HashesReturn, Replaced,
      BestHeader;
    match op {
      case Insert(b, finalized) =>
        TipNumber(d.db, chain);
        InsertStores(d.db, chain, b);
        RefreshKeepsRows(d, b, finalized);
      case Publish(r) => PublishStores(d, chain, r);
      case PublishCut(r, writes, crashes) => CutStores(d, chain, r, writes, crashes);
      case Restart(crashes) => RestartKeeps(d, crashes);
    }
  }

  lemma RefreshKeepsRows(d: Disk, b: Block, finalized: u64)
    requires Storable(b)
    ensures Inserted(d, b, finalized).db == LogIndex.Extended(d.db, b)
  {
    hide BestHeader, LogIndex.Extended;
  }

  lemma PublishStores(d: Disk, chain: seq<Block>, r: Request)
    requires NodeSound(d) && Presentable(r) && Stores(d.db, chain) && (RequestAccepted(d, r) ==> HashesReturn(chain, r))
    ensures Stores(Perform(d, PublishPlan(d, r).writes).db, if RequestAccepted(d, r) then Replaced(chain, r) else chain)
  {
    hide Verify, LogIndex.IndexSound, LogIndex.HeadersFiled, Published, SuffixOf, RequestAccepted, Perform, Finish,
      Stores;
    hide RecoverPlan, Settled, LeftoverJournal, PublishPlan, HashesReturn, Replaced;
    PublishPerforms(d, r);
    if RequestAccepted(d, r) {
      AcceptedHasPlan(d, chain, r);
      CutStores(d, chain, r, 6, []);
      PublishThenSettle(d, r, 6);
      assert Interrupted(Cut(d, r, 6), []) == Cut(d, r, 6);
    }
  }

  lemma TipNumber(db: Db, chain: seq<Block>)
    requires Stores(db, chain)
    ensures BestHeader(db).Some? && BestHeader(db).value.number == |chain| - 1
  {
    hide Rebuild, BestHeader;
  }

  lemma {:induction false} RebuildHeaderAt(chain: seq<Block>, n: u64)
    requires AllStorable(chain) && Numbered(chain) && n < |chain|
    ensures HeaderAt(n) in Rebuild(chain) && Rebuild(chain)[HeaderAt(n)] == HeaderRow(chain[n].header)
  {
    hide Rows, Storable;
    var front, last := chain[..|chain| - 1], chain[|chain| - 1];
    RowKeys(last, HeaderAt(n));
    if n < |front| { RebuildHeaderAt(front, n); }
  }

  /** On a node that stores a chain, every contiguous replacement above one of its
      headers, with a target that describes it, is accepted and carried out. */
  lemma PublishSucceeds(d: Disk, chain: seq<Block>, r: Request)
    requires Stores(d.db, chain) && d.manifest.Some? && AllStorable(r.replacement) && |r.replacement| > 0
    requires r.ancestor.number < |chain| && r.ancestor == chain[r.ancestor.number].header
    requires Contiguous(r.ancestor, r.replacement) && HeaderMatches(LastHeader(r.ancestor, r.replacement), r.target)
    requires r.target.replayCheckpoint == Some(LastHeader(r.ancestor, r.replacement).number)
    ensures RequestAccepted(d, r) && PublishPlan(d, r).ok
  {
    hide Rebuild, Contiguous, HeaderMatches, BestHeader, Canonical.HeaderHash, PublishPlan;
    TipNumber(d.db, chain);
    RebuildHeaderAt(chain, r.ancestor.number);
    assert HeaderAt(r.ancestor.number) in Tables(d.db);
    assert HeaderByNumber(d.db, r.ancestor.number) == Some(r.ancestor);
    AcceptedHasPlan(d, chain, r);
  }

  lemma AcceptedHasPlan(d: Disk, chain: seq<Block>, r: Request)
    requires AllStorable(r.replacement) && Stores(d.db, chain) && RequestAccepted(d, r)
    ensures PublishPlan(d, r).ok
  {
    hide Stores, SuffixOf, Published, RequestAccepted, StoresOver, Rebuild;
    AncestorStored(d, chain, r);
    StoresAsOver(d.db, chain, r.ancestor.number);
    SuffixOver(d.db, Rebuild(chain[..r.ancestor.number + 1]), chain[r.ancestor.number + 1..], r);
  }

  lemma CutStores(d: Disk, chain: seq<Block>, r: Request, writes: nat, crashes: seq<nat>)
    requires NodeSound(d) && Presentable(r) && Stores(d.db, chain) && (RequestAccepted(d, r) ==> HashesReturn(chain, r))
    ensures Stores(Restarted(Cut(d, r, writes), crashes).db,
                   if RequestAccepted(d, r) && writes >= 2 then Replaced(chain, r) else chain)
  {
    hide Verify, LogIndex.IndexSound, LogIndex.HeadersFiled, Published, SuffixOf, RequestAccepted, Perform, Stores;
    hide Interrupted, RecoverPlan, Settled, LeftoverJournal, ChainHashes;
    if RequestAccepted(d, r) {
      AncestorStored(d, chain, r);
      PublicationReplacesChain(d, chain, r, writes, crashes);
    } else {
      FiledTip(d.db);
      CrashSafe(d, r, writes, crashes);
    }
  }

  // ---- Whole runs over a chain ----

  ghost predicate LosslessRun(d: Disk, chain: seq<Block>, ops: seq<NodeOp>)
    decreases |ops|
  {
    |ops| == 0 ||
    (Allowed(d, ops[0]) && Lossless(d, chain, ops[0]) &&
     LosslessRun(After(d, ops[0]), ChainAfter(d, chain, ops[0]), ops[1..]))
  }

  ghost function ChainOf(d: Disk, chain: seq<Block>, ops: seq<NodeOp>): seq<Block>
    requires LosslessRun(d, chain, ops)
    decreases |ops|
  {
    if |ops| == 0 then chain else ChainOf(After(d, ops[0]), ChainAfter(d, chain, ops[0]), ops[1..])
  }

  lemma {:induction false} LosslessIsValid(d: Disk, chain: seq<Block>, ops: seq<NodeOp>)
    requires LosslessRun(d, chain, ops)
    ensures ValidRun(d, ops)
    decreases |ops|
  {
    hide After, Allowed, Lossless, ChainAfter;
    if |ops| > 0 { LosslessIsValid(After(d, ops[0]), ChainAfter(d, chain, ops[0]), ops[1..]); }
  }

  /** Through every run of insertions, publications, crashes and restarts the tables
      are those of inserting the node's chain block by block into an empty database. */
  lemma {:induction false} RunStoresChain(d: Disk, chain: seq<Block>, ops: seq<NodeOp>)
    requires NodeSound(d) && Stores(d.db, chain) && LosslessRun(d, chain, ops)
    ensures ValidRun(d, ops) && Stores(Run(d, ops).db, ChainOf(d, chain, ops))
    decreases |ops|
  {
    hide NodeSound, Stores, After, Allowed, Lossless, ChainAfter;
    LosslessIsValid(d, chain, ops);
    if |ops| > 0 {
      StepKeeps(d, ops[0]);
      ChainStepKeeps(d, chain, ops[0]);
      RunStoresChain(After(d, ops[0]), ChainAfter(d, chain, ops[0]), ops[1..]);
    }
  }

  // ---- The beginning ----

  /** A node that just stored its genesis block and wrote its first manifest. */
  function Fresh(genesis: Block, m: Manifest): Disk
    requires Storable(genesis)
  {
    Disk(LogIndex.Extended(map[], genesis), Some(m), None, None, None)
  }

  lemma FreshIsSound(genesis: Block, m: Manifest)
    requires Storable(genesis) && HeaderMatches(genesis.header, m) && m.status.Active? && m.replayCheckpoint.None?
    ensures NodeSound(Fresh(genesis, m))
    ensures genesis.header.number == 0 ==> Stores(Fresh(genesis, m).db, [genesis])
  {
    hide BestHeader, HeaderMatches, Canonical.HeaderHash, LogIndex.Extended, LogIndex.IndexSound, Rebuild;
    ExtendedBest(map[], genesis);
    EmptyIsSound();
    LogIndex.ExtendKeepsSound(map[], genesis);
    LogIndex.HeadersStayFiled(map[], LogIndex.Extend(genesis));
    OneBlockStored(genesis);
  }

  lemma EmptyIsSound()
    ensures LogIndex.IndexSound(map[]) && LogIndex.HeadersFiled(map[])
  {
    hide LogIndex.BlockLogRows, LocationNumber;
  }

  lemma OneBlockStored(b: Block)
    requires Storable(b)
    ensures AllStorable([b]) && Tables(LogIndex.Extended(map[], b)) == Rebuild([b])
  {
    hide Rows;
    assert [b][..0] == [];
    var after := LogIndex.Extended(map[], b);
    forall k: Key ensures k in Tables(after) <==> k in Rows(b)
      ensures k in Tables(after) ==> Tables(after)[k] == Rows(b)[k]
    {
      RowKeys(b, k);
    }
    assert Tables(after) == Rows(b);
    assert Rebuild([b]) == map[] + Rows(b);
  }
}
