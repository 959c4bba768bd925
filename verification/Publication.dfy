/** Publishing a canonical suffix: journal, atomic batch, derived files; and what
    recovery makes of a crash between any two of those writes. */
module Publication {
  import opened Bytes
  import opened Primitives
  import opened Keys
  import opened ChainTables
  import opened StateReaders
  import Canonical
  import LogIndex

  datatype Status = Active | Staging | Verified | Retired | Failed

  datatype Manifest = Manifest(
    generationId: u64, status: Status, canonicalHeight: u64, canonicalHash: Hash256, stateRoot: Hash256,
    profileFingerprint: string, finalizedHeight: u64, replayCheckpoint: Option<u64>)

  datatype Checkpoint = Checkpoint(generationId: u64, height: u64, blockHash: Hash256, stateRoot: Hash256)

  datatype PublicationRecord = PublicationRecord(generationId: u64, manifestChecksum: Hash256)

  datatype Journal = Journal(previous: Manifest, target: Manifest)

  const ManifestChecksum: Manifest -> Hash256

  /** A generation directory: the database and the files beside it. */
  datatype Disk = Disk(
    db: Db, manifest: Option<Manifest>, checkpoint: Option<Checkpoint>, publication: Option<PublicationRecord>,
    journal: Option<Journal>)

  // ---- Reading ----

  function HeaderByNumber(db: Db, n: u64): Option<BlockHeader> {
    if HeaderAt(n) in db && db[HeaderAt(n)].HeaderRow? then Some(db[HeaderAt(n)].header) else None
  }

  function BestHeader(db: Db): Option<BlockHeader> {
    if BestNumber in db && db[BestNumber].CountRow? then HeaderByNumber(db, db[BestNumber].count) else None
  }

  predicate HeaderMatches(h: BlockHeader, m: Manifest) {
    h.number == m.canonicalHeight && Canonical.HeaderHash(h) == m.canonicalHash && h.stateRoot == m.stateRoot
  }

  predicate TipMatches(db: Db, m: Manifest) {
    BestHeader(db).Some? && HeaderMatches(BestHeader(db).value, m)
  }

  predicate Publishable(status: Status) {
    status.Active? || status.Verified?
  }

  predicate CheckpointSound(d: Disk, m: Manifest, best: BlockHeader) {
    match (m.replayCheckpoint, d.checkpoint)
    case (Some(height), Some(c)) =>
      c.generationId == m.generationId && c.height == height && c.height <= best.number &&
      var h := HeaderByNumber(d.db, c.height);
      h.Some? && Canonical.HeaderHash(h.value) == c.blockHash && h.value.stateRoot == c.stateRoot
    case (None, None) => true
    case _ => false
  }

  /** The manifest, if the manifest, the tip, the checkpoint and the publication
      record describe one generation. A stale checksum alone is no objection. */
  function Verify(d: Disk): Option<Manifest> {
    if d.manifest.None? || !Publishable(d.manifest.value.status) || !TipMatches(d.db, d.manifest.value) then None
    else
      var m := d.manifest.value;
      if d.publication.Some? && d.publication.value.generationId != m.generationId then None
      else if !CheckpointSound(d, m, BestHeader(d.db).value) then None
      else Some(m)
  }

  function RecordFor(m: Manifest): PublicationRecord {
    PublicationRecord(m.generationId, ManifestChecksum(m))
  }

  function CheckpointFor(m: Manifest): Option<Checkpoint> {
    match m.replayCheckpoint
    case Some(height) => Some(Checkpoint(m.generationId, height, m.canonicalHash, m.stateRoot))
    case None => None
  }

  predicate StalePublication(d: Disk) {
    d.manifest.Some? && d.publication.Some? &&
    d.publication.value.manifestChecksum != ManifestChecksum(d.manifest.value)
  }

  /** Verification rewrites the publication record of a sound generation whose
      manifest moved on. */
  function Repaired(d: Disk): Disk {
    if Verify(d).Some? && StalePublication(d) then d.(publication := Some(RecordFor(d.manifest.value))) else d
  }

  // ---- Durable writes ----

  datatype Write =
    | SetJournal(journal: Journal)
    | Commit(db: Db)
    | SetCheckpoint(checkpoint: Option<Checkpoint>)
    | SetManifest(manifest: Manifest)
    | SetPublication(record: PublicationRecord)
    | ClearJournal

  function Do(d: Disk, w: Write): Disk {
    match w
    case SetJournal(j) => d.(journal := Some(j))
    case Commit(db) => d.(db := db)
    case SetCheckpoint(c) => d.(checkpoint := c)
    case SetManifest(m) => d.(manifest := Some(m))
    case SetPublication(r) => d.(publication := Some(r))
    case ClearJournal => d.(journal := None)
  }

  /** The first writes of a plan reached the disk, the rest did not. */
  function Perform(d: Disk, writes: seq<Write>): Disk
    decreases |writes|
  {
    if |writes| == 0 then d else Perform(Do(d, writes[0]), writes[1..])
  }

  /** The writes an operation sets out to make and whether it then succeeds. */
  datatype Plan = Plan(writes: seq<Write>, ok: bool)

  function Finish(target: Manifest): (writes: seq<Write>)
    ensures |writes| == 4
  {
    [SetCheckpoint(CheckpointFor(target)), SetManifest(target), SetPublication(RecordFor(target)), ClearJournal]
  }

  function RecoverPlan(d: Disk): Plan {
    if d.journal.None? then Plan([], true)
    else if TipMatches(d.db, d.journal.value.target) then Plan(Finish(d.journal.value.target), true)
    else if TipMatches(d.db, d.journal.value.previous) then Plan([ClearJournal], true)
    else Plan([], false)
  }

  datatype Request = Request(
    ancestor: BlockHeader, replacement: seq<Block>, native: Accounts, evm: EvmAccounts, supply: Supply,
    target: Manifest)

  function NextNumber(n: u64): u64 {
    Min(U64_MAX, n + 1)
  }

  function ParentOf(ancestor: BlockHeader, blocks: seq<Block>, k: nat): BlockHeader
    requires k < |blocks|
  {
    if k == 0 then ancestor else blocks[k - 1].header
  }

  predicate Follows(child: BlockHeader, parent: BlockHeader) {
    child.number == NextNumber(parent.number) && child.parentHash == Canonical.HeaderHash(parent)
  }

  /** Every block names its predecessor by number and hash. */
  predicate Contiguous(ancestor: BlockHeader, blocks: seq<Block>) {
    forall k :: 0 <= k < |blocks| ==> Follows(blocks[k].header, ParentOf(ancestor, blocks, k))
  }

  function LastHeader(ancestor: BlockHeader, blocks: seq<Block>): BlockHeader {
    if |blocks| == 0 then ancestor else blocks[|blocks| - 1].header
  }

  /** The stored bodies of a range of heights, if all are there. */
  function Bodies(db: Db, low: nat, end: nat): Option<seq<Block>>
    requires end <= U64_MAX + 1
    decreases end
  {
    if low >= end then Some([])
    else
      var last: u64 := end - 1;
      if BlockAt(last) !in db || !db[BlockAt(last)].BlockRow? then None
      else
        var front :- Bodies(db, low, last);
        Some(front + [db[BlockAt(last)].block])
  }

  predicate LogRowsReadable(db: Db) {
    forall k :: k in db && IsLog(k) ==> db[k].LocationRow?
  }

  predicate RequestAccepted(d: Disk, r: Request) {
    d.manifest.Some? && BestHeader(d.db).Some? &&
    r.ancestor.number <= BestHeader(d.db).value.number &&
    HeaderByNumber(d.db, r.ancestor.number).Some? &&
    Canonical.HeaderHash(HeaderByNumber(d.db, r.ancestor.number).value) == Canonical.HeaderHash(r.ancestor) &&
    Contiguous(r.ancestor, r.replacement) && |r.replacement| > 0 &&
    HeaderMatches(LastHeader(r.ancestor, r.replacement), r.target) &&
    r.target.replayCheckpoint == Some(LastHeader(r.ancestor, r.replacement).number)
  }

  /** The replacement that the batch carries out, if the bodies to remove are there. */
  function SuffixOf(db: Db, r: Request): (x: Option<Suffix>)
    requires BestHeader(db).Some?
    ensures x.Some? ==> x.value.replacement == r.replacement
  {
    var from := NextNumber(r.ancestor.number);
    var removed :- Bodies(db, from, BestHeader(db).value.number + 1);
    if LogRowsReadable(db) then Some(Suffix(from, removed, r.replacement, r.native, r.evm, r.supply)) else None
  }

  function PublishPlan(d: Disk, r: Request): (plan: Plan)
    requires AllStorable(r.replacement)
    ensures plan.ok ==> RequestAccepted(d, r) && SuffixOf(d.db, r).Some? && ValidSuffix(SuffixOf(d.db, r).value)
  {
    if !RequestAccepted(d, r) then Plan([], false)
    else
      var journal := SetJournal(Journal(d.manifest.value, r.target));
      var suffix := SuffixOf(d.db, r);
      if suffix.None? then Plan([journal], false)
      else Plan([journal, Commit(Published(d.db, suffix.value))] + Finish(r.target), true)
  }

  // ---- Recovery settles, however often it is interrupted ----

  function Settled(d: Disk): Disk {
    Perform(d, RecoverPlan(d).writes)
  }

  function Crashed(writes: seq<Write>, k: nat): seq<Write> {
    writes[..Min(k, |writes|)]
  }

  /** Interrupting recovery anywhere changes neither whether the next attempt
      succeeds nor where it ends: on any disk whatever. */
  lemma RecoveryResumes(d: Disk, k: nat)
    requires RecoverPlan(d).ok
    ensures RecoverPlan(Perform(d, Crashed(RecoverPlan(d).writes, k))).ok
    ensures Settled(Perform(d, Crashed(RecoverPlan(d).writes, k))) == Settled(d)
  {
    hide BestHeader, HeaderMatches;
    var writes := RecoverPlan(d).writes;
    var partial := Crashed(writes, k);
    if d.journal.Some? && TipMatches(d.db, d.journal.value.target) {
      FinishPrefix(d, d.journal.value.target, k);
      FinishPrefix(Perform(d, partial), d.journal.value.target, k);
    } else if |writes| > 0 {
      assert partial == [] || partial == [ClearJournal];
    }
  }

  function Done(db: Db, target: Manifest): Disk {
    Disk(db, Some(target), CheckpointFor(target), Some(RecordFor(target)), None)
  }

  lemma FinishPrefix(d: Disk, target: Manifest, k: nat)
    ensures Perform(d, Finish(target)) == Done(d.db, target)
    ensures var p := Perform(d, Crashed(Finish(target), k));
      p.db == d.db && (if k < 4 then p.journal == d.journal else p == Done(d.db, target))
  {
    var f := Finish(target);
    UnrollFour(d, f);
    if k < 4 {
      var p := f[..k];
      PerformKeeps(d, p);
    } else {
      assert f[..4] == f;
    }
  }

  lemma UnrollFour(d: Disk, f: seq<Write>)
    requires |f| == 4
    ensures Perform(d, f) == Do(Do(Do(Do(d, f[0]), f[1]), f[2]), f[3])
  {
    var d1 := Do(d, f[0]);
    var d2 := Do(d1, f[1]);
    var d3 := Do(d2, f[2]);
    assert Perform(d, f) == Perform(d1, f[1..]);
    assert f[1..][1..] == f[2..] && f[2..][1..] == f[3..] && f[3..][1..] == f[4..];
    assert Perform(d1, f[1..]) == Perform(d2, f[2..]) == Perform(d3, f[3..]) == Perform(Do(d3, f[3]), f[4..]);
  }

  /** Writes to the derived files touch neither the database nor the journal. */
  lemma {:induction false} PerformKeeps(d: Disk, writes: seq<Write>)
    requires forall w :: w in writes ==> w.SetCheckpoint? || w.SetManifest? || w.SetPublication?
    ensures Perform(d, writes).db == d.db && Perform(d, writes).journal == d.journal
    decreases |writes|
  {
    if |writes| > 0 {
      assert writes[0] in writes;
      PerformKeeps(Do(d, writes[0]), writes[1..]);
    }
  }

  /** Any number of interrupted recoveries, one after the other. */
  function Interrupted(d: Disk, crashes: seq<nat>): Disk
    decreases |crashes|
  {
    if |crashes| == 0 then d
    else Interrupted(Perform(d, Crashed(RecoverPlan(d).writes, crashes[0])), crashes[1..])
  }

  lemma {:induction false} InterruptedSettles(d: Disk, crashes: seq<nat>)
    requires RecoverPlan(d).ok
    ensures RecoverPlan(Interrupted(d, crashes)).ok
    ensures Settled(Interrupted(d, crashes)) == Settled(d)
    decreases |crashes|
  {
    hide RecoverPlan, Settled;
    if |crashes| > 0 {
      RecoveryResumes(d, crashes[0]);
      InterruptedSettles(Perform(d, Crashed(RecoverPlan(d).writes, crashes[0])), crashes[1..]);
    }
  }

  // ---- Crash anywhere in a publication ----

  lemma PublishedTip(db: Db, r: Request, x: Suffix)
    requires BestHeader(db).Some? && |r.replacement| > 0 && AllStorable(r.replacement) && SuffixOf(db, r) == Some(x)
    ensures var tip := LastHeader(r.ancestor, r.replacement);
      TipOf(x) == tip && BestHeader(Published(db, x)) == Some(tip) &&
        HeaderByNumber(Published(db, x), tip.number) == Some(tip)
  {
    hide Published, Rows, Bodies, LogRowsReadable;
    var last := r.replacement[|r.replacement| - 1];
    assert x.replacement == r.replacement;
    LogIndex.PublishedBest(db, x);
    LogIndex.PublishedRow(db, x, HeaderAt(last.header.number));
    RowKeys(last, HeaderAt(last.header.number));
  }

  /** The tip header is filed under its own number, as every stored header is. */
  ghost predicate TipFiled(db: Db) {
    BestHeader(db).Some? ==> HeaderByNumber(db, BestHeader(db).value.number) == BestHeader(db)
  }

  lemma VerifyDone(db: Db, target: Manifest)
    requires TipMatches(db, target) && TipFiled(db) && Publishable(target.status)
    requires target.replayCheckpoint == Some(target.canonicalHeight)
    ensures Verify(Done(db, target)) == Some(target) && !StalePublication(Done(db, target))
  {
    hide BestHeader, HeaderByNumber, Canonical.HeaderHash;
  }

  /** A journal left by an earlier publication that failed: it starts from the
      manifest that is still in force. */
  ghost predicate LeftoverJournal(d: Disk) {
    d.journal.Some? ==>
      d.manifest == Some(d.journal.value.previous) && Publishable(d.journal.value.target.status) &&
      d.journal.value.target.replayCheckpoint == Some(d.journal.value.target.canonicalHeight)
  }

  /** What is on disk after `k` writes of a publication, a crash and recovery. */
  ghost function Outcome(d: Disk, r: Request, k: nat): Disk
    requires AllStorable(r.replacement)
  {
    if PublishPlan(d, r).ok && k >= 2 then Done(Published(d.db, SuffixOf(d.db, r).value), r.target)
    else if RequestAccepted(d, r) && k >= 1 then Discarded(d, r.target)
    else if d.journal.Some? then Discarded(d, d.journal.value.target)
    else d
  }

  /** The tables as they were: with the old files, or with those of the target when
      the stored tip is the target's already. */
  ghost function Discarded(d: Disk, target: Manifest): Disk {
    if TipMatches(d.db, target) then Done(d.db, target) else d.(journal := None)
  }

  lemma FirstTwoWrites(d: Disk, a: Write, b: Write, rest: seq<Write>, k: nat)
    ensures k >= 2 ==> Perform(d, Crashed([a, b] + rest, k)) == Perform(Do(Do(d, a), b), Crashed(rest, k - 2))
    ensures k == 1 ==> Perform(d, Crashed([a, b] + rest, k)) == Do(d, a)
    ensures k == 0 ==> Perform(d, Crashed([a, b] + rest, k)) == d
  {
    var ws := Crashed([a, b] + rest, k);
    if k >= 2 {
      assert ws == [a, b] + Crashed(rest, k - 2);
      assert ws[1..] == [b] + Crashed(rest, k - 2) && ws[1..][1..] == Crashed(rest, k - 2);
      assert Perform(d, ws) == Perform(Do(d, a), ws[1..]) == Perform(Do(Do(d, a), b), ws[1..][1..]);
    } else if k == 1 {
      assert ws == [a] && ws[1..] == [];
    }
  }

  /** Recovery with only the journal written. */
  lemma SettleBegun(d: Disk, j: Journal)
    requires TipMatches(d.db, j.previous)
    ensures var begun := d.(journal := Some(j)); RecoverPlan(begun).ok && Settled(begun) == Discarded(d, j.target)
  {
    hide TipMatches, Finish;
    var begun := d.(journal := Some(j));
    FinishPrefix(begun, j.target, 4);
    ClearOnly(begun);
  }

  /** Recovery with the batch committed and some of the files rewritten. */
  lemma SettleCommitted(d: Disk, j: Journal, k: nat)
    requires d.journal == Some(j) && TipMatches(d.db, j.target)
    ensures var partial := Perform(d, Crashed(Finish(j.target), k));
      RecoverPlan(partial).ok && Settled(partial) == Done(d.db, j.target)
  {
    hide TipMatches, Finish, Perform;
    var partial := Perform(d, Crashed(Finish(j.target), k));
    FinishPrefix(d, j.target, k);
    FinishPrefix(partial, j.target, 4);
    if k >= 4 { NothingToDo(partial); }
  }

  lemma NothingToDo(d: Disk)
    requires d.journal.None?
    ensures RecoverPlan(d).ok && Settled(d) == d
  {
  }

  lemma VerifiedTip(d: Disk)
    requires Verify(d).Some?
    ensures d.manifest.Some? && TipMatches(d.db, d.manifest.value)
  {
  }

  /** Recovery of a verified generation, with or without a leftover journal. */
  lemma SettleResting(d: Disk)
    requires Verify(d).Some? && LeftoverJournal(d)
    ensures RecoverPlan(d).ok
    ensures Settled(d) == if d.journal.Some? then Discarded(d, d.journal.value.target) else d
  {
    hide RecoverPlan, Settled, Verify, TipMatches;
    VerifiedTip(d);
    if d.journal.Some? {
      SettleBegun(d, d.journal.value);
      assert d.(journal := Some(d.journal.value)) == d;
    } else {
      NothingToDo(d);
    }
  }

  /** Where recovery goes from a publication that stopped after `k` writes. */
  lemma PublishThenSettle(d: Disk, r: Request, k: nat)
    requires AllStorable(r.replacement) && Verify(d).Some? && LeftoverJournal(d)
    ensures var crashed := Perform(d, Crashed(PublishPlan(d, r).writes, k));
      RecoverPlan(crashed).ok && Settled(crashed) == Outcome(d, r, k)
  {
    hide Published, SuffixOf, TipMatches, Finish, RecoverPlan, Settled, RequestAccepted, Verify, Perform,
      LeftoverJournal;
    hide Discarded;
    var plan := PublishPlan(d, r);
    VerifiedTip(d);
    SettleResting(d);
    if !RequestAccepted(d, r) {
      NoWrites(d, k);
    } else {
      var j := Journal(d.manifest.value, r.target);
      SettleBegun(d, j);
      if plan.ok {
        var db := Published(d.db, SuffixOf(d.db, r).value);
        FirstTwoWrites(d, SetJournal(j), Commit(db), Finish(r.target), k);
        if k >= 2 {
          AcceptedTarget(d, r);
          CommittedTip(d, r);
          SettleCommitted(d.(journal := Some(j), db := db), j, k - 2);
        }
      } else {
        FirstTwoWrites(d, SetJournal(j), SetJournal(j), [], Min(k, 1));
        assert Crashed(plan.writes, k) == Crashed([SetJournal(j), SetJournal(j)] + [], Min(k, 1));
      }
    }
  }

  lemma NoWrites(d: Disk, k: nat)
    ensures Perform(d, Crashed([], k)) == d
  {
  }

  lemma CommittedTip(d: Disk, r: Request)
    requires AllStorable(r.replacement) && PublishPlan(d, r).ok
    ensures TipMatches(Published(d.db, SuffixOf(d.db, r).value), r.target)
  {
    hide Published, SuffixOf, BestHeader;
    PublishedTip(d.db, r, SuffixOf(d.db, r).value);
  }

  lemma AcceptedTarget(d: Disk, r: Request)
    requires RequestAccepted(d, r)
    ensures d.manifest.Some? && BestHeader(d.db).Some?
    ensures HeaderMatches(LastHeader(r.ancestor, r.replacement), r.target)
    ensures r.target.replayCheckpoint == Some(r.target.canonicalHeight)
  {
  }

  lemma ClearOnly(d: Disk)
    ensures Perform(d, [ClearJournal]) == d.(journal := None)
  {
    var ws := [ClearJournal];
    assert ws[1..] == [];
  }

  lemma VerifyDiscarded(d: Disk, target: Manifest)
    requires Verify(d).Some? && TipFiled(d.db) && Publishable(target.status)
    requires target.replayCheckpoint == Some(target.canonicalHeight)
    ensures Verify(Discarded(d, target)).Some? && Discarded(d, target).journal.None? && Discarded(d, target).db == d.db
  {
    hide BestHeader, HeaderByNumber, HeaderMatches, Canonical.HeaderHash, TipFiled;
    if TipMatches(d.db, target) { VerifyDone(d.db, target); }
  }

  /** Crash after any write of a publication, then crash any number of recoveries
      anywhere: the recovery that completes leaves no journal and a generation that
      verifies. Its tables are wholly the old ones until the batch was committed and
      wholly the new ones from then on, and its files go with them; only when the
      stored tip already was the target's do old tables get the target's files. */
  lemma CrashSafe(d: Disk, r: Request, k: nat, crashes: seq<nat>)
    requires AllStorable(r.replacement) && Verify(d).Some? && LeftoverJournal(d) && TipFiled(d.db)
    requires Publishable(r.target.status)
    ensures var crashed := Interrupted(Perform(d, Crashed(PublishPlan(d, r).writes, k)), crashes);
      RecoverPlan(crashed).ok && Settled(crashed) == Outcome(d, r, k) &&
      Settled(crashed).journal.None? && Verify(Settled(crashed)).Some?
  {
    hide Published, SuffixOf, BestHeader, CheckpointSound, HeaderMatches, RecoverPlan, Settled, Verify, Discarded,
      TipFiled;
    PublishThenSettle(d, r, k);
    InterruptedSettles(Perform(d, Crashed(PublishPlan(d, r).writes, k)), crashes);
    if PublishPlan(d, r).ok && k >= 2 {
      PublishedTip(d.db, r, SuffixOf(d.db, r).value);
      AcceptedTarget(d, r);
      PublishedVerifies(d, r);
    } else if RequestAccepted(d, r) && k >= 1 {
      AcceptedTarget(d, r);
      VerifyDiscarded(d, r.target);
    } else if d.journal.Some? {
      VerifyDiscarded(d, d.journal.value.target);
    }
  }

  lemma PublishedVerifies(d: Disk, r: Request)
    requires AllStorable(r.replacement) && PublishPlan(d, r).ok && Publishable(r.target.status)
    ensures Verify(Done(Published(d.db, SuffixOf(d.db, r).value), r.target)).Some?
  {
    hide Published, SuffixOf, BestHeader, HeaderMatches, Verify;
    PublishedTip(d.db, r, SuffixOf(d.db, r).value);
    AcceptedTarget(d, r);
    VerifyDone(Published(d.db, SuffixOf(d.db, r).value), r.target);
  }

  // ---- A failed batch leaves its journal behind ----

  /** The database after blocks were inserted at the tip one by one. */
  function ExtendedAll(db: Db, blocks: seq<Block>): Db
    requires AllStorable(blocks)
  {
    if |blocks| == 0 then db
    else LogIndex.Extended(ExtendedAll(db, blocks[..|blocks| - 1]), blocks[|blocks| - 1])
  }

  lemma ExtendedBest(db: Db, b: Block)
    requires Storable(b)
    ensures BestHeader(LogIndex.Extended(db, b)) == Some(b.header)
  {
    hide Rows;
    RowKeys(b, HeaderAt(b.header.number));
  }

  /** If the batch fails and the running node then extends the chain, by one block or
      by many, the next open fails: the journal matches the old tip and the target
      only. Exactly an extension that ends on the target itself is spared. */
  lemma FailedPublishThenExtend(d: Disk, r: Request, blocks: seq<Block>)
    requires AllStorable(r.replacement) && Verify(d).Some? && AllStorable(blocks) && |blocks| > 0
    requires RequestAccepted(d, r) && !PublishPlan(d, r).ok
    requires LastHeader(r.ancestor, blocks).number > BestHeader(d.db).value.number
    ensures var failed := Perform(d, PublishPlan(d, r).writes);
      var extended := failed.(db := ExtendedAll(failed.db, blocks));
      RecoverPlan(extended).ok <==> HeaderMatches(LastHeader(r.ancestor, blocks), r.target)
  {
    hide SuffixOf, Verify, BestHeader, Canonical.HeaderHash, LogIndex.Extended;
    VerifiedTip(d);
    var j := Journal(d.manifest.value, r.target);
    OnlyJournal(d, j);
    ExtendedBest(ExtendedAll(d.db, blocks[..|blocks| - 1]), blocks[|blocks| - 1]);
  }

  lemma OnlyJournal(d: Disk, j: Journal)
    ensures Perform(d, [SetJournal(j)]) == d.(journal := Some(j))
  {
    assert [SetJournal(j)][1..] == [];
  }

  // ---- The chain after a crash ----

  ghost predicate Numbered(chain: seq<Block>) {
    |chain| <= U64_MAX && forall k :: 0 <= k < |chain| ==> chain[k].header.number == k
  }

  /** The database of a node that inserted `chain` and nothing else. */
  ghost predicate Stores(db: Db, chain: seq<Block>) {
    |chain| > 0 && Numbered(chain) && AllStorable(chain) && Tables(db) == Rebuild(chain) &&
    BestHeader(db) == Some(chain[|chain| - 1].header)
  }

  /** The database of a node whose rows from a height up are those of a suffix; below
      it lies whatever was kept there. */
  ghost predicate StoresOver(db: Db, base: Db, from: nat, suffix: seq<Block>) {
    AllStorable(suffix) && from + |suffix| <= U64_MAX && RowsBelow(base, from) &&
    (forall k :: 0 <= k < |suffix| ==> suffix[k].header.number == from + k) &&
    Tables(db) == base + Rebuild(suffix) &&
    BestHeader(db).Some? && BestHeader(db).value.number + 1 == from + |suffix|
  }

  lemma BodyOver(db: Db, base: Db, from: nat, suffix: seq<Block>, k: nat)
    requires StoresOver(db, base, from, suffix) && k < |suffix|
    ensures BlockAt(from + k) in db && db[BlockAt(from + k)] == BlockRow(suffix[k])
  {
    hide Rebuild, Storable, RowsBelow, BestHeader;
    LogIndex.RebuildBodies(suffix, from, BestNumber);
    assert BlockAt(from + k) in Tables(db) && Tables(db)[BlockAt(from + k)] == BlockRow(suffix[k]);
  }

  lemma {:induction false} BodiesOver(db: Db, base: Db, from: nat, suffix: seq<Block>, n: nat)
    requires StoresOver(db, base, from, suffix) && n <= |suffix|
    ensures Bodies(db, from, from + n) == Some(suffix[..n])
    decreases n
  {
    hide StoresOver;
    BoundsOver(db, base, from, suffix);
    if n > 0 {
      BodiesOver(db, base, from, suffix, n - 1);
      BodyOver(db, base, from, suffix, n - 1);
      assert suffix[..n] == suffix[..n - 1] + [suffix[n - 1]];
    }
  }

  lemma BoundsOver(db: Db, base: Db, from: nat, suffix: seq<Block>)
    requires StoresOver(db, base, from, suffix)
    ensures from + |suffix| <= U64_MAX
  {
  }

  /** An accepted request on such a node always has its suffix: the bodies above the
      ancestor. */
  lemma SuffixOver(db: Db, base: Db, suffix: seq<Block>, r: Request)
    requires StoresOver(db, base, r.ancestor.number + 1, suffix)
    ensures SuffixOf(db, r) == Some(Suffix(r.ancestor.number + 1, suffix, r.replacement, r.native, r.evm, r.supply))
  {
    hide Rebuild, Bodies, Storable, BestHeader;
    var from := r.ancestor.number + 1;
    BodiesOver(db, base, from, suffix, |suffix|);
    assert suffix[..|suffix|] == suffix;
    forall k | k in db && IsLog(k) ensures db[k].LocationRow? {
      assert k in Tables(db);
      RebuildKeys(suffix, k);
    }
  }

  lemma {:induction false} ContiguousNumbers(ancestor: BlockHeader, blocks: seq<Block>, k: nat)
    requires Contiguous(ancestor, blocks) && ancestor.number + |blocks| <= U64_MAX && k < |blocks|
    ensures blocks[k].header.number == ancestor.number + 1 + k
  {
    hide Follows;
    if k > 0 { ContiguousNumbers(ancestor, blocks, k - 1); }
    FollowsNumber(blocks[k].header, ParentOf(ancestor, blocks, k));
  }

  lemma FollowsNumber(child: BlockHeader, parent: BlockHeader)
    requires Follows(child, parent)
    ensures child.number == NextNumber(parent.number)
  {
    hide Canonical.HeaderHash;
  }

  /** Even where numbers saturate, the replacement stays above the ancestor. */
  lemma {:induction false} ContiguousAbove(ancestor: BlockHeader, blocks: seq<Block>, k: nat)
    requires Contiguous(ancestor, blocks) && ancestor.number < U64_MAX && k < |blocks|
    ensures blocks[k].header.number > ancestor.number
  {
    hide Follows;
    if k > 0 { ContiguousAbove(ancestor, blocks, k - 1); }
    FollowsNumber(blocks[k].header, ParentOf(ancestor, blocks, k));
  }

  /** The tables are the rows of a suffix over what lies below it, and the tip, the
      accounts and the execution state are those of the request. */
  ghost predicate PublishedAs(db: Db, base: Db, r: Request)
    requires AllStorable(r.replacement)
  {
    var tip := LastHeader(r.ancestor, r.replacement);
    Tables(db) == base + Rebuild(r.replacement) && BestHeader(db) == Some(tip) &&
    AccountSnapshot(db) == r.native && StateIs(db, tip.number, r.evm, r.supply)
  }

  lemma PublishedOver(db: Db, base: Db, suffix: seq<Block>, r: Request)
    requires AllStorable(r.replacement) && StoresOver(db, base, r.ancestor.number + 1, suffix)
    requires Contiguous(r.ancestor, r.replacement) && |r.replacement| > 0
    requires SuffixOf(db, r).Some? && NoHashLost(base, SuffixOf(db, r).value)
    ensures PublishedAs(Published(db, SuffixOf(db, r).value), base, r)
  {
    hide Rebuild, Published, Storable, BestHeader, SuffixOf, Tables, RowsBelow, NoHashLost, AccountSnapshot, Contiguous;
    hide StateIs;
    SuffixOver(db, base, suffix, r);
    var x := SuffixOf(db, r).value;
    forall b | b in r.replacement ensures b.header.number >= x.from {
      var k :| 0 <= k < |r.replacement| && r.replacement[k] == b;
      ContiguousAbove(r.ancestor, r.replacement, k);
    }
    ReorgReplacesSuffix(db, base, x);
    PublishedAccounts(db, x);
    PublishedState(db, x);
    PublishedTip(db, r, x);
  }

  /** Short of the last height the replacement is numbered as a suffix again. */
  lemma PublishedStores(db: Db, base: Db, r: Request)
    requires AllStorable(r.replacement) && PublishedAs(db, base, r) && RowsBelow(base, r.ancestor.number + 1)
    requires Contiguous(r.ancestor, r.replacement) && |r.replacement| > 0
    requires r.ancestor.number + 1 + |r.replacement| <= U64_MAX
    ensures StoresOver(db, base, r.ancestor.number + 1, r.replacement)
  {
    hide Rebuild, Storable, BestHeader, Tables, RowsBelow, AccountSnapshot, Contiguous, StateIs;
    forall k | 0 <= k < |r.replacement| ensures r.replacement[k].header.number == r.ancestor.number + 1 + k {
      ContiguousNumbers(r.ancestor, r.replacement, k);
    }
  }

  /** Whatever crashes, a publication leaves the tables as they were or exactly the
      rows below the ancestor with the replacement on top, and then every reader of
      accounts and execution state sees the supplied ones. The rows below may be those of a pruned node. */
  lemma PublicationIsAtomic(d: Disk, base: Db, suffix: seq<Block>, r: Request, k: nat, crashes: seq<nat>)
    requires AllStorable(r.replacement) && Verify(d).Some? && LeftoverJournal(d) && TipFiled(d.db)
    requires StoresOver(d.db, base, r.ancestor.number + 1, suffix) && RequestAccepted(d, r)
    requires Publishable(r.target.status)
    requires SuffixOf(d.db, r).Some? ==> NoHashLost(base, SuffixOf(d.db, r).value)
    ensures var final := Settled(Interrupted(Perform(d, Crashed(PublishPlan(d, r).writes, k)), crashes)).db;
      if k >= 2 then PublishedAs(final, base, r) else final == d.db
  {
    hide StoresOver, Published, Settled, Verify, NoHashLost, PublishedAs, Interrupted, Perform, RecoverPlan;
    hide SuffixOf, BestHeader, HeaderMatches, TipFiled, LeftoverJournal;
    CrashSafe(d, r, k, crashes);
    SuffixOver(d.db, base, suffix, r);
    PublishedOver(d.db, base, suffix, r);
  }

  // ---- The whole chain ----

  lemma StoresAsOver(db: Db, chain: seq<Block>, a: nat)
    requires Stores(db, chain) && a < |chain|
    ensures AllStorable(chain[..a + 1]) && StoresOver(db, Rebuild(chain[..a + 1]), a + 1, chain[a + 1..])
  {
    hide Rebuild, Storable, RowsBelow, BestHeader;
    var prefix, suffix := chain[..a + 1], chain[a + 1..];
    assert prefix + suffix == chain;
    RebuildConcat(prefix, suffix);
    RebuildBelow(prefix, a + 1);
  }

  lemma OverAsStores(db: Db, prefix: seq<Block>, suffix: seq<Block>)
    requires AllStorable(prefix) && Numbered(prefix) && |suffix| > 0 &&
      StoresOver(db, Rebuild(prefix), |prefix|, suffix)
    requires BestHeader(db) == Some(suffix[|suffix| - 1].header)
    ensures Stores(db, prefix + suffix)
  {
    hide Rebuild, Storable, RowsBelow, BestHeader;
    RebuildConcat(prefix, suffix);
  }

  /** The headers of a stored chain are filed, so its tip is. */
  lemma FiledTip(db: Db)
    requires LogIndex.HeadersFiled(db)
    ensures TipFiled(db)
  {
  }

  /** For a node that stores a chain, a publication stores the old chain or the new
      one, as if it had been inserted block by block; so publications can follow one
      another. */
  lemma PublicationReplacesChain(d: Disk, chain: seq<Block>, r: Request, k: nat, crashes: seq<nat>)
    requires AllStorable(r.replacement) && Verify(d).Some? && LeftoverJournal(d) && LogIndex.HeadersFiled(d.db)
    requires Stores(d.db, chain) && RequestAccepted(d, r) && Publishable(r.target.status)
    requires r.ancestor.number + 1 + |r.replacement| <= U64_MAX
    requires var above := r.ancestor.number + 1;
      above <= |chain| ==> ChainHashes(chain[..above]) * ChainHashes(chain[above..]) <= ChainHashes(r.replacement)
    ensures var final := Settled(Interrupted(Perform(d, Crashed(PublishPlan(d, r).writes, k)), crashes)).db;
      if k >= 2 then
        Stores(final, chain[..r.ancestor.number + 1] + r.replacement) && AccountSnapshot(final) == r.native &&
        StateIs(final, LastHeader(r.ancestor, r.replacement).number, r.evm, r.supply)
      else final == d.db
  {
    hide StoresOver, Settled, Verify, NoHashLost, AccountSnapshot, StateIs, Interrupted, Perform, RecoverPlan, Rebuild,
      ChainHashes;
    hide SuffixOf, HeaderMatches, TipFiled, LeftoverJournal, PublishPlan, LogIndex.HeadersFiled, Contiguous;
    var a := r.ancestor.number;
    var prefix, suffix := chain[..a + 1], chain[a + 1..];
    AncestorStored(d, chain, r);
    StoresAsOver(d.db, chain, a);
    SuffixOver(d.db, Rebuild(prefix), suffix, r);
    HashLostExactly(prefix, SuffixOf(d.db, r).value);
    FiledTip(d.db);
    PublicationIsAtomic(d, Rebuild(prefix), suffix, r, k, crashes);
    var final := Settled(Interrupted(Perform(d, Crashed(PublishPlan(d, r).writes, k)), crashes)).db;
    if k >= 2 {
      RebuildBelow(prefix, a + 1);
      PublishedStores(final, Rebuild(prefix), r);
      OverAsStores(final, prefix, r.replacement);
    }
  }

  lemma AncestorStored(d: Disk, chain: seq<Block>, r: Request)
    requires Stores(d.db, chain) && RequestAccepted(d, r)
    ensures r.ancestor.number < |chain| && |r.replacement| > 0
  {
    hide Rebuild, Contiguous, HeaderMatches;
  }

  // ---- Accepted requests name all they remove ----

  lemma {:induction false} BodiesAre(db: Db, low: nat, end: nat)
    requires end <= U64_MAX + 1 && Bodies(db, low, end).Some?
    ensures forall n: u64 :: low <= n < end ==>
      BlockAt(n) in db && db[BlockAt(n)].BlockRow? && db[BlockAt(n)].block in Bodies(db, low, end).value
    ensures forall b :: b in Bodies(db, low, end).value ==>
      exists n: u64 :: low <= n < end && BlockAt(n) in db && db[BlockAt(n)] == BlockRow(b)
    decreases end
  {
    if low < end {
      BodiesAre(db, low, end - 1);
      var front := Bodies(db, low, end - 1).value;
      var last: u64 := end - 1;
      assert Bodies(db, low, end).value == front + [db[BlockAt(last)].block];
    }
  }

  /** A publication whose plan goes through is one of the suffix replacements that keep
      the log index exact: it removes every stored body above the ancestor. */
  lemma AcceptedIsEnabled(d: Disk, r: Request)
    requires AllStorable(r.replacement) && PublishPlan(d, r).ok
    requires LogIndex.BodiesSound(d.db) && LogIndex.HeadersFiled(d.db) && r.ancestor.number + |r.replacement| <= U64_MAX
    ensures LogIndex.Enabled(d.db, LogIndex.Replace(SuffixOf(d.db, r).value))
  {
    hide Bodies, Storable, Canonical.HeaderHash, HeaderMatches, Contiguous, Published, Finish;
    var best: u64 := BestHeader(d.db).value.number;
    assert d.db[BestNumber] == CountRow(best);
    BodiesAre(d.db, r.ancestor.number + 1, best + 1);
    forall k | 0 <= k < |r.replacement| ensures r.replacement[k].header.number == r.ancestor.number + 1 + k {
      ContiguousNumbers(r.ancestor, r.replacement, k);
    }
  }
}
