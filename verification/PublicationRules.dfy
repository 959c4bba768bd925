/** When a generation verifies and when a publication is accepted, said of the rows and
    files themselves. */
module PublicationRules {
  import opened Bytes
  import opened Primitives
  import opened Keys
  import opened ChainTables
  import opened Publication
  import opened NodeRuns
  import Canonical

  /** A header is stored at a height, with this hash and state root. */
  ghost predicate StoredHeader(db: Db, n: u64, hash: Hash256, root: Hash256) {
    HeaderAt(n) in db && db[HeaderAt(n)].HeaderRow? && Canonical.HeaderHash(db[HeaderAt(n)].header) == hash &&
    db[HeaderAt(n)].header.stateRoot == root
  }

  /** The best block number points at a header with the manifest's height, hash and root. */
  ghost predicate TipStored(db: Db, m: Manifest) {
    BestNumber in db && db[BestNumber].CountRow? &&
    var n := db[BestNumber].count;
    StoredHeader(db, n, m.canonicalHash, m.stateRoot) && db[HeaderAt(n)].header.number == m.canonicalHeight
  }

  /** Manifest, record, checkpoint and rows all describe one generation. */
  ghost predicate FilesAgree(d: Disk) {
    d.manifest.Some? &&
    var m := d.manifest.value;
    m.status in {Active, Verified} && TipStored(d.db, m) &&
    (d.publication.Some? ==> d.publication.value.generationId == m.generationId) &&
    (d.checkpoint.None? <==> m.replayCheckpoint.None?) &&
    (d.checkpoint.Some? ==>
      var c := d.checkpoint.value;
      m.replayCheckpoint == Some(c.height) && c.generationId == m.generationId && c.height <= m.canonicalHeight &&
      StoredHeader(d.db, c.height, c.blockHash, c.stateRoot))
  }

  /** A generation verifies exactly when its files agree with its rows. */
  lemma VerifyExactly(d: Disk)
    ensures Verify(d).Some? <==> FilesAgree(d)
    ensures Verify(d).Some? ==> Verify(d) == d.manifest
  {
    hide Canonical.HeaderHash;
  }

  /** A checkpoint of a verified generation is the header stored at its height. */
  lemma VerifiedCheckpoint(d: Disk, c: Checkpoint)
    requires Verify(d).Some? && d.checkpoint == Some(c)
    ensures StoredHeader(d.db, c.height, c.blockHash, c.stateRoot)
    ensures d.manifest.value.replayCheckpoint == Some(c.height)
    ensures d.manifest.value.generationId == c.generationId
    ensures d.publication.Some? ==> d.publication.value.generationId == c.generationId
  {
    hide Verify, StoredHeader;
    VerifyExactly(d);
  }

  /** Verification leaves a sound generation with a record of the very manifest it
      has, and otherwise as it was. */
  lemma RepairedIsFresh(d: Disk)
    requires Verify(d).Some?
    ensures Verify(Repaired(d)) == Verify(d) && Repaired(d).(publication := d.publication) == d
    ensures d.publication.Some? ==>
      Repaired(d).publication.Some? &&
      Repaired(d).publication.value.generationId == d.manifest.value.generationId &&
      Repaired(d).publication.value.manifestChecksum == ManifestChecksum(d.manifest.value)
    ensures d.publication.None? ==> Repaired(d).publication.None?
  {
    hide Canonical.HeaderHash;
  }

  /** Whatever a node did, and however often its restart is interrupted, its files then
      agree with its rows. */
  lemma RunsAgree(d: Disk, ops: seq<NodeOp>, crashes: seq<nat>)
    requires NodeSound(d) && ValidRun(d, ops)
    ensures FilesAgree(Run(d, ops)) && FilesAgree(Restarted(Run(d, ops), crashes))
  {
    hide Verify, FilesAgree, Run, ValidRun, Restarted;
    RunKeepsSound(d, ops);
    RestartKeeps(Run(d, ops), crashes);
    VerifyExactly(Run(d, ops));
    VerifyExactly(Restarted(Run(d, ops), crashes));
  }

  // ---- Publication requests ----

  /** The next number, which for the last number is itself, and the parent's hash. */
  ghost predicate Extends(child: BlockHeader, parent: BlockHeader) {
    child.parentHash == Canonical.HeaderHash(parent) &&
    (parent.number < U64_MAX ==> child.number == parent.number + 1) &&
    (parent.number == U64_MAX ==> child.number == U64_MAX)
  }

  /** The replacement is a chain on the ancestor. */
  ghost predicate Chained(ancestor: BlockHeader, blocks: seq<Block>) {
    (|blocks| > 0 ==> Extends(blocks[0].header, ancestor)) &&
    forall k :: 0 < k < |blocks| ==> Extends(blocks[k].header, blocks[k - 1].header)
  }

  /** A request is accepted exactly when its ancestor has the hash of the header stored
      at its height, its replacement is a non-empty chain on it, and its target
      describes the last block and takes it as checkpoint. */
  lemma AcceptedExactly(d: Disk, r: Request)
    ensures RequestAccepted(d, r) <==>
      d.manifest.Some? && BestHeader(d.db).Some? && r.ancestor.number <= BestHeader(d.db).value.number &&
      HeaderAt(r.ancestor.number) in d.db && d.db[HeaderAt(r.ancestor.number)].HeaderRow? &&
      Canonical.HeaderHash(d.db[HeaderAt(r.ancestor.number)].header) == Canonical.HeaderHash(r.ancestor) &&
      Chained(r.ancestor, r.replacement) && |r.replacement| > 0 &&
      var tip := r.replacement[|r.replacement| - 1].header;
      r.target.canonicalHeight == tip.number && r.target.canonicalHash == Canonical.HeaderHash(tip) &&
      r.target.stateRoot == tip.stateRoot && r.target.replayCheckpoint == Some(tip.number)
  {
    hide Canonical.HeaderHash;
    ChainedExactly(r.ancestor, r.replacement);
    hide Chained, Contiguous;
  }

  lemma ExtendsExactly(child: BlockHeader, parent: BlockHeader)
    ensures Follows(child, parent) <==> Extends(child, parent)
  {
    hide Canonical.HeaderHash;
  }

  lemma ChainedExactly(ancestor: BlockHeader, blocks: seq<Block>)
    ensures Contiguous(ancestor, blocks) <==> Chained(ancestor, blocks)
  {
    hide Follows, Extends;
    forall k | 0 <= k < |blocks|
      ensures Follows(blocks[k].header, ParentOf(ancestor, blocks, k)) <==>
        Extends(blocks[k].header, ParentOf(ancestor, blocks, k))
    {
      ExtendsExactly(blocks[k].header, ParentOf(ancestor, blocks, k));
    }
  }

  /** An ancestor that is not the stored header is refused, nothing is written, and only
      a collision of the hash could pass for it. */
  lemma ForeignAncestorRefused(d: Disk, r: Request, stored: BlockHeader)
    requires AllStorable(r.replacement) && HeaderByNumber(d.db, r.ancestor.number) == Some(stored)
    requires |stored.powAlgorithm| <= U64_MAX && |r.ancestor.powAlgorithm| <= U64_MAX && stored != r.ancestor
    ensures Canonical.Collision(Canonical.HeaderBytes(stored), Canonical.HeaderBytes(r.ancestor)) ||
      (PublishPlan(d, r) == Plan([], false) && forall k: nat :: Perform(d, Crashed(PublishPlan(d, r).writes, k)) == d)
  {
    hide Canonical.PutHeader, Contiguous, HeaderMatches, BestHeader, SuffixOf, Published;
    Canonical.HeaderBack(stored, []);
    Canonical.HeaderBack(r.ancestor, []);
    if !Canonical.Collision(Canonical.HeaderBytes(stored), Canonical.HeaderBytes(r.ancestor)) {
      forall k: nat ensures Perform(d, Crashed([], k)) == d {
        NoWrites(d, k);
      }
    }
  }
}
