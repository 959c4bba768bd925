/** The chain a node stores is one chain: through every run each of its blocks names the
    hash and the number of the one before. */
module LinkedRuns {
  import opened Bytes
  import opened Primitives
  import opened Keys
  import opened ChainTables
  import opened Publication
  import opened NodeRuns
  import Canonical

  ghost predicate Link(child: BlockHeader, parent: BlockHeader) {
    child.parentHash == Canonical.HeaderHash(parent) && child.number == parent.number + 1
  }

  ghost predicate Linked(chain: seq<Block>) {
    forall k :: 0 < k < |chain| ==> Link(chain[k].header, chain[k - 1].header)
  }

  /** The node extends its chain by blocks that name the tip's hash, as validation
      demands. Publications are checked by the storage itself. */
  ghost predicate NamesTip(d: Disk, op: NodeOp) {
    op.Insert? ==>
      BestHeader(d.db).Some? && op.block.header.parentHash == Canonical.HeaderHash(BestHeader(d.db).value)
  }

  ghost predicate LinkedRun(d: Disk, ops: seq<NodeOp>)
    requires ValidRun(d, ops)
    decreases |ops|
  {
    |ops| == 0 || (NamesTip(d, ops[0]) && LinkedRun(After(d, ops[0]), ops[1..]))
  }

  lemma InsertLinks(d: Disk, chain: seq<Block>, b: Block)
    requires Stores(d.db, chain) && Linked(chain) && Storable(b)
    requires BestHeader(d.db).Some? && b.header.number == BestHeader(d.db).value.number + 1
    requires b.header.parentHash == Canonical.HeaderHash(BestHeader(d.db).value)
    ensures Linked(chain + [b])
  {
    hide Canonical.HeaderHash, BestHeader, Rebuild, AllStorable, Numbered;
  }

  /** The ancestor of an accepted request has the hash of the stored header at its
      height. */
  lemma AncestorHash(d: Disk, chain: seq<Block>, r: Request)
    requires Stores(d.db, chain) && RequestAccepted(d, r)
    ensures var a := r.ancestor.number;
      a < |chain| && Canonical.HeaderHash(chain[a].header) == Canonical.HeaderHash(r.ancestor) &&
      chain[a].header.number == a && Contiguous(r.ancestor, r.replacement)
  {
    hide Canonical.HeaderHash, Rebuild, Contiguous, HeaderMatches;
    AncestorStored(d, chain, r);
    RebuildHeaderAt(chain, r.ancestor.number);
    assert HeaderAt(r.ancestor.number) in Tables(d.db);
  }

  /** A header of the replacement continues the ancestor or the header before it. */
  lemma ReplacementLinks(ancestor: BlockHeader, blocks: seq<Block>, k: nat)
    requires Contiguous(ancestor, blocks) && ancestor.number + 1 + |blocks| <= U64_MAX && k < |blocks|
    ensures Link(blocks[k].header, ParentOf(ancestor, blocks, k))
  {
    hide Canonical.HeaderHash;
    ContiguousNumbers(ancestor, blocks, k);
    if k > 0 { ContiguousNumbers(ancestor, blocks, k - 1); }
  }

  lemma SameLink(child: BlockHeader, parent: BlockHeader, parent': BlockHeader)
    requires Link(child, parent) && parent.number == parent'.number
    requires Canonical.HeaderHash(parent) == Canonical.HeaderHash(parent')
    ensures Link(child, parent')
  {
    hide Canonical.HeaderHash;
  }

  lemma ReplaceLinks(chain: seq<Block>, r: Request)
    requires Linked(chain) && r.ancestor.number < |chain| && chain[r.ancestor.number].header.number == r.ancestor.number
    requires Canonical.HeaderHash(chain[r.ancestor.number].header) == Canonical.HeaderHash(r.ancestor)
    requires Contiguous(r.ancestor, r.replacement) && r.ancestor.number + 1 + |r.replacement| <= U64_MAX
    ensures Linked(Replaced(chain, r))
  {
    hide Canonical.HeaderHash, Link, Contiguous;
    var a, after := r.ancestor.number, Replaced(chain, r);
    forall k | 0 < k < |after| ensures Link(after[k].header, after[k - 1].header) {
      if k > a {
        ReplacementLinks(r.ancestor, r.replacement, k - a - 1);
        if k == a + 1 { SameLink(after[k].header, r.ancestor, after[a].header); }
      }
    }
  }

  lemma StepLinks(d: Disk, chain: seq<Block>, op: NodeOp)
    requires Stores(d.db, chain) && Linked(chain) && Allowed(d, op) && NamesTip(d, op)
    ensures Linked(ChainAfter(d, chain, op))
  {
    hide Stores, Linked, Canonical.HeaderHash, RequestAccepted, BestHeader, Replaced, Contiguous;
    match op {
      case Insert(b, _) => InsertLinks(d, chain, b);
      case Publish(r) =>
        if RequestAccepted(d, r) { AncestorHash(d, chain, r); ReplaceLinks(chain, r); }
      case PublishCut(r, _, _) =>
        if RequestAccepted(d, r) { AncestorHash(d, chain, r); ReplaceLinks(chain, r); }
      case Restart(_) =>
      case Prune(_) =>
    }
  }

  /** Through every run of insertions, publications, crashes and restarts the stored
      tables are those of one linked chain. */
  lemma {:induction false} RunStaysLinked(d: Disk, chain: seq<Block>, ops: seq<NodeOp>)
    requires NodeSound(d) && Stores(d.db, chain) && Linked(chain) && LosslessRun(d, chain, ops)
    requires ValidRun(d, ops) && LinkedRun(d, ops)
    ensures Stores(Run(d, ops).db, ChainOf(d, chain, ops)) && Linked(ChainOf(d, chain, ops))
    decreases |ops|
  {
    hide NodeSound, Stores, Linked, After, Allowed, Lossless, ChainAfter, NamesTip;
    if |ops| > 0 {
      StepKeeps(d, ops[0]);
      ChainStepKeeps(d, chain, ops[0]);
      StepLinks(d, chain, ops[0]);
      RunStaysLinked(After(d, ops[0]), ChainAfter(d, chain, ops[0]), ops[1..]);
    }
  }
}
