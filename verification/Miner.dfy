/** Building an empty block template and sealing it with a nonce. */
module Miner {
  import opened Bytes
  import opened Primitives
  import opened TargetArithmetic
  import opened Consensus
  import Canonical

  datatype BlockTemplate = BlockTemplate(header: BlockHeader, target: Hash256)

  function BuildEmptyTemplate(parent: BlockHeader, beneficiary: Hash256, timestamp: u64): BlockTemplate {
    var number := Successor(parent.number);
    BlockTemplate(
      BlockHeader(Canonical.HeaderHash(parent), number, parent.stateRoot, Canonical.TransactionsRoot([]),
                  Canonical.ReceiptsRoot([]), beneficiary, parent.difficultyTarget, NextBaseFee(parent),
                  parent.gasLimit, 0, timestamp, POW_ALGORITHM, EpochForHeight(number), 0, ZERO_HASH, 0),
      parent.difficultyTarget)
  }

  predicate Solves(template: BlockTemplate, nonce: u64, genesis: Hash256) {
    SatisfiesPow(BlqRxHash(template.header.(nonce := nonce), genesis).finalHash, template.target)
  }

  /** The mix hash is written into the header between attempts. It is not part of
      the preimage, so no attempt sees what an earlier one wrote. */
  lemma MixHashUnseen(h: BlockHeader, mix: Hash256, nonce: u64, genesis: Hash256)
    ensures BlqRxHash(h.(mixHash := mix, nonce := nonce), genesis) == BlqRxHash(h.(nonce := nonce), genesis)
  {
  }

  /** Tries the nonces of a range in order; the range stops short of overflow. */
  method SealEmptyTemplate(template: BlockTemplate, nonceStart: u64, nonceLimit: u64, genesis: Hash256)
    returns (sealed: Option<BlockTemplate>)
    ensures var end := Min(U64_MAX, nonceStart + nonceLimit);
      match sealed
      case None => forall n: u64 :: nonceStart <= n < end ==> !Solves(template, n, genesis)
      case Some(t) =>
        var n := t.header.nonce;
        nonceStart <= n < end && Solves(template, n, genesis) &&
        (forall m: u64 :: nonceStart <= m < n ==> !Solves(template, m, genesis)) &&
        t == template.(header := template.header.(nonce := n,
               mixHash := BlqRxHash(template.header.(nonce := n), genesis).mixHash))
  {
    var current := template;
    var end: u64 := Min(U64_MAX, nonceStart + nonceLimit);
    for nonce := nonceStart to end
      invariant current.header == template.header.(nonce := current.header.nonce, mixHash := current.header.mixHash)
      invariant current.target == template.target
      invariant forall m: u64 :: nonceStart <= m < nonce ==> !Solves(template, m, genesis)
    {
      MixHashUnseen(template.header, current.header.mixHash, nonce, genesis);
      current := current.(header := current.header.(nonce := nonce));
      var result := BlqRxHash(current.header, genesis);
      current := current.(header := current.header.(mixHash := result.mixHash));
      if SatisfiesPow(result.finalHash, current.target) {
        return Some(current);
      }
    }
    sealed := None;
  }

  lemma EmptyBlockIsSmall(h: BlockHeader)
    requires |h.powAlgorithm| <= 8
    ensures |Canonical.BlockBytes(Block(h, [], []))| <= MAX_BLOCK_BYTES
  {
    var body := Canonical.PutU64(0, Canonical.PutU64(0, []));
    assert Canonical.BlockBytes(Block(h, [], [])) == Canonical.PutHeader(h, body);
    assert |Canonical.PutHeader(h, body)| <= 400;
  }

  function SealedWith(template: BlockTemplate, nonce: u64, genesis: Hash256): Block {
    var unsealed := template.header.(nonce := nonce);
    Block(unsealed.(mixHash := BlqRxHash(unsealed, genesis).mixHash), [], [])
  }

  /** An empty block that changes nothing but what the chain rules make it change. */
  ghost predicate EmptyChild(parent: BlockHeader, b: Block, beneficiary: Hash256, timestamp: u64) {
    b.transactions == [] && b.receipts == [] && b.header.gasUsed == 0 && b.header.extraNonce == 0 &&
    b.header.beneficiary == beneficiary && b.header.timestampSeconds == timestamp &&
    b.header.stateRoot == parent.stateRoot && b.header.gasLimit == parent.gasLimit &&
    b.header.difficultyTarget == parent.difficultyTarget
  }

  /** Whatever the hash function does, a block sealed from a template passes the full
      validation of every other node exactly when it is later than its parent and the
      nonce solves it. */
  lemma MinedBlockIsValid(parent: BlockHeader, beneficiary: Hash256, timestamp: u64, genesis: Hash256,
                          nonce: u64, activation: Option<u64>)
    ensures var template := BuildEmptyTemplate(parent, beneficiary, timestamp);
      BlockVerdict(parent, SealedWith(template, nonce, genesis), genesis, activation).Valid? <==>
      parent.timestampSeconds < timestamp && Solves(template, nonce, genesis)
    ensures var b := SealedWith(BuildEmptyTemplate(parent, beneficiary, timestamp), nonce, genesis);
      EmptyChild(parent, b, beneficiary, timestamp) && b.header.nonce == nonce
    ensures Solves(BuildEmptyTemplate(parent, beneficiary, timestamp), nonce, genesis) ==>
      BeNat(BlqRxHash(SealedWith(BuildEmptyTemplate(parent, beneficiary, timestamp), nonce, genesis).header,
        genesis).finalHash) <= BeNat(parent.difficultyTarget)
  {
    var unsealed := BuildEmptyTemplate(parent, beneficiary, timestamp).header.(nonce := nonce);
    var mix := BlqRxHash(unsealed, genesis).mixHash;
    MixHashUnseen(unsealed, mix, nonce, genesis);
    EmptyBlockIsSmall(unsealed.(mixHash := mix));
    SatisfiesPowIsNumeric(BlqRxHash(unsealed, genesis).finalHash, parent.difficultyTarget);
  }

  /** Builds a template, seals it and hands out the block. */
  method MineEmptyBlock(parent: BlockHeader, beneficiary: Hash256, timestamp: u64, nonceStart: u64, nonceLimit: u64,
                        genesis: Hash256, activation: Option<u64>)
    returns (mined: Option<Block>)
    ensures mined.Some? && parent.timestampSeconds < timestamp ==>
      BlockVerdict(parent, mined.value, genesis, activation).Valid?
    ensures mined.Some? ==>
      EmptyChild(parent, mined.value, beneficiary, timestamp) &&
      nonceStart <= mined.value.header.nonce < Min(U64_MAX, nonceStart + nonceLimit)
    ensures mined.None? ==> forall n: u64 :: nonceStart <= n < Min(U64_MAX, nonceStart + nonceLimit) ==>
      !BlockVerdict(parent, SealedWith(BuildEmptyTemplate(parent, beneficiary, timestamp), n, genesis), genesis,
        activation).Valid?
  {
    hide BlockVerdict, BlqRxHash, BuildEmptyTemplate, Solves, EmptyChild;
    var template := BuildEmptyTemplate(parent, beneficiary, timestamp);
    var sealed := SealEmptyTemplate(template, nonceStart, nonceLimit, genesis);
    forall n: u64
      ensures BlockVerdict(parent, SealedWith(template, n, genesis), genesis, activation).Valid? <==>
        parent.timestampSeconds < timestamp && Solves(template, n, genesis)
    {
      MinedBlockIsValid(parent, beneficiary, timestamp, genesis, n, activation);
    }
    if sealed.None? {
      return None;
    }
    mined := Some(Block(sealed.value.header, [], []));
    assert mined.value == SealedWith(template, sealed.value.header.nonce, genesis);
    MinedBlockIsValid(parent, beneficiary, timestamp, genesis, sealed.value.header.nonce, activation);
  }
}
