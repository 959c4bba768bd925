/** What it takes for a block to be valid, check by check, and what a valid chain's tip
    hash binds. */
module BlockRules {
  import opened Bytes
  import opened Primitives
  import opened TargetArithmetic
  import opened Consensus
  import Canonical

  // ---- Each check by itself ----

  ghost predicate NumberFollows(n: u64, parent: u64) {
    if parent == 0xFFFF_FFFF_FFFF_FFFF then n == 0 else n == parent + 1
  }

  /** The algorithm's name, the epoch of 2048 blocks and the mix of the recomputed hash. */
  ghost predicate SealFieldsRight(h: BlockHeader, genesis: Hash256) {
    h.powAlgorithm == [0x42, 0x4c, 0x51, 0x2d, 0x52, 0x58, 0x2f, 0x31] &&
    2048 * h.powEpoch <= h.number < 2048 * (h.powEpoch + 1) &&
    h.mixHash == RandomX(Canonical.PowPreimage(h), h.powEpoch, genesis).mixHash
  }

  ghost predicate WorkDone(h: BlockHeader, genesis: Hash256) {
    BeNat(RandomX(Canonical.PowPreimage(h), h.number / 2048, genesis).finalHash) <= BeNat(h.difficultyTarget)
  }

  ghost predicate SizeAllowed(b: Block, activation: Option<u64>) {
    activation.None? || b.header.number < activation.value || |Canonical.BlockBytes(b)| <= 0x20_0000
  }

  /** The check of the header and the body behind an error; those of single
      transactions come after them. */
  ghost predicate BlockPasses(parent: BlockHeader, b: Block, genesis: Hash256, activation: Option<u64>, e: Error) {
    match e
    case InvalidBlockNumber => NumberFollows(b.header.number, parent.number)
    case InvalidTimestamp => parent.timestampSeconds < b.header.timestampSeconds
    case GasUsedExceedsLimit => b.header.gasUsed <= b.header.gasLimit
    case InvalidProofOfWorkFields => SealFieldsRight(b.header, genesis)
    case InvalidProofOfWork => WorkDone(b.header, genesis)
    case InvalidParentHash => b.header.parentHash == Canonical.HeaderHash(parent)
    case BlockTooLarge => SizeAllowed(b, activation)
    case ReceiptTransactionMismatch => |b.receipts| == |b.transactions|
    case InvalidTransactionsRoot => b.header.transactionsRoot == Canonical.TransactionsRoot(b.transactions)
    case InvalidReceiptsRoot => b.header.receiptsRoot == Canonical.ReceiptsRoot(b.receipts)
    case InvalidBaseFee => b.header.baseFeePerGas == NextBaseFee(parent)
    case _ => true
  }

  ghost predicate ShapeAllowed(t: Transaction) {
    t.transactionType == 1 || t.transactionType == 2 || (t.transactionType == 0 && t.accessList == [])
  }

  ghost predicate AccessListAllowed(entries: seq<AccessListItem>) {
    |entries| <= 256 && (forall k :: 0 <= k < |entries| ==> |entries[k].storageKeys| <= 1024) &&
    |AllKeys(entries)| <= 4096
  }

  /** The storage keys of all entries, end to end. */
  ghost function AllKeys(entries: seq<AccessListItem>): seq<Hash256> {
    if |entries| == 0 then [] else AllKeys(entries[..|entries| - 1]) + entries[|entries| - 1].storageKeys
  }

  /** The check of one transaction behind an error. */
  ghost predicate TransactionPasses(t: Transaction, baseFee: u128, e: Error) {
    match e
    case InvalidTransactionChainId => t.chainId == 707070
    case UnsupportedTransactionType => ShapeAllowed(t)
    case TransactionPayloadTooLarge => |t.payload| <= 0x2_0000
    case AccessListTooLarge => AccessListAllowed(t.accessList)
    case MaxFeeBelowBaseFee => baseFee <= t.maxFeePerGas
    case PriorityFeeExceedsMaxFee => t.maxPriorityFeePerGas <= t.maxFeePerGas
    case _ => true
  }

  /** All of them. */
  ghost predicate TransactionRight(t: Transaction, baseFee: u128) {
    t.chainId == 707070 && ShapeAllowed(t) && |t.payload| <= 0x2_0000 && AccessListAllowed(t.accessList) &&
    t.maxPriorityFeePerGas <= t.maxFeePerGas && baseFee <= t.maxFeePerGas
  }

  ghost predicate TransactionsRight(ts: seq<Transaction>, baseFee: u128) {
    forall k :: 0 <= k < |ts| ==> TransactionRight(ts[k], baseFee)
  }

  /** All checks of a block. */
  ghost predicate BlockRight(parent: BlockHeader, b: Block, genesis: Hash256, activation: Option<u64>) {
    NumberFollows(b.header.number, parent.number) && parent.timestampSeconds < b.header.timestampSeconds &&
    b.header.gasUsed <= b.header.gasLimit && SealFieldsRight(b.header, genesis) && WorkDone(b.header, genesis) &&
    b.header.parentHash == Canonical.HeaderHash(parent) && SizeAllowed(b, activation) &&
    |b.receipts| == |b.transactions| &&
    b.header.transactionsRoot == Canonical.TransactionsRoot(b.transactions) &&
    b.header.receiptsRoot == Canonical.ReceiptsRoot(b.receipts) && b.header.baseFeePerGas == NextBaseFee(parent) &&
    TransactionsRight(b.transactions, b.header.baseFeePerGas)
  }

  /** The order in which the checks are made. */
  ghost function Order(e: Error): nat {
    match e
    case InvalidBlockNumber => 0
    case InvalidTimestamp => 1
    case GasUsedExceedsLimit => 2
    case InvalidProofOfWorkFields => 3
    case InvalidProofOfWork => 4
    case InvalidParentHash => 5
    case BlockTooLarge => 6
    case ReceiptTransactionMismatch => 7
    case InvalidTransactionsRoot => 8
    case InvalidReceiptsRoot => 9
    case InvalidBaseFee => 10
    case InvalidTransactionChainId => 11
    case UnsupportedTransactionType => 12
    case TransactionPayloadTooLarge => 13
    case AccessListTooLarge => 14
    case MaxFeeBelowBaseFee => 15
    case PriorityFeeExceedsMaxFee => 16
  }

  ghost predicate OfTransaction(e: Error) {
    Order(e) > 10
  }

  // ---- Transactions ----

  lemma {:induction false} KeysCounted(entries: seq<AccessListItem>)
    ensures StorageKeys(entries) == |AllKeys(entries)|
  {
    if |entries| == 1 {
      assert entries[..0] == [] && entries[1..] == [];
    } else if |entries| > 1 {
      var rest := entries[1..];
      KeysCounted(rest);
      KeysCounted(entries[..|entries| - 1]);
      KeysCounted(rest[..|rest| - 1]);
      assert entries[..|entries| - 1][1..] == rest[..|rest| - 1];
      assert rest[|rest| - 1] == entries[|entries| - 1];
    }
  }

  /** A transaction is refused for the first check that it fails, and passes when it
      fails none. */
  lemma FeeVerdictExactly(t: Transaction, baseFee: u128)
    ensures FeeVerdict(t, baseFee).Valid? <==> TransactionRight(t, baseFee)
    ensures FeeVerdict(t, baseFee).Invalid? ==>
      var e := FeeVerdict(t, baseFee).error;
      OfTransaction(e) && !TransactionPasses(t, baseFee, e) &&
      forall e': Error :: Order(e') < Order(e) ==> TransactionPasses(t, baseFee, e')
  {
    hide AllKeys, StorageKeys;
    KeysCounted(t.accessList);
  }

  /** The k-th transaction is the first that fails, and fails this check first. */
  ghost predicate FirstFault(ts: seq<Transaction>, baseFee: u128, k: nat, e: Error) {
    k < |ts| && TransactionsRight(ts[..k], baseFee) && OfTransaction(e) && !TransactionPasses(ts[k], baseFee, e) &&
    forall e': Error :: Order(e') < Order(e) ==> TransactionPasses(ts[k], baseFee, e')
  }

  lemma {:induction false} FeesVerdictExactly(ts: seq<Transaction>, baseFee: u128)
    ensures FeesVerdict(ts, baseFee).Valid? <==> TransactionsRight(ts, baseFee)
    ensures FeesVerdict(ts, baseFee).Invalid? ==>
      exists k: nat :: FirstFault(ts, baseFee, k, FeesVerdict(ts, baseFee).error)
  {
    hide FeeVerdict, TransactionPasses, TransactionRight, Order;
    if |ts| > 0 {
      FeeVerdictExactly(ts[0], baseFee);
      FeesVerdictExactly(ts[1..], baseFee);
      if FeeVerdict(ts[0], baseFee).Invalid? {
        assert FirstFault(ts, baseFee, 0, FeeVerdict(ts[0], baseFee).error);
      } else if FeesVerdict(ts[1..], baseFee).Invalid? {
        var e := FeesVerdict(ts, baseFee).error;
        var k: nat :| FirstFault(ts[1..], baseFee, k, e);
        assert ts[..k + 1] == [ts[0]] + ts[1..][..k];
        assert FirstFault(ts, baseFee, k + 1, e);
      }
    }
  }

  // ---- Blocks ----

  lemma SealExactly(h: BlockHeader, genesis: Hash256)
    ensures SealFieldsRight(h, genesis) <==>
      h.powAlgorithm == POW_ALGORITHM && h.powEpoch == EpochForHeight(h.number) &&
      h.mixHash == BlqRxHash(h, genesis).mixHash
    ensures WorkDone(h, genesis) <==> SatisfiesPow(BlqRxHash(h, genesis).finalHash, h.difficultyTarget)
  {
    SatisfiesPowIsNumeric(BlqRxHash(h, genesis).finalHash, h.difficultyTarget);
  }

  /** A block is valid exactly when it passes every check; otherwise it is refused for
      the first that fails. */
  lemma BlockVerdictExactly(parent: BlockHeader, b: Block, genesis: Hash256, activation: Option<u64>)
    ensures BlockVerdict(parent, b, genesis, activation).Valid? <==> BlockRight(parent, b, genesis, activation)
    ensures BlockVerdict(parent, b, genesis, activation).Invalid? ==>
      var e := BlockVerdict(parent, b, genesis, activation).error;
      (forall e': Error :: Order(e') < Order(e) ==> BlockPasses(parent, b, genesis, activation, e')) &&
      if OfTransaction(e) then exists k: nat :: FirstFault(b.transactions, b.header.baseFeePerGas, k, e)
      else !BlockPasses(parent, b, genesis, activation, e)
  {
    hide NextBaseFee, Canonical.HeaderHash, Canonical.BlockBytes, Canonical.TransactionsRoot, Canonical.ReceiptsRoot,
      FeesVerdict, SealFieldsRight, WorkDone, TransactionsRight, TransactionPasses, SatisfiesPow, BlqRxHash;
    SealExactly(b.header, genesis);
    FeesVerdictExactly(b.transactions, b.header.baseFeePerGas);
    var v := BlockVerdict(parent, b, genesis, activation);
    if v.Invalid? && !OfTransaction(v.error) {
      assert !BlockPasses(parent, b, genesis, activation, v.error);
    }
  }

  // ---- Chains ----

  ghost predicate RightAt(parent: BlockHeader, chain: seq<Block>, k: nat, genesis: Hash256, activation: Option<u64>)
    requires k < |chain|
  {
    BlockRight(if k == 0 then parent else chain[k - 1].header, chain[k], genesis, activation)
  }

  /** A chain is valid exactly when every block passes every check on the one before it:
      it names its hash, its number is the next, its work is within its target, it has
      a receipt for every transaction and every transaction pays the base fee. */
  lemma {:induction false} ChainExactly(parent: BlockHeader, chain: seq<Block>, genesis: Hash256,
    activation: Option<u64>)
    ensures ValidChain(parent, chain, genesis, activation) <==>
      forall k :: 0 <= k < |chain| ==> RightAt(parent, chain, k, genesis, activation)
  {
    hide BlockVerdict, BlockRight, RightAt;
    if |chain| > 0 {
      var n := |chain| - 1;
      var front := chain[..n];
      ChainExactly(parent, front, genesis, activation);
      BlockVerdictExactly(TipHeader(parent, front), chain[n], genesis, activation);
      RightLast(parent, chain, genesis, activation);
      forall k | 0 <= k < n
        ensures RightAt(parent, chain, k, genesis, activation) <==> RightAt(parent, front, k, genesis, activation)
      {
        RightInFront(parent, chain, k, genesis, activation);
      }
    }
  }

  lemma RightLast(parent: BlockHeader, chain: seq<Block>, genesis: Hash256, activation: Option<u64>)
    requires |chain| > 0
    ensures var n := |chain| - 1;
      RightAt(parent, chain, n, genesis, activation) <==>
      BlockRight(TipHeader(parent, chain[..n]), chain[n], genesis, activation)
  {
    hide BlockRight;
  }

  lemma RightInFront(parent: BlockHeader, chain: seq<Block>, k: nat, genesis: Hash256, activation: Option<u64>)
    requires k < |chain| - 1
    ensures RightAt(parent, chain, k, genesis, activation) <==>
      RightAt(parent, chain[..|chain| - 1], k, genesis, activation)
  {
    hide BlockRight;
  }

  // ---- What a tip hash binds ----

  /** The bytes whose hashes tie a chain together. */
  ghost function Hashed(parent: BlockHeader, chain: seq<Block>): set<seq<byte>> {
    if |chain| == 0 then {Canonical.HeaderBytes(parent)}
    else
      var b := chain[|chain| - 1];
      Hashed(parent, chain[..|chain| - 1]) + {Canonical.HeaderBytes(b.header)} + BodyBytes(b)
  }

  ghost function BodyBytes(b: Block): set<seq<byte>> {
    {Canonical.RootPreimage(Canonical.MapBytes(b.transactions, Canonical.TransactionBytes)),
     Canonical.RootPreimage(Canonical.MapBytes(b.receipts, Canonical.ReceiptBytes))}
  }

  /** Among these bytes two collide, or one has the hash that stands for nothing. */
  ghost predicate Broken(hashed: set<seq<byte>>) {
    (exists x, y :: x in hashed && y in hashed && Canonical.Collision(x, y)) ||
    (exists x :: x in hashed && Sha256(x) == ZERO_HASH)
  }

  /** The same block up to what the bytes of a transaction do not keep. */
  ghost predicate SameBlock(b: Block, b': Block) {
    b.header == b'.header && b.receipts == b'.receipts &&
    Canonical.RecoverableAll(b.transactions) == Canonical.RecoverableAll(b'.transactions)
  }

  lemma HeaderHashBinds(h: BlockHeader, h': BlockHeader)
    requires |h.powAlgorithm| <= U64_MAX && |h'.powAlgorithm| <= U64_MAX
    requires Canonical.HeaderHash(h) == Canonical.HeaderHash(h')
    ensures h == h' || Canonical.Collision(Canonical.HeaderBytes(h), Canonical.HeaderBytes(h'))
  {
    hide Canonical.PutHeader, Canonical.GetHeader;
    Canonical.HeaderBack(h, []);
    Canonical.HeaderBack(h', []);
  }

  lemma TransactionsBound(ts: seq<Transaction>, ts': seq<Transaction>, hashed: set<seq<byte>>)
    requires |ts| <= U64_MAX && forall k :: 0 <= k < |ts| ==> Canonical.TransactionFits(ts[k])
    requires |ts'| <= U64_MAX && forall k :: 0 <= k < |ts'| ==> Canonical.TransactionFits(ts'[k])
    requires Canonical.TransactionsRoot(ts) == Canonical.TransactionsRoot(ts')
    requires Canonical.RootPreimage(Canonical.MapBytes(ts, Canonical.TransactionBytes)) in hashed
    requires Canonical.RootPreimage(Canonical.MapBytes(ts', Canonical.TransactionBytes)) in hashed
    ensures Broken(hashed) || Canonical.RecoverableAll(ts) == Canonical.RecoverableAll(ts')
  {
    hide Canonical.RootPreimage, Canonical.TransactionFits, Canonical.TransactionBytes;
    if |ts| > 0 && |ts'| > 0 { Canonical.TransactionsRootBinds(ts, ts'); }
  }

  lemma ReceiptsBound(rs: seq<Receipt>, rs': seq<Receipt>, hashed: set<seq<byte>>)
    requires |rs| <= U64_MAX && forall k :: 0 <= k < |rs| ==> Canonical.ReceiptFits(rs[k])
    requires |rs'| <= U64_MAX && forall k :: 0 <= k < |rs'| ==> Canonical.ReceiptFits(rs'[k])
    requires Canonical.ReceiptsRoot(rs) == Canonical.ReceiptsRoot(rs')
    requires Canonical.RootPreimage(Canonical.MapBytes(rs, Canonical.ReceiptBytes)) in hashed
    requires Canonical.RootPreimage(Canonical.MapBytes(rs', Canonical.ReceiptBytes)) in hashed
    ensures Broken(hashed) || rs == rs'
  {
    hide Canonical.RootPreimage, Canonical.ReceiptFits, Canonical.ReceiptBytes;
    if |rs| > 0 && |rs'| > 0 { Canonical.ReceiptsRootBinds(rs, rs'); }
  }

  /** Two blocks that are valid anywhere and have one header have the same receipts and
      the same transactions, or the bytes that were hashed break the hash. */
  lemma HeaderBindsBody(parent: BlockHeader, b: Block, genesis: Hash256, activation: Option<u64>,
                        parent': BlockHeader, b': Block, genesis': Hash256, activation': Option<u64>,
                        hashed: set<seq<byte>>)
    requires BlockVerdict(parent, b, genesis, activation).Valid? && Canonical.BlockFits(b)
    requires BlockVerdict(parent', b', genesis', activation').Valid? && Canonical.BlockFits(b')
    requires b.header == b'.header && BodyBytes(b) <= hashed && BodyBytes(b') <= hashed
    ensures Broken(hashed) || SameBlock(b, b')
  {
    hide BlockVerdict, Broken, Canonical.RootPreimage, Canonical.TransactionFits, Canonical.ReceiptFits,
      Canonical.HeaderBytes, Canonical.TransactionsRoot, Canonical.ReceiptsRoot, Canonical.RecoverableAll, WorkDone,
      SealFieldsRight, TransactionsRight, NextBaseFee, Canonical.HeaderHash;
    BlockVerdictExactly(parent, b, genesis, activation);
    BlockVerdictExactly(parent', b', genesis', activation');
    TransactionsBound(b.transactions, b'.transactions, hashed);
    ReceiptsBound(b.receipts, b'.receipts, hashed);
  }

  /** A chain, the header it grew from, and the rules it was validated by. */
  datatype History = History(parent: BlockHeader, chain: seq<Block>, genesis: Hash256, activation: Option<u64>) {
    function Tip(): BlockHeader {
      TipHeader(parent, chain)
    }

    function Before(): History
      requires |chain| > 0
    {
      this.(chain := chain[..|chain| - 1])
    }

    ghost function Bytes(): set<seq<byte>> {
      Hashed(parent, chain)
    }

    ghost predicate Sound() {
      ValidChain(parent, chain, genesis, activation) && |parent.powAlgorithm| <= U64_MAX &&
      forall k :: 0 <= k < |chain| ==> Canonical.BlockFits(chain[k])
    }
  }

  lemma BrokenInMore(hashed: set<seq<byte>>, more: set<seq<byte>>)
    requires hashed <= more && Broken(hashed)
    ensures Broken(more)
  {
  }

  lemma {:induction false} TipHashed(x: History)
    requires x.Sound()
    ensures Canonical.HeaderBytes(x.Tip()) in x.Bytes() && |x.Tip().powAlgorithm| <= U64_MAX
    ensures |x.chain| > 0 ==>
      x.Before().Sound() && x.Before().Bytes() <= x.Bytes() && Canonical.BlockFits(x.chain[|x.chain| - 1]) &&
      BlockVerdict(x.Before().Tip(), x.chain[|x.chain| - 1], x.genesis, x.activation).Valid? &&
      BodyBytes(x.chain[|x.chain| - 1]) <= x.Bytes()
  {
    hide Canonical.HeaderBytes, Canonical.RootPreimage, Canonical.MapBytes, BlockVerdict, Canonical.TransactionFits,
      Canonical.ReceiptFits;
  }

  lemma TipBound(x: History, y: History)
    requires x.Sound() && y.Sound() && Canonical.HeaderHash(x.Tip()) == Canonical.HeaderHash(y.Tip())
    ensures Broken(x.Bytes() + y.Bytes()) || x.Tip() == y.Tip()
  {
    hide History.Sound, History.Bytes, Canonical.HeaderHash, Canonical.HeaderBytes, Canonical.BlockFits, BlockVerdict;
    TipHashed(x);
    TipHashed(y);
    HeaderHashBinds(x.Tip(), y.Tip());
  }

  /** One step back: the last blocks are the same, and so are the hashes before them. */
  lemma StepBound(x: History, y: History)
    requires x.Sound() && y.Sound() && |x.chain| > 0 && |y.chain| > 0 && x.Tip() == y.Tip()
    ensures Broken(x.Bytes() + y.Bytes()) || SameBlock(x.chain[|x.chain| - 1], y.chain[|y.chain| - 1])
    ensures Canonical.HeaderHash(x.Before().Tip()) == Canonical.HeaderHash(y.Before().Tip())
  {
    hide History.Sound, History.Bytes, Canonical.HeaderHash, Canonical.HeaderBytes, Canonical.BlockFits, BlockVerdict,
      Broken, SameBlock, BodyBytes, SealFieldsRight, WorkDone, SizeAllowed, TransactionsRight, NextBaseFee;
    var b, c := x.chain[|x.chain| - 1], y.chain[|y.chain| - 1];
    TipHashed(x);
    TipHashed(y);
    HeaderBindsBody(x.Before().Tip(), b, x.genesis, x.activation, y.Before().Tip(), c, y.genesis, y.activation,
      x.Bytes() + y.Bytes());
    BlockVerdictExactly(x.Before().Tip(), b, x.genesis, x.activation);
    BlockVerdictExactly(y.Before().Tip(), c, y.genesis, y.activation);
  }

  /** Two valid chains of one length with the same tip hash grew from the same header
      by the same blocks, or the bytes hashed along them break the hash. */
  lemma {:induction false} TipHashBindsHistory(x: History, y: History)
    requires x.Sound() && y.Sound() && |x.chain| == |y.chain|
    requires Canonical.HeaderHash(x.Tip()) == Canonical.HeaderHash(y.Tip())
    ensures Broken(x.Bytes() + y.Bytes()) ||
      (x.parent == y.parent && forall k :: 0 <= k < |x.chain| ==> SameBlock(x.chain[k], y.chain[k]))
    decreases |x.chain|
  {
    hide Broken, SameBlock, History.Sound, History.Bytes, BlockVerdict, Canonical.HeaderHash, Canonical.HeaderBytes,
      Canonical.BlockFits, BodyBytes;
    TipBound(x, y);
    if |x.chain| > 0 && !Broken(x.Bytes() + y.Bytes()) {
      TipHashed(x);
      TipHashed(y);
      StepBound(x, y);
      TipHashBindsHistory(x.Before(), y.Before());
      if Broken(x.Before().Bytes() + y.Before().Bytes()) {
        BrokenInMore(x.Before().Bytes() + y.Before().Bytes(), x.Bytes() + y.Bytes());
      }
    }
  }
}
