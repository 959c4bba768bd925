/** Header, block and transaction validation, with the base fee and the rewards. */
module Consensus {
  import opened Bytes
  import opened Primitives
  import opened TargetArithmetic
  import Canonical

  // ---- Proof of work ----

  datatype PowResult = PowResult(mixHash: Hash256, finalHash: Hash256)

  /** The memory-hard hash of a preimage in an epoch of a chain. */
  const RandomX: (seq<byte>, u64, Hash256) -> PowResult

  const POW_ALGORITHM: seq<byte> := [0x42, 0x4c, 0x51, 0x2d, 0x52, 0x58, 0x2f, 0x31]
  const POW_EPOCH_LENGTH: u64 := 2048

  function EpochForHeight(height: u64): u64 {
    height / POW_EPOCH_LENGTH
  }

  function BlqRxHash(h: BlockHeader, genesis: Hash256): PowResult {
    RandomX(Canonical.PowPreimage(h), EpochForHeight(h.number), genesis)
  }

  // ---- Validation ----

  datatype Error =
    | InvalidBlockNumber | InvalidTimestamp | GasUsedExceedsLimit | InvalidProofOfWorkFields | InvalidProofOfWork
    | InvalidParentHash | BlockTooLarge | ReceiptTransactionMismatch | InvalidTransactionsRoot | InvalidReceiptsRoot
    | InvalidBaseFee | InvalidTransactionChainId | UnsupportedTransactionType | TransactionPayloadTooLarge
    | AccessListTooLarge | MaxFeeBelowBaseFee | PriorityFeeExceedsMaxFee

  datatype Verdict = Valid | Invalid(error: Error)

  function Successor(n: u64): u64 {
    if n == U64_MAX then 0 else n + 1
  }

  function HeaderVerdict(parent: BlockHeader, child: BlockHeader, genesis: Hash256): Verdict {
    if child.number != Successor(parent.number) then Invalid(InvalidBlockNumber)
    else if child.timestampSeconds <= parent.timestampSeconds then Invalid(InvalidTimestamp)
    else if child.gasUsed > child.gasLimit then Invalid(GasUsedExceedsLimit)
    else if child.powAlgorithm != POW_ALGORITHM then Invalid(InvalidProofOfWorkFields)
    else if child.powEpoch != EpochForHeight(child.number) then Invalid(InvalidProofOfWorkFields)
    else if child.mixHash != BlqRxHash(child, genesis).mixHash then Invalid(InvalidProofOfWorkFields)
    else if !SatisfiesPow(BlqRxHash(child, genesis).finalHash, child.difficultyTarget) then Invalid(InvalidProofOfWork)
    else Valid
  }

  function StorageKeys(entries: seq<AccessListItem>): nat {
    if |entries| == 0 then 0 else |entries[0].storageKeys| + StorageKeys(entries[1..])
  }

  predicate AccessListOversized(entries: seq<AccessListItem>) {
    |entries| > MAX_ACCESS_LIST_ENTRIES ||
    (exists k :: 0 <= k < |entries| && |entries[k].storageKeys| > MAX_ACCESS_LIST_STORAGE_KEYS_PER_ENTRY) ||
    StorageKeys(entries) > MAX_ACCESS_LIST_STORAGE_KEYS
  }

  function FeeVerdict(t: Transaction, baseFee: u128): Verdict {
    if t.chainId != MAINNET_CHAIN_ID then Invalid(InvalidTransactionChainId)
    else if t.transactionType > 2 || (t.transactionType == 0 && |t.accessList| > 0) then
      Invalid(UnsupportedTransactionType)
    else if |t.payload| > MAX_TRANSACTION_PAYLOAD_BYTES then Invalid(TransactionPayloadTooLarge)
    else if AccessListOversized(t.accessList) then Invalid(AccessListTooLarge)
    else if t.maxFeePerGas < baseFee then Invalid(MaxFeeBelowBaseFee)
    else if t.maxPriorityFeePerGas > t.maxFeePerGas then Invalid(PriorityFeeExceedsMaxFee)
    else Valid
  }

  /** The verdict on the first transaction that fails. */
  function FeesVerdict(ts: seq<Transaction>, baseFee: u128): Verdict {
    if |ts| == 0 then Valid
    else if FeeVerdict(ts[0], baseFee).Invalid? then FeeVerdict(ts[0], baseFee)
    else FeesVerdict(ts[1..], baseFee)
  }

  /** `activation` is the height from which the size rule applies, if any. */
  function BlockVerdict(parent: BlockHeader, b: Block, genesis: Hash256, activation: Option<u64>): Verdict {
    var header := HeaderVerdict(parent, b.header, genesis);
    if header.Invalid? then header
    else if b.header.parentHash != Canonical.HeaderHash(parent) then Invalid(InvalidParentHash)
    else if activation.Some? && b.header.number >= activation.value && |Canonical.BlockBytes(b)| > MAX_BLOCK_BYTES then
      Invalid(BlockTooLarge)
    else if |b.transactions| != |b.receipts| then Invalid(ReceiptTransactionMismatch)
    else if b.header.transactionsRoot != Canonical.TransactionsRoot(b.transactions) then
      Invalid(InvalidTransactionsRoot)
    else if b.header.receiptsRoot != Canonical.ReceiptsRoot(b.receipts) then Invalid(InvalidReceiptsRoot)
    else if b.header.baseFeePerGas != NextBaseFee(parent) then Invalid(InvalidBaseFee)
    else FeesVerdict(b.transactions, b.header.baseFeePerGas)
  }

  /** The loop that stops at the first transaction with a bad fee or shape. */
  method ValidateTransactionFees(ts: seq<Transaction>, baseFee: u128) returns (v: Verdict)
    ensures v == FeesVerdict(ts, baseFee)
    ensures v.Valid? <==> forall k :: 0 <= k < |ts| ==> FeeVerdict(ts[k], baseFee).Valid?
  {
    assert ts[0..] == ts;
    for i := 0 to |ts|
      invariant FeesVerdict(ts, baseFee) == FeesVerdict(ts[i..], baseFee)
      invariant forall k :: 0 <= k < i ==> FeeVerdict(ts[k], baseFee).Valid?
    {
      assert ts[i..][1..] == ts[i + 1..];
      v := FeeVerdict(ts[i], baseFee);
      if v.Invalid? {
        return;
      }
    }
    v := Valid;
  }

  /** Every block passes validation on top of the one before it. */
  ghost predicate ValidChain(parent: BlockHeader, chain: seq<Block>, genesis: Hash256, activation: Option<u64>) {
    |chain| == 0 ||
    (ValidChain(parent, chain[..|chain| - 1], genesis, activation) &&
     BlockVerdict(TipHeader(parent, chain[..|chain| - 1]), chain[|chain| - 1], genesis, activation).Valid?)
  }

  function TipHeader(parent: BlockHeader, chain: seq<Block>): BlockHeader {
    if |chain| == 0 then parent else chain[|chain| - 1].header
  }

  /** What the economics below use of validation. */
  lemma LastBlockValid(parent: BlockHeader, chain: seq<Block>, genesis: Hash256, activation: Option<u64>)
    requires |chain| > 0 && ValidChain(parent, chain, genesis, activation)
    ensures var before := chain[..|chain| - 1];
      var p, c := TipHeader(parent, before), chain[|chain| - 1].header;
      ValidChain(parent, before, genesis, activation) && c.baseFeePerGas == NextBaseFee(p) &&
      c.timestampSeconds > p.timestampSeconds && c.gasUsed <= c.gasLimit
  {
    hide FeesVerdict, NextBaseFee, Canonical.HeaderHash, Canonical.BlockBytes, Canonical.TransactionsRoot,
      Canonical.ReceiptsRoot;
  }

  // ---- Base fee ----

  function TargetGas(gasLimit: u64): (target: u64)
    ensures target > 0
  {
    if gasLimit / 2 < 1 then 1 else gasLimit / 2
  }

  function Distance(a: nat, b: nat): nat {
    if a <= b then b - a else a - b
  }

  /** An eighth of the fee, in proportion to the distance from the gas target.
      The product is a 128-bit one. */
  function FeeChange(baseFee: u128, gasUsed: u64, gasLimit: u64): nat {
    var target := TargetGas(gasLimit);
    baseFee * Distance(gasUsed, target) % (U128_MAX + 1) / target / 8
  }

  function NextBaseFee(parent: BlockHeader): u128 {
    NextFee(parent.baseFeePerGas, parent.gasUsed, parent.gasLimit)
  }

  function NextFee(baseFee: u128, gasUsed: u64, gasLimit: u64): u128 {
    var target := TargetGas(gasLimit);
    var change := FeeChange(baseFee, gasUsed, gasLimit);
    if gasUsed == target then baseFee
    else if gasUsed > target then Min(U128_MAX, baseFee + if change < 1 then 1 else change)
    else if change >= baseFee then 0 else baseFee - change
  }

  ghost predicate ProductFits128(baseFee: u128, gasUsed: u64, gasLimit: u64) {
    baseFee * Distance(gasUsed, TargetGas(gasLimit)) <= U128_MAX
  }

  lemma DivMonotone(a: nat, b: nat, d: nat)
    requires d > 0 && a <= b
    ensures 0 <= a / d <= b / d
  {
    DivGalois(a, d, 0);
    DivGalois(b, d, a / d);
  }

  lemma ChangeIs(baseFee: u128, gasUsed: u64, gasLimit: u64)
    ensures var exact := baseFee * Distance(gasUsed, TargetGas(gasLimit)) / TargetGas(gasLimit) / 8;
      0 <= FeeChange(baseFee, gasUsed, gasLimit) <= exact &&
      (ProductFits128(baseFee, gasUsed, gasLimit) ==> FeeChange(baseFee, gasUsed, gasLimit) == exact)
  {
    hide TargetGas, Distance;
    var target := TargetGas(gasLimit);
    var p := baseFee * Distance(gasUsed, target);
    MulLe(0, baseFee, Distance(gasUsed, target));
    WrappedProduct(p);
    DivMonotone(p % (U128_MAX + 1), p, target);
    DivMonotone(p % (U128_MAX + 1) / target, p / target, 8);
  }

  lemma WrappedProduct(p: nat)
    ensures 0 <= p % (U128_MAX + 1) <= p && (p <= U128_MAX ==> p % (U128_MAX + 1) == p)
  {
  }

  /** Further from the target is never a smaller change. */
  lemma ChangeMonotone(baseFee: u128, used: u64, used': u64, gasLimit: u64)
    requires ProductFits128(baseFee, used, gasLimit) && ProductFits128(baseFee, used', gasLimit)
    requires Distance(used, TargetGas(gasLimit)) <= Distance(used', TargetGas(gasLimit))
    ensures FeeChange(baseFee, used, gasLimit) <= FeeChange(baseFee, used', gasLimit)
  {
    hide TargetGas, Distance, FeeChange, ProductFits128;
    var target := TargetGas(gasLimit);
    var d, d' := Distance(used, target), Distance(used', target);
    ChangeIs(baseFee, used, gasLimit);
    ChangeIs(baseFee, used', gasLimit);
    EighthMonotone(baseFee, d, d', target);
  }

  lemma EighthMonotone(baseFee: nat, d: nat, d': nat, target: nat)
    requires d <= d' && target > 0
    ensures baseFee * d / target / 8 <= baseFee * d' / target / 8
  {
    MulLe(0, baseFee, d);
    MulLe(d, d', baseFee);
    DivMonotone(baseFee * d, baseFee * d', target);
    DivMonotone(baseFee * d / target, baseFee * d' / target, 8);
  }

  /** A fuller parent block never lowers the next fee. */
  lemma FeeMonotoneInGasUsed(baseFee: u128, used: u64, used': u64, gasLimit: u64)
    requires used <= used'
    requires ProductFits128(baseFee, used, gasLimit) && ProductFits128(baseFee, used', gasLimit)
    ensures NextFee(baseFee, used, gasLimit) <= NextFee(baseFee, used', gasLimit)
  {
    var target := TargetGas(gasLimit);
    if used >= target {
      ChangeMonotone(baseFee, used, used', gasLimit);
    } else if used' <= target {
      ChangeMonotone(baseFee, used', used, gasLimit);
    }
  }

  /** The furthest a block's gas can be from the target. */
  function MaxDistance(gasLimit: u64): nat {
    if gasLimit < 2 then 1 else gasLimit - TargetGas(gasLimit)
  }

  /** For every fee below 2^127 the next fee is monotone in the gas used, over all
      blocks with that gas limit, exactly when no 128-bit product wraps around. */
  lemma FeeMonotoneExactly(baseFee: u128, gasLimit: u64)
    requires 2 * baseFee <= U128_MAX
    ensures (forall used: u64, used': u64 :: used <= used' <= gasLimit ==>
              NextFee(baseFee, used, gasLimit) <= NextFee(baseFee, used', gasLimit))
       <==> baseFee * MaxDistance(gasLimit) <= U128_MAX
  {
    hide NextFee, MaxDistance, TargetGas, Distance;
    if baseFee * MaxDistance(gasLimit) <= U128_MAX {
      forall used: u64, used': u64 | used <= used' <= gasLimit
        ensures NextFee(baseFee, used, gasLimit) <= NextFee(baseFee, used', gasLimit)
      {
        FitsWithin(baseFee, used, gasLimit);
        FitsWithin(baseFee, used', gasLimit);
        FeeMonotoneInGasUsed(baseFee, used, used', gasLimit);
      }
    } else {
      var q := LastFit(baseFee, MaxDistance(gasLimit));
      WrapLowersFee(baseFee, q, gasLimit);
      var used: u64 := TargetGas(gasLimit) + q;
      assert NextFee(baseFee, used, gasLimit) > NextFee(baseFee, used + 1, gasLimit);
    }
  }

  lemma FitsWithin(baseFee: u128, used: u64, gasLimit: u64)
    requires used <= gasLimit && baseFee * MaxDistance(gasLimit) <= U128_MAX
    ensures ProductFits128(baseFee, used, gasLimit)
  {
    MulLe(Distance(used, TargetGas(gasLimit)), MaxDistance(gasLimit), baseFee);
  }

  /** The largest factor for which the product still fits. */
  lemma LastFit(baseFee: u128, distance: nat) returns (q: nat)
    requires 2 * baseFee <= U128_MAX && baseFee * distance > U128_MAX
    ensures 2 <= q < distance && baseFee * q <= U128_MAX < baseFee * (q + 1)
  {
    assert baseFee > 0;
    q := U128_MAX / baseFee;
    DivGalois(U128_MAX, baseFee, 2);
    DivGalois(U128_MAX, baseFee, distance);
    DivGalois(U128_MAX, baseFee, q);
    DivGalois(U128_MAX, baseFee, q + 1);
  }

  lemma WrapLowersFee(baseFee: u128, q: nat, gasLimit: u64)
    requires 2 * baseFee <= U128_MAX && 2 <= q < MaxDistance(gasLimit)
    requires baseFee * q <= U128_MAX < baseFee * (q + 1)
    ensures var used: nat := TargetGas(gasLimit) + q;
      used + 1 <= gasLimit && NextFee(baseFee, used, gasLimit) > NextFee(baseFee, used + 1, gasLimit)
  {
    var target: nat := TargetGas(gasLimit);
    var high, low := baseFee * q, baseFee * (q + 1) - (U128_MAX + 1);
    assert baseFee * (q + 1) == high + baseFee;
    DivUnique(baseFee * (q + 1), U128_MAX + 1, 1, low);
    DivUnique(high, U128_MAX + 1, 0, high);
    assert FeeChange(baseFee, target + q, gasLimit) == high / target / 8;
    assert FeeChange(baseFee, target + q + 1, gasLimit) == low / target / 8;
    hide FeeChange;
    EightTargets(high, low, target);
  }

  lemma EightTargets(high: nat, low: nat, target: nat)
    requires 0 < target && low + 16 * target <= high
    ensures 0 <= low / target / 8 < high / target / 8 && 2 <= high / target / 8 && 8 * (high / target / 8) <= high
  {
    DivUnique(low + 16 * target, target, low / target + 16, low % target);
    DivGalois(low, target, 0);
    DivMonotone(low + 16 * target, high, target);
    DivGalois(high, target, high + 1);
    MulLe(1, target, high + 1);
  }

  /** Where the product wraps around, a fuller block can lower the fee. */
  lemma WrappedProductNotMonotone()
    ensures var fee: u128 := 0x4000_0000_0000_0000_0000_0000_0000_0000;
      NextFee(fee, 7, 8) > NextFee(fee, 8, 8)
  {
  }

  /** Within one target of the target, the change is at most an eighth, wrapped or not. */
  lemma ChangeAtMostAnEighth(baseFee: u128, used: u64, gasLimit: u64)
    requires used <= 2 * TargetGas(gasLimit)
    ensures 0 <= FeeChange(baseFee, used, gasLimit) <= baseFee / 8
  {
    var target := TargetGas(gasLimit);
    var d := Distance(used, target);
    hide FeeChange, TargetGas, ProductFits128;
    ChangeIs(baseFee, used, gasLimit);
    EighthMonotone(baseFee, d, target, target);
    DivUnique(baseFee * target, target, baseFee, 0);
  }

  lemma FeeFloor(baseFee: u128, used: u64, gasLimit: u64)
    ensures 7 * baseFee <= 8 * NextFee(baseFee, used, gasLimit)
    ensures baseFee >= 7 ==> NextFee(baseFee, used, gasLimit) >= 7
  {
    hide FeeChange;
    ChangeIs(baseFee, used, gasLimit);
    if used < TargetGas(gasLimit) {
      ChangeAtMostAnEighth(baseFee, used, gasLimit);
    }
  }

  lemma FeeCeiling(baseFee: u128, used: u64, gasLimit: u64)
    requires used <= 2 * TargetGas(gasLimit)
    ensures 8 * (NextFee(baseFee, used, gasLimit) + 8) <= 9 * (baseFee + 8)
  {
    hide FeeChange;
    ChangeAtMostAnEighth(baseFee, used, gasLimit);
  }

  /** The least fee that a block of twice the target and one more can push over. */
  function LeastBreaking(target: nat): nat {
    9 * target + 7 - target % 8
  }

  /** The ceiling holds for every fee exactly when the block used at most twice the
      gas target, which an odd gas limit lets a full block exceed, or when the target
      is so large that every fee it could break for wraps the product around. */
  lemma FeeCeilingExactly(used: u64, gasLimit: u64)
    requires used <= gasLimit
    ensures (forall fee: u128 :: 8 * (NextFee(fee, used, gasLimit) + 8) <= 9 * (fee + 8))
       <==> used <= 2 * TargetGas(gasLimit) || LeastBreaking(TargetGas(gasLimit)) * (TargetGas(gasLimit) + 1) > U128_MAX
  {
    hide NextFee, LeastBreaking;
    var target: nat := TargetGas(gasLimit);
    if used <= 2 * target {
      forall fee: u128 ensures 8 * (NextFee(fee, used, gasLimit) + 8) <= 9 * (fee + 8) {
        FeeCeiling(fee, used, gasLimit);
      }
    } else if LeastBreaking(target) * (target + 1) > U128_MAX {
      forall fee: u128 ensures 8 * (NextFee(fee, used, gasLimit) + 8) <= 9 * (fee + 8) {
        CeilingOutOfReach(fee, used, gasLimit);
      }
    } else {
      CeilingBroken(used, gasLimit);
      BreakingFits(target);
      assert 8 * (NextFee(LeastBreaking(target), used, gasLimit) + 8) > 9 * (LeastBreaking(target) + 8);
    }
  }

  lemma BreakingFits(target: nat)
    requires LeastBreaking(target) * (target + 1) <= U128_MAX
    ensures LeastBreaking(target) <= U128_MAX
  {
    MulLe(1, target + 1, LeastBreaking(target));
  }

  lemma CeilingBroken(used: u64, gasLimit: u64)
    requires 2 * TargetGas(gasLimit) < used <= gasLimit
    requires LeastBreaking(TargetGas(gasLimit)) * (TargetGas(gasLimit) + 1) <= U128_MAX
    ensures LeastBreaking(TargetGas(gasLimit)) <= U128_MAX
    ensures var fee := LeastBreaking(TargetGas(gasLimit)); 8 * (NextFee(fee, used, gasLimit) + 8) > 9 * (fee + 8)
  {
    var target: nat := TargetGas(gasLimit);
    var fee := LeastBreaking(target);
    BreakingFits(target);
    assert used - target == target + 1;
    ChangeIs(fee, used, gasLimit);
    hide FeeChange;
    var change := FeeChange(fee, used, gasLimit);
    assert change == fee * (target + 1) / target / 8;
    NineOver(fee, target);
  }

  lemma NineOver(fee: nat, target: nat)
    requires target > 0 && fee == LeastBreaking(target)
    ensures var change := fee * (target + 1) / target / 8;
      fee + 9 <= 8 * change && fee + change <= fee * (target + 1)
  {
    var p := fee * (target + 1);
    assert 9 * target <= fee;
    hide LeastBreaking;
    QuotientNineOver(fee, target, p);
    EighthOfNineOver(fee, target, p, p / target);
  }

  lemma QuotientNineOver(fee: nat, target: nat, p: nat)
    requires 0 < target && 9 * target <= fee && p == fee * (target + 1)
    ensures fee + 9 <= p / target <= p && 2 * fee <= p
  {
    var product := fee * target;
    assert p == product + fee;
    MulLe(1, target, fee);
    assert (fee + 9) * target == product + 9 * target;
    DivGalois(p, target, fee + 9);
    MulLe(1, target, p + 1);
    DivGalois(p, target, p + 1);
  }

  lemma EighthOfNineOver(fee: nat, target: nat, p: nat, q: nat)
    requires fee == LeastBreaking(target) && fee + 9 <= q <= p && 2 * fee <= p
    ensures fee + 9 <= 8 * (q / 8) && fee + q / 8 <= p
  {
    assert fee == 8 * (target + target / 8) + 7;
  }

  lemma CeilingOutOfReach(fee: u128, used: u64, gasLimit: u64)
    requires 2 * TargetGas(gasLimit) < used <= gasLimit
    requires LeastBreaking(TargetGas(gasLimit)) * (TargetGas(gasLimit) + 1) > U128_MAX
    ensures 8 * (NextFee(fee, used, gasLimit) + 8) <= 9 * (fee + 8)
  {
    var target: nat := TargetGas(gasLimit);
    assert used - target == target + 1;
    assert FeeChange(fee, used, gasLimit) == fee * (target + 1) % (U128_MAX + 1) / target / 8;
    hide FeeChange, LeastBreaking;
    BreakingFee(fee, target);
  }

  /** A fee that breaks the ceiling is at least the least one, and does not wrap. */
  lemma BreakingFee(fee: u128, target: nat)
    requires target > 0
    ensures 8 * (fee * (target + 1) % (U128_MAX + 1) / target / 8) > fee + 8 ==>
      LeastBreaking(target) * (target + 1) <= U128_MAX
  {
    var x := fee * (target + 1);
    var p := x % (U128_MAX + 1);
    var change := p / target / 8;
    assert x == fee * target + fee;
    if 8 * change >= fee + 9 {
      DivGalois(p, target, fee + 9);
      assert (fee + 9) * target == fee * target + 9 * target;
      NotWrapped(x, fee, fee * target, target);
      DivGalois(x, target, fee + 10);
      AtLeastLeast(fee, target, x);
    }
  }

  lemma NotWrapped(x: nat, fee: u128, product: nat, target: nat)
    requires x == product + fee && product + 9 * target <= x % (U128_MAX + 1)
    ensures x <= U128_MAX && 9 * target <= fee
  {
  }

  lemma AtLeastLeast(fee: nat, target: nat, x: nat)
    requires target > 0 && x == fee * target + fee && x <= U128_MAX && 9 * target <= fee
    requires fee + 9 <= 8 * (x / target / 8)
    ensures LeastBreaking(target) * (target + 1) <= U128_MAX
  {
    var least := LeastBreaking(target);
    if target < 8 {
      MulLe(target + 1, 8, least);
    } else {
      assert (fee + 10) * target == fee * target + 10 * target;
      DivGalois(x, target, fee + 10);
      LeastOfItsKind(fee, target, x / target);
      MulLe(least, fee, target + 1);
    }
  }

  lemma LeastOfItsKind(fee: nat, target: nat, q: nat)
    requires 9 * target <= fee && fee + 9 <= 8 * (q / 8) && target >= 8
    requires fee < 10 * target ==> q < fee + 10
    ensures LeastBreaking(target) <= fee
  {
    if fee < 10 * target {
      assert fee + 9 == 8 * (q / 8);
      assert LeastBreaking(target) == 8 * (target + target / 8) + 7;
    }
  }

  ghost predicate EvenGasLimits(parent: BlockHeader, chain: seq<Block>) {
    forall k :: 0 <= k < |chain| ==>
      TipHeader(parent, chain[..k]).gasLimit % 2 == 0
  }

  /** Over any validated chain of n blocks the fee shrinks by no more than (7/8)^n,
      and a fee of at least 7 never falls below 7 again. */
  lemma {:induction false} ChainFeeFloor(parent: BlockHeader, chain: seq<Block>, genesis: Hash256,
    activation: Option<u64>)
    requires ValidChain(parent, chain, genesis, activation)
    ensures var fee := TipHeader(parent, chain).baseFeePerGas;
      parent.baseFeePerGas * Pow(7, |chain|) <= fee * Pow(8, |chain|) && (parent.baseFeePerGas >= 7 ==> fee >= 7)
  {
    hide BlockVerdict, ValidChain;
    if |chain| > 0 {
      LastBlockValid(parent, chain, genesis, activation);
      var n := |chain| - 1;
      var p := TipHeader(parent, chain[..n]);
      ChainFeeFloor(parent, chain[..n], genesis, activation);
      FeeFloor(p.baseFeePerGas, p.gasUsed, p.gasLimit);
      CompoundAtLeast(TipHeader(parent, chain).baseFeePerGas, p.baseFeePerGas, 8, 7, Pow(8, n), Pow(7, n),
        parent.baseFeePerGas);
    }
  }

  /** And with even gas limits it grows by no more than (9/8)^n. */
  lemma {:induction false} ChainFeeCeiling(parent: BlockHeader, chain: seq<Block>, genesis: Hash256,
    activation: Option<u64>)
    requires ValidChain(parent, chain, genesis, activation) && EvenGasLimits(parent, chain)
    requires parent.gasUsed <= parent.gasLimit
    ensures TipHeader(parent, chain).gasUsed <= TipHeader(parent, chain).gasLimit
    ensures (TipHeader(parent, chain).baseFeePerGas + 8) * Pow(8, |chain|) <=
            (parent.baseFeePerGas + 8) * Pow(9, |chain|)
  {
    hide BlockVerdict, ValidChain;
    if |chain| > 0 {
      LastBlockValid(parent, chain, genesis, activation);
      var n := |chain| - 1;
      var p := TipHeader(parent, chain[..n]);
      assert EvenGasLimits(parent, chain[..n]) by {
        assert forall k :: 0 <= k < n ==> chain[..n][..k] == chain[..k];
      }
      ChainFeeCeiling(parent, chain[..n], genesis, activation);
      FeeCeiling(p.baseFeePerGas, p.gasUsed, p.gasLimit);
      CompoundAtMost(TipHeader(parent, chain).baseFeePerGas + 8, p.baseFeePerGas + 8, 8, 9, Pow(8, n), Pow(9, n),
                     parent.baseFeePerGas + 8);
    }
  }

  // ---- Issuance ----

  const BIX_PER_BLQ: u128 := 1_000_000_000_000_000_000
  const DIFFICULTY_ADJUSTMENT_INTERVAL: u64 := 60
  const MAX_REWARD_INTERVAL_SECONDS: u64 := 120

  function BlockReward(number: u64): u128 {
    if number == 0 then 0
    else if number % DIFFICULTY_ADJUSTMENT_INTERVAL == 0 then BIX_PER_BLQ / 60 + BIX_PER_BLQ % 60
    else BIX_PER_BLQ / 60
  }

  function RewardForInterval(parentTime: u64, childTime: u64): u128 {
    var elapsed := if childTime <= parentTime then 0 else Min(MAX_REWARD_INTERVAL_SECONDS, childTime - parentTime);
    BIX_PER_BLQ * elapsed / 600
  }

  function ScheduledIssuance(height: u64): nat {
    if height == 0 then 0 else ScheduledIssuance(height - 1) + BlockReward(height)
  }

  function TimedIssuance(parent: BlockHeader, chain: seq<Block>): nat {
    if |chain| == 0 then 0
    else
      var before := chain[..|chain| - 1];
      TimedIssuance(parent, before) +
      RewardForInterval(TipHeader(parent, before).timestampSeconds, chain[|chain| - 1].header.timestampSeconds)
  }

  lemma {:induction false} WithinInterval(k: nat, j: nat)
    requires j < 60 && 60 * k + j <= U64_MAX
    ensures ScheduledIssuance(60 * k + j) == ScheduledIssuance(60 * k) + j * (BIX_PER_BLQ / 60)
  {
    if j > 0 {
      WithinInterval(k, j - 1);
      DivUnique(60 * k + j, 60, k, j);
    }
  }

  /** The per-height schedule issues one BLQ in every sixty blocks, exactly. */
  lemma {:induction false} ScheduleIsExact(k: nat)
    requires 60 * k <= U64_MAX
    ensures ScheduledIssuance(60 * k) == k * BIX_PER_BLQ
  {
    if k > 0 {
      ScheduleIsExact(k - 1);
      WithinInterval(k - 1, 59);
    }
  }

  /** Time-based rewards follow the clock of a validated chain: never ahead of one
      BLQ per ten minutes, and behind it only by rounding and by gaps over the cap. */
  lemma {:induction false} IssuanceFollowsTime(parent: BlockHeader, chain: seq<Block>, genesis: Hash256,
    activation: Option<u64>)
    requires ValidChain(parent, chain, genesis, activation)
    ensures var elapsed := TipHeader(parent, chain).timestampSeconds - parent.timestampSeconds;
      0 <= elapsed && 600 * TimedIssuance(parent, chain) <= BIX_PER_BLQ * elapsed
    ensures (forall k :: 0 <= k < |chain| ==>
        chain[k].header.timestampSeconds <= TipHeader(parent, chain[..k]).timestampSeconds +
          MAX_REWARD_INTERVAL_SECONDS) ==>
      600 * TimedIssuance(parent, chain) >=
        BIX_PER_BLQ * (TipHeader(parent, chain).timestampSeconds - parent.timestampSeconds) - 599 * |chain|
  {
    hide BlockVerdict, ValidChain;
    if |chain| > 0 {
      LastBlockValid(parent, chain, genesis, activation);
      var n := |chain| - 1;
      assert forall k :: 0 <= k < n ==> chain[..n][..k] == chain[..k] && chain[..n][k] == chain[k];
      IssuanceFollowsTime(parent, chain[..n], genesis, activation);
    }
  }
}
