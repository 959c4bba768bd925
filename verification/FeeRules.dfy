/** The base fee as EIP-1559 states it, by inequalities, and its decay over empty blocks. */
module FeeRules {
  import opened Bytes
  import opened Primitives
  import opened Consensus

  /** Half the gas limit, and at least one. */
  ghost predicate IsTarget(target: nat, gasLimit: u64) {
    if gasLimit < 2 then target == 1 else 2 * target <= gasLimit < 2 * target + 2
  }

  /** A product that lost `wraps` times 2^128. */
  ghost predicate IsProduct128(p: u128, wraps: nat, fee: nat, distance: nat) {
    p + wraps * 0x1_0000_0000_0000_0000_0000_0000_0000_0000 == fee * distance
  }

  /** `step` is the product over eight targets, rounded down. */
  ghost predicate IsEighth(step: nat, p: nat, target: nat) {
    8 * target * step <= p < 8 * target * (step + 1)
  }

  lemma EighthOf(p: nat, target: nat)
    requires target > 0
    ensures 0 <= p / target / 8 && IsEighth(p / target / 8, p, target)
  {
    var q := p / target;
    DivGalois(p, target, 0);
    var step := q / 8;
    DivGalois(p, target, 8 * step);
    DivGalois(p, target, 8 * (step + 1));
    assert 8 * step * target == 8 * target * step && 8 * (step + 1) * target == 8 * target * (step + 1);
  }

  lemma ChangeIsEighth(fee: u128, used: u64, gasLimit: u64, target: nat, p: u128, wraps: nat)
    requires IsTarget(target, gasLimit)
    requires IsProduct128(p, wraps, fee, if used < target then target - used else used - target)
    ensures target == TargetGas(gasLimit) && FeeChange(fee, used, gasLimit) == p / target / 8
  {
    DivUnique(fee * Distance(used, target), U128_MAX + 1, wraps, p);
  }

  /** At the target the fee stays. */
  lemma FeeStays(fee: u128, used: u64, gasLimit: u64)
    requires IsTarget(used, gasLimit)
    ensures NextFee(fee, used, gasLimit) == fee
  {
    hide FeeChange;
  }

  /** Below the target the fee falls by an eighth of itself in proportion to the
      distance, rounded down: for every fee, with the product as 128 bits keep it. */
  lemma FeeFalls(fee: u128, used: u64, gasLimit: u64, target: nat, p: u128, wraps: nat)
    requires IsTarget(target, gasLimit) && used < target && IsProduct128(p, wraps, fee, target - used)
    ensures NextFee(fee, used, gasLimit) <= fee && IsEighth(fee - NextFee(fee, used, gasLimit), p, target)
  {
    hide FeeChange, IsEighth, IsProduct128;
    ChangeIsEighth(fee, used, gasLimit, target, p, wraps);
    ChangeAtMostAnEighth(fee, used, gasLimit);
    EighthOf(p, target);
  }

  /** Above the target it rises likewise, by at least one, and stops at the largest
      128-bit number. */
  lemma FeeRises(fee: u128, used: u64, gasLimit: u64, target: nat, p: u128, wraps: nat)
    requires IsTarget(target, gasLimit) && used > target && IsProduct128(p, wraps, fee, used - target)
    ensures p < 8 * target ==> NextFee(fee, used, gasLimit) == if fee < U128_MAX then fee + 1 else U128_MAX
    ensures p >= 8 * target ==>
      exists step: nat :: IsEighth(step, p, target) && step >= 1 &&
        NextFee(fee, used, gasLimit) == Min(U128_MAX, fee + step)
  {
    hide FeeChange, IsProduct128;
    ChangeIsEighth(fee, used, gasLimit, target, p, wraps);
    EighthOf(p, target);
    var step := p / target / 8;
    assert IsEighth(step, p, target);
    EighthIsPositive(step, p, target);
  }

  lemma EighthIsPositive(step: nat, p: nat, target: nat)
    requires IsEighth(step, p, target) && target > 0
    ensures step >= 1 <==> p >= 8 * target
  {
    if step >= 1 { MulLe(1, step, 8 * target); }
  }

  /** The rounded step is the only one: the inequalities fix the fee. */
  lemma EighthIsUnique(step: nat, step': nat, p: nat, target: nat)
    requires IsEighth(step, p, target) && IsEighth(step', p, target) && target > 0
    ensures step == step'
  {
    MulLe(step + 1, step', 8 * target);
    MulLe(step' + 1, step, 8 * target);
  }

  // ---- Whole chains ----

  /** After an empty block the fee is an eighth lower, rounded up, where the product
      fits 128 bits. */
  lemma EmptyBlockStep(fee: u128, gasLimit: u64, target: nat)
    requires IsTarget(target, gasLimit) && fee * target <= U128_MAX
    ensures var next := NextFee(fee, 0, gasLimit); next <= fee && 7 * fee <= 8 * next <= 7 * fee + 7
  {
    hide NextFee, IsEighth;
    MulLe(0, fee, target);
    FeeFalls(fee, 0, gasLimit, target, fee * target, 0);
    EighthOfMultiple(fee - NextFee(fee, 0, gasLimit), fee, target);
  }

  lemma EighthOfMultiple(step: nat, fee: nat, target: nat)
    requires target > 0 && IsEighth(step, fee * target, target)
    ensures 8 * step <= fee < 8 * step + 8
  {
    assert 8 * target * step == 8 * step * target && 8 * target * (step + 1) == (8 * step + 8) * target;
    MulLe(fee + 1, 8 * step, target);
    MulLe(8 * step + 8, fee, target);
  }

  ghost predicate NoGas(parent: BlockHeader, chain: seq<Block>) {
    forall k :: 0 <= k < |chain| ==> TipHeader(parent, chain[..k]).gasUsed == 0
  }

  /** No product of the first fee with a gas target on the way wraps around. */
  ghost predicate NoWrap(parent: BlockHeader, chain: seq<Block>) {
    forall k :: 0 <= k < |chain| ==>
      parent.baseFeePerGas * TargetGas(TipHeader(parent, chain[..k]).gasLimit) <= U128_MAX
  }

  /** Over n blocks that follow empty ones the part of the fee above 7 shrinks to at
      most (7/8)^n of itself; a fee of at most 7 stays. */
  lemma {:induction false} EmptyBlocksLowerFee(parent: BlockHeader, chain: seq<Block>, genesis: Hash256,
    activation: Option<u64>)
    requires ValidChain(parent, chain, genesis, activation) && NoGas(parent, chain) && NoWrap(parent, chain)
    ensures var fee, start := TipHeader(parent, chain).baseFeePerGas, parent.baseFeePerGas;
      fee <= start && (start <= 7 ==> fee == start) &&
      (start >= 7 ==> fee >= 7 && (fee - 7) * Pow(8, |chain|) <= (start - 7) * Pow(7, |chain|))
  {
    hide BlockVerdict, ValidChain, NextFee, TargetGas;
    if |chain| > 0 {
      LastBlockValid(parent, chain, genesis, activation);
      var n, start := |chain| - 1, parent.baseFeePerGas;
      var p := TipHeader(parent, chain[..n]);
      assert forall k :: 0 <= k < n ==> chain[..n][..k] == chain[..k];
      EmptyBlocksLowerFee(parent, chain[..n], genesis, activation);
      MulLe(p.baseFeePerGas, start, TargetGas(p.gasLimit));
      TargetIs(p.gasLimit);
      EmptyBlockStep(p.baseFeePerGas, p.gasLimit, TargetGas(p.gasLimit));
      if start >= 7 {
        CompoundAtMost(TipHeader(parent, chain).baseFeePerGas - 7, p.baseFeePerGas - 7, 8, 7, Pow(8, n), Pow(7, n),
                       start - 7);
      }
    }
  }

  lemma TargetIs(gasLimit: u64)
    ensures IsTarget(TargetGas(gasLimit), gasLimit)
  {
  }
}
