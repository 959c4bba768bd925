/** The V2 block-time controller: one step, and runs of any length. */
module Difficulty {
  import opened Bytes
  import opened TargetArithmetic

  const FAST_MEDIAN_SECONDS: u64 := 3
  const SLOW_INTERVAL_SECONDS: u64 := 60
  const TARGET_SECONDS: u64 := 15
  const NORMAL_CAP_NUMERATOR: u64 := 17
  const NORMAL_CAP_DENOMINATOR: u64 := 16
  const SLOW_CAP_NUMERATOR: u64 := 9
  const SLOW_CAP_DENOMINATOR: u64 := 8

  function SaturatingMul(a: u64, b: u64): u64 {
    ProductFits(a, b);
    Min(U64_MAX, a * b)
  }

  /** The fraction a step multiplies by, in forty-eighths: the controller has
      exactly five speeds. Its proportional branch is only ever reached with a
      median of 15 seconds, where it changes nothing. */
  function Speed(median: u64, latest: u64): nat {
    if median < 3 then 36
    else if latest >= 60 then 54
    else if median < 15 then 45
    else if median == 15 then 48
    else 51
  }

  function StepV2(target: nat, median: u64, latest: u64): nat {
    Scaled(target, Speed(median, latest), 48)
  }

  method NextBlockDifficultyTargetV2(target: Hash256, median: u64, latest: u64) returns (next: Hash256)
    ensures BeNat(next) == StepV2(BeNat(target), median, latest)
  {
    var t := BeNat(target);
    BeNatBound(target);
    WordSizes();
    if median < FAST_MEDIAN_SECONDS {
      SameFraction(t, 75, 100, 36, 48);
      next := ScaleTargetFraction(target, 75, 100);
      return;
    }
    if latest >= SLOW_INTERVAL_SECONDS {
      SameFraction(t, 9, 8, 54, 48);
      next := ScaleTargetFraction(target, SLOW_CAP_NUMERATOR, SLOW_CAP_DENOMINATOR);
      return;
    }
    var numerator := SaturatingMul(median, NORMAL_CAP_DENOMINATOR);
    var denominator := SaturatingMul(TARGET_SECONDS, NORMAL_CAP_DENOMINATOR);
    if SaturatingMul(numerator, NORMAL_CAP_DENOMINATOR) < SaturatingMul(denominator, NORMAL_CAP_DENOMINATOR - 1) {
      SameFraction(t, 15, 16, 45, 48);
      next := ScaleTargetFraction(target, NORMAL_CAP_DENOMINATOR - 1, NORMAL_CAP_DENOMINATOR);
      return;
    }
    if SaturatingMul(numerator, NORMAL_CAP_DENOMINATOR) > SaturatingMul(denominator, NORMAL_CAP_NUMERATOR) {
      SameFraction(t, 17, 16, 51, 48);
      next := ScaleTargetFraction(target, NORMAL_CAP_NUMERATOR, NORMAL_CAP_DENOMINATOR);
      return;
    }
    assert median == 15;
    SameFraction(t, 240, 240, 48, 48);
    next := ScaleTarget(target, numerator, denominator);
  }

  lemma SameFraction(t: nat, n: nat, d: nat, n': nat, d': nat)
    requires d > 0 && d' > 0 && n * d' == n' * d
    ensures t * n / d == t * n' / d'
  {
    FractionAtMost(t, n, d, n', d');
    FractionAtMost(t, n', d', n, d);
  }

  lemma FractionAtMost(t: nat, n: nat, d: nat, n': nat, d': nat)
    requires d > 0 && d' > 0 && n * d' == n' * d
    ensures t * n / d <= t * n' / d'
  {
    var q := t * n / d;
    MulLe(q * d, t * n, d');
    CrossMultiply(t, n, d, n', d', q);
    MulLe(t * n' + 1, q * d', d);
    DivGalois(t * n', d', q);
  }

  lemma CrossMultiply(t: nat, n: nat, d: nat, n': nat, d': nat, q: nat)
    requires n * d' == n' * d
    ensures t * n * d' == t * n' * d
    ensures q * d * d' == q * d' * d
  {
    assert t * n * d' == t * (n * d') == t * (n' * d);
  }

  /** The five steps and where one gives way to the next. */
  lemma StepValues(t: nat, median: u64, latest: u64)
    requires t <= U256_MAX
    ensures median <= 2 ==> StepV2(t, median, latest) == 3 * t / 4
    ensures median >= 3 && latest >= 60 ==> StepV2(t, median, latest) == Min(U256_MAX, 9 * t / 8)
    ensures 3 <= median <= 14 && latest <= 59 ==> StepV2(t, median, latest) == 15 * t / 16
    ensures median == 15 && latest <= 59 ==> StepV2(t, median, latest) == t
    ensures median >= 16 && latest <= 59 ==> StepV2(t, median, latest) == Min(U256_MAX, 17 * t / 16)
  {
    SameFraction(t, 36, 48, 3, 4);
    SameFraction(t, 54, 48, 9, 8);
    SameFraction(t, 45, 48, 15, 16);
    SameFraction(t, 48, 48, 1, 1);
    SameFraction(t, 51, 48, 17, 16);
  }

  lemma ScaledMonotone(t: nat, n: nat, t': nat, n': nat, d: nat)
    requires d > 0 && t <= t' && n <= n'
    ensures Scaled(t, n, d) <= Scaled(t', n', d)
  {
    MulLe(t, t', n);
    MulLe(n, n', t');
    DivGalois(t' * n', d, t * n / d);
  }

  /** A slower chain never gets a harder target. */
  lemma StepMonotone(t: nat, median: u64, latest: u64, t': nat, median': u64, latest': u64)
    requires t <= t' && median <= median' && latest <= latest'
    ensures StepV2(t, median, latest) <= StepV2(t', median', latest')
  {
    ScaledMonotone(t, Speed(median, latest), t', Speed(median', latest'), 48);
  }

  lemma StepBounds(t: nat, median: u64, latest: u64)
    requires t <= U256_MAX
    ensures 3 * t / 4 <= StepV2(t, median, latest) <= Min(U256_MAX, 9 * t / 8)
  {
    SameFraction(t, 36, 48, 3, 4);
    SameFraction(t, 54, 48, 9, 8);
    ScaledMonotone(t, 36, t, Speed(median, latest), 48);
    ScaledMonotone(t, Speed(median, latest), t, 54, 48);
  }

  datatype Interval = Interval(median: u64, latest: u64)

  /** The target after a run of blocks with the given recent history each. */
  function RunV2(target: nat, history: seq<Interval>): nat {
    if |history| == 0 then target
    else
      var i := history[|history| - 1];
      StepV2(RunV2(target, history[..|history| - 1]), i.median, i.latest)
  }

  /** However a run goes, `n` blocks move the target by no more than the n-th
      power of the largest and of the smallest step. */
  lemma {:induction false} RunBounds(target: nat, history: seq<Interval>)
    requires target <= U256_MAX
    ensures RunV2(target, history) <= U256_MAX
    ensures RunV2(target, history) * Pow(8, |history|) <= target * Pow(9, |history|)
    ensures (target + 3) * Pow(3, |history|) <= (RunV2(target, history) + 3) * Pow(4, |history|)
  {
    if |history| > 0 {
      var n, i := |history| - 1, history[|history| - 1];
      var before, after := RunV2(target, history[..n]), RunV2(target, history);
      RunBounds(target, history[..n]);
      StepBounds(before, i.median, i.latest);
      CompoundAtMost(after, before, 8, 9, Pow(8, n), Pow(9, n), target);
      CompoundAtLeast(after + 3, before + 3, 4, 3, Pow(4, n), Pow(3, n), target + 3);
    }
  }

  /** Runs are monotone as a whole: a chain whose every block was at least as
      slow, started from at least as easy a target, ends at least as easy. */
  lemma {:induction false} RunMonotone(target: nat, history: seq<Interval>, target': nat, history': seq<Interval>)
    requires target <= target' && |history| == |history'|
    requires forall k :: 0 <= k < |history| ==>
      history[k].median <= history'[k].median && history[k].latest <= history'[k].latest
    ensures RunV2(target, history) <= RunV2(target', history')
  {
    if |history| > 0 {
      var n := |history| - 1;
      RunMonotone(target, history[..n], target', history'[..n]);
      StepMonotone(RunV2(target, history[..n]), history[n].median, history[n].latest,
                   RunV2(target', history'[..n]), history'[n].median, history'[n].latest);
    }
  }
}
