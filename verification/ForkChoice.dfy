/** Work of a target, the order on branch tips and the best recovery candidate. */
module ForkChoice {
  import opened Bytes
  import TargetArithmetic

  type u256 = x: int | 0 <= x <= U256_MAX

  /** Expected hashes for one block: floor(2^256 / (target + 1)), held in a u128. */
  function Work(target: u256): (work: u128)
    ensures work > 0
  {
    DivGalois(U256_MAX + 1, target + 1, 1);
    Min(U128_MAX, (U256_MAX + 1) / (target + 1))
  }

  lemma TargetFits(target: Hash256)
    ensures BeNat(target) <= U256_MAX
  {
    BeNatBound(target);
    WordSizes();
  }

  function WorkOf(target: Hash256): u128 {
    TargetFits(target);
    Work(BeNat(target))
  }

  /** The 256-bit computation: 2^256 itself is not representable, so the quotient
      of 2^256 - 1 is corrected when the hidden increment completes a divisor. */
  method WorkForTarget(target: Hash256) returns (work: u128)
    ensures work == WorkOf(target)
  {
    TargetFits(target);
    LexIsNumeric(target, TargetArithmetic.MAX_TARGET);
    TargetArithmetic.MaxTargetValue();
    if target == TargetArithmetic.MAX_TARGET {
      DivUnique(U256_MAX + 1, U256_MAX + 1, 1, 0);
      return 1;
    }
    var denominator: u256 := BeNat(target) + 1;
    QuotientFits(denominator);
    var quotient: u256 := U256_MAX / denominator;
    HiddenIncrement(denominator);
    if U256_MAX % denominator == denominator - 1 && quotient != U256_MAX {
      quotient := quotient + 1;
    }
    if quotient > U128_MAX {
      work := U128_MAX;
    } else {
      work := if quotient < 1 then 1 else quotient;
    }
  }

  lemma QuotientFits(d: nat)
    requires d > 0
    ensures 0 <= U256_MAX / d <= U256_MAX
    ensures U256_MAX / d == U256_MAX ==> d == 1
  {
    DivGalois(U256_MAX, d, 0);
    DivGalois(U256_MAX, d, U256_MAX + 1);
    DivGalois(U256_MAX, d, U256_MAX);
    MulLe(1, d, U256_MAX + 1);
    MulLe(2, d, U256_MAX);
  }

  lemma HiddenIncrement(d: nat)
    requires d > 0
    ensures (U256_MAX + 1) / d == U256_MAX / d + (if U256_MAX % d == d - 1 then 1 else 0)
  {
    var q, r := U256_MAX / d, U256_MAX % d;
    if r == d - 1 {
      DivUnique(U256_MAX + 1, d, q + 1, 0);
    } else {
      DivUnique(U256_MAX + 1, d, q, r + 1);
    }
  }

  /** The work is the number of tries a hash takes on average to meet the target: out of
      2^256 hashes, target + 1 do. */
  lemma WorkIs(target: Hash256)
    ensures var hits, work := BeNat(target) + 1, WorkOf(target);
      work * hits <= U256_MAX + 1 && (work < U128_MAX ==> U256_MAX + 1 < (work + 1) * hits)
  {
    TargetFits(target);
    var hits := BeNat(target) + 1;
    var q := (U256_MAX + 1) / hits;
    DivGalois(U256_MAX + 1, hits, 0);
    DivGalois(U256_MAX + 1, hits, q);
    DivGalois(U256_MAX + 1, hits, q + 1);
    MulLe(Min(U128_MAX, q), q, hits);
  }

  /** A harder (smaller) target is never worth less work. */
  lemma WorkAntitone(t: u256, t': u256)
    requires t <= t'
    ensures Work(t') <= Work(t)
  {
    var q := (U256_MAX + 1) / (t' + 1);
    DivGalois(U256_MAX + 1, t' + 1, q);
    DivGalois(U256_MAX + 1, t' + 1, 0);
    MulLe(t + 1, t' + 1, q);
    DivGalois(U256_MAX + 1, t + 1, q);
  }

  datatype BranchTip = BranchTip(height: u64, hash: Hash256, difficultyTarget: Hash256, cumulativeWork: u128)

  function Extend(tip: BranchTip, hash: Hash256, target: Hash256): BranchTip {
    BranchTip(Min(U64_MAX, tip.height + 1), hash, target,
              Min(U128_MAX, tip.cumulativeWork + WorkOf(target)))
  }

  predicate BetterBranch(candidate: BranchTip, current: BranchTip) {
    candidate.cumulativeWork > current.cumulativeWork ||
    (candidate.cumulativeWork == current.cumulativeWork &&
     (candidate.height > current.height ||
      (candidate.height == current.height && LexLess(candidate.hash, current.hash))))
  }

  predicate SameRank(a: BranchTip, b: BranchTip) {
    a.cumulativeWork == b.cumulativeWork && a.height == b.height && a.hash == b.hash
  }

  lemma BetterBranchStrictTotalOrder(a: BranchTip, b: BranchTip, c: BranchTip)
    ensures !BetterBranch(a, a)
    ensures BetterBranch(a, b) && BetterBranch(b, c) ==> BetterBranch(a, c)
    ensures SameRank(a, b) || (BetterBranch(a, b) != BetterBranch(b, a))
    ensures SameRank(a, b) ==> BetterBranch(a, c) == BetterBranch(b, c) && BetterBranch(c, a) == BetterBranch(c, b)
  {
    LexIsNumeric(a.hash, a.hash);
    LexIsNumeric(a.hash, b.hash);
    LexIsNumeric(b.hash, a.hash);
    LexIsNumeric(b.hash, c.hash);
    LexIsNumeric(a.hash, c.hash);
  }

  /** Mining on a tip always wins over that tip, until both counters are stuck
      at their maximum and only the hash is left to decide. */
  lemma ExtendWinsExactly(tip: BranchTip, hash: Hash256, target: Hash256)
    ensures BetterBranch(Extend(tip, hash, target), tip)
       <==> tip.cumulativeWork < U128_MAX || tip.height < U64_MAX || LexLess(hash, tip.hash)
  {
  }

  /** A chain of extensions of one tip. */
  function ExtendAll(tip: BranchTip, blocks: seq<(Hash256, Hash256)>): BranchTip {
    if |blocks| == 0 then tip
    else Extend(ExtendAll(tip, blocks[..|blocks| - 1]), blocks[|blocks| - 1].0, blocks[|blocks| - 1].1)
  }

  /** A chain of extensions beats the tip it starts from, unless both counters of
      that tip are stuck and the last hash is not lower. */
  lemma LongerChainWins(tip: BranchTip, blocks: seq<(Hash256, Hash256)>)
    requires |blocks| > 0
    ensures BetterBranch(ExtendAll(tip, blocks), tip) <==>
      tip.cumulativeWork < U128_MAX || tip.height < U64_MAX || LexLess(blocks[|blocks| - 1].0, tip.hash)
  {
    hide LexLess;
    CountersRise(tip, blocks);
  }

  lemma {:induction false} CountersRise(tip: BranchTip, blocks: seq<(Hash256, Hash256)>)
    ensures ExtendAll(tip, blocks).height == Min(U64_MAX, tip.height + |blocks|)
    ensures Min(U128_MAX, tip.cumulativeWork + |blocks|) <= ExtendAll(tip, blocks).cumulativeWork
    ensures |blocks| > 0 ==> ExtendAll(tip, blocks).hash == blocks[|blocks| - 1].0
  {
    if |blocks| > 0 { CountersRise(tip, blocks[..|blocks| - 1]); }
  }

  /** Keeping the better of the current best and each arrival. */
  function Champion(tips: seq<BranchTip>): (best: BranchTip)
    requires |tips| > 0
    ensures best in tips
  {
    if |tips| == 1 then tips[0]
    else
      var best := Champion(tips[..|tips| - 1]);
      if BetterBranch(tips[|tips| - 1], best) then tips[|tips| - 1] else best
  }

  lemma {:induction false} ChampionUnbeaten(tips: seq<BranchTip>, k: nat)
    requires k < |tips|
    ensures !BetterBranch(tips[k], Champion(tips))
  {
    var n := |tips| - 1;
    if n == 0 {
      BetterBranchStrictTotalOrder(tips[0], tips[0], tips[0]);
    } else {
      var best := Champion(tips[..n]);
      BetterBranchStrictTotalOrder(tips[k], tips[n], best);
      BetterBranchStrictTotalOrder(tips[n], tips[n], best);
      if k < n { ChampionUnbeaten(tips[..n], k); }
    }
  }

  /** The winner does not depend on the order, or the number of times, in which
      the tips are seen. */
  lemma ChampionOrderIndependent(tips: seq<BranchTip>, tips': seq<BranchTip>)
    requires |tips| > 0 && |tips'| > 0
    requires forall t :: t in tips <==> t in tips'
    ensures SameRank(Champion(tips), Champion(tips'))
  {
    var a, b := Champion(tips), Champion(tips');
    var i :| 0 <= i < |tips'| && tips'[i] == a;
    var j :| 0 <= j < |tips| && tips[j] == b;
    ChampionUnbeaten(tips', i);
    ChampionUnbeaten(tips, j);
    BetterBranchStrictTotalOrder(a, b, b);
  }

  /** A stored candidate header with its recorded cumulative work. */
  datatype Candidate = Candidate(height: u64, hash: Hash256, target: Hash256, work: u128)

  function TipOf(c: Candidate): BranchTip {
    BranchTip(c.height, c.hash, c.target, c.work)
  }

  predicate CandidateBeats(c: Candidate, current: Candidate) {
    c.work > current.work || (c.work == current.work && LexLess(c.hash, current.hash))
  }

  ghost predicate Eligible(c: Candidate, candidates: seq<Candidate>, quarantined: set<Hash256>) {
    c in candidates && c.hash !in quarantined
  }

  /** `best` has the most work among the eligible, lowest hash on a tie. */
  ghost predicate IsLatest(best: Option<Candidate>, candidates: seq<Candidate>, quarantined: set<Hash256>) {
    match best
    case None => forall c :: c in candidates ==> c.hash in quarantined
    case Some(b) =>
      Eligible(b, candidates, quarantined) &&
      forall c :: Eligible(c, candidates, quarantined) ==> !CandidateBeats(c, b)
  }

  method LatestCandidateTip(candidates: seq<Candidate>, quarantined: set<Hash256>) returns (best: Option<Candidate>)
    ensures IsLatest(best, candidates, quarantined)
  {
    best := None;
    for i := 0 to |candidates|
      invariant IsLatest(best, candidates[..i], quarantined)
    {
      var c := candidates[i];
      assert candidates[..i + 1] == candidates[..i] + [c];
      if c.hash in quarantined {
        continue;
      }
      CandidateOrder(c, c, c);
      if best.None? || CandidateBeats(c, best.value) {
        if best.Some? {
          forall d | d in candidates[..i] && d.hash !in quarantined ensures !CandidateBeats(d, c) {
            assert Eligible(d, candidates[..i], quarantined);
            CandidateOrder(d, c, best.value);
          }
        }
        best := Some(c);
      }
    }
    assert candidates[..|candidates|] == candidates;
  }

  lemma CandidateOrder(a: Candidate, b: Candidate, c: Candidate)
    ensures !CandidateBeats(a, a)
    ensures CandidateBeats(a, b) && CandidateBeats(b, c) ==> CandidateBeats(a, c)
    ensures !CandidateBeats(a, b) && !CandidateBeats(b, a) ==> a.work == b.work && a.hash == b.hash
  {
    BetterBranchStrictTotalOrder(TipOf(a).(height := 0), TipOf(b).(height := 0), TipOf(c).(height := 0));
  }

  /** Candidates are stored under their hash, so a hash names one candidate. Then
      the answer is a function of what is stored, not of the scan order. */
  lemma LatestOrderIndependent(candidates: seq<Candidate>, candidates': seq<Candidate>, quarantined: set<Hash256>,
                               best: Option<Candidate>, best': Option<Candidate>)
    requires forall c :: c in candidates <==> c in candidates'
    requires HashNamesOne(candidates)
    requires IsLatest(best, candidates, quarantined) && IsLatest(best', candidates', quarantined)
    ensures best == best'
  {
    if best.Some? && best'.Some? {
      assert Eligible(best.value, candidates', quarantined);
      assert Eligible(best'.value, candidates, quarantined);
      CandidateOrder(best.value, best'.value, best.value);
    }
  }

  predicate LeadsBothWays(t: Candidate, c: Candidate) {
    c.work < t.work || (c.work == t.work && c.height <= t.height && !LexLess(c.hash, t.hash))
  }

  ghost predicate Leader(t: Candidate, candidates: seq<Candidate>, quarantined: set<Hash256>) {
    Eligible(t, candidates, quarantined) && forall c :: Eligible(c, candidates, quarantined) ==> LeadsBothWays(t, c)
  }

  /** Among the candidates of greatest work one is both the tallest and lowest by hash. */
  ghost predicate TiesAgree(candidates: seq<Candidate>, quarantined: set<Hash256>) {
    exists t :: Leader(t, candidates, quarantined)
  }

  ghost predicate HashNamesOne(candidates: seq<Candidate>) {
    forall c, d :: c in candidates && d in candidates && c.hash == d.hash ==> c == d
  }

  /** The candidate search breaks ties by hash, fork choice by height first. The pick
      is the fork-choice winner exactly when the stored candidates do not make the
      two rules differ. */
  lemma LatestAgreesWithForkChoice(candidates: seq<Candidate>, quarantined: set<Hash256>, best: Candidate)
    requires HashNamesOne(candidates) && IsLatest(Some(best), candidates, quarantined)
    ensures (forall c :: Eligible(c, candidates, quarantined) ==> !BetterBranch(TipOf(c), TipOf(best)))
       <==> TiesAgree(candidates, quarantined)
  {
    hide LexLess, Eligible, HashNamesOne;
    forall c | Eligible(c, candidates, quarantined)
      ensures !BetterBranch(TipOf(c), TipOf(best)) <==> LeadsBothWays(best, c)
    {
      assert !CandidateBeats(c, best);
    }
    if t :| Leader(t, candidates, quarantined) {
      LeaderIsPick(candidates, quarantined, best, t);
    } else {
      assert !Leader(best, candidates, quarantined);
    }
  }

  lemma LeaderIsPick(candidates: seq<Candidate>, quarantined: set<Hash256>, best: Candidate, t: Candidate)
    requires HashNamesOne(candidates) && IsLatest(Some(best), candidates, quarantined)
    requires Leader(t, candidates, quarantined)
    ensures t == best
  {
    hide LexLess;
    assert LeadsBothWays(t, best) && !CandidateBeats(t, best);
    CandidateOrder(t, best, t);
  }

  /** In particular when candidates of equal work have equal heights. */
  lemma LatestAgreesOnEqualHeights(candidates: seq<Candidate>, quarantined: set<Hash256>, best: Candidate)
    requires forall c, d :: c in candidates && d in candidates && c.work == d.work ==> c.height == d.height
    requires IsLatest(Some(best), candidates, quarantined)
    ensures forall c :: Eligible(c, candidates, quarantined) ==> !BetterBranch(TipOf(c), TipOf(best))
  {
    hide LexLess;
    forall c | Eligible(c, candidates, quarantined) ensures !BetterBranch(TipOf(c), TipOf(best)) {
      assert !CandidateBeats(c, best);
    }
  }

  lemma LatestDisagreesOnTallerRival()
    ensures exists candidates, best, c ::
      IsLatest(Some(best), candidates, {}) && Eligible(c, candidates, {}) && BetterBranch(TipOf(c), TipOf(best))
  {
    var low: Hash256, high: Hash256 := seq(32, _ => 1), seq(32, _ => 2);
    var best, c := Candidate(5, low, low, 9), Candidate(6, high, low, 9);
    CandidateOrder(best, best, best);
    CandidateOrder(c, best, c);
    assert CandidateBeats(best, c);
    var s := [best, c];
    assert c in s && best in s;
    assert IsLatest(Some(best), s, {});
    assert Eligible(c, s, {}) && BetterBranch(TipOf(c), TipOf(best));
  }
}
