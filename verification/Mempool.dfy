/** The pending-transaction pool: admission, removal and block filling. */
module Mempool {
  import opened Bytes
  import opened Primitives
  import Canonical
  import Consensus

  const MAX_MEMPOOL_TRANSACTIONS: nat := 5000
  const MIN_GAS_PRICE_BIX: u128 := 1_000_000_000

  /** The pair (priority fee, max fee), compared lexicographically. */
  function Fee(t: Transaction): nat {
    t.maxPriorityFeePerGas * (U128_MAX + 1) + t.maxFeePerGas
  }

  lemma FeeIsLexicographic(a: Transaction, b: Transaction)
    ensures Fee(a) < Fee(b) <==>
      a.maxPriorityFeePerGas < b.maxPriorityFeePerGas ||
      (a.maxPriorityFeePerGas == b.maxPriorityFeePerGas && a.maxFeePerGas < b.maxFeePerGas)
  {
  }

  // ---- Stable sort, highest fee first ----

  function InsertByFee(s: seq<Transaction>, t: Transaction): (r: seq<Transaction>)
    ensures |r| == |s| + 1 && multiset(r) == multiset(s) + multiset{t}
  {
    if |s| == 0 || Fee(s[|s| - 1]) >= Fee(t) then s + [t]
    else
      assert s == s[..|s| - 1] + [s[|s| - 1]];
      InsertByFee(s[..|s| - 1], t) + [s[|s| - 1]]
  }

  function SortByFee(s: seq<Transaction>): (r: seq<Transaction>)
    ensures |r| == |s| && multiset(r) == multiset(s)
  {
    if |s| == 0 then []
    else
      assert s == s[..|s| - 1] + [s[|s| - 1]];
      InsertByFee(SortByFee(s[..|s| - 1]), s[|s| - 1])
  }

  ghost predicate Sorted(s: seq<Transaction>) {
    forall i, j :: 0 <= i < j < |s| ==> Fee(s[i]) >= Fee(s[j])
  }

  /** The transactions of one fee, in the order they have in `s`. */
  function WithFee(s: seq<Transaction>, fee: nat): seq<Transaction> {
    if |s| == 0 then []
    else
      var front := WithFee(s[..|s| - 1], fee);
      if Fee(s[|s| - 1]) == fee then front + [s[|s| - 1]] else front
  }

  lemma {:induction false} InsertSorted(s: seq<Transaction>, t: Transaction)
    requires Sorted(s)
    ensures Sorted(InsertByFee(s, t))
  {
    hide Fee;
    if |s| > 0 && Fee(s[|s| - 1]) < Fee(t) {
      var front := s[..|s| - 1];
      InsertSorted(front, t);
      var r := InsertByFee(front, t);
      forall k | 0 <= k < |r| ensures Fee(r[k]) >= Fee(s[|s| - 1]) {
        assert r[k] in multiset(r);
        assert r[k] in multiset(front) + multiset{t};
      }
    }
  }

  lemma {:induction false} SortSorts(s: seq<Transaction>)
    ensures Sorted(SortByFee(s))
  {
    if |s| > 0 {
      SortSorts(s[..|s| - 1]);
      InsertSorted(SortByFee(s[..|s| - 1]), s[|s| - 1]);
    }
  }

  lemma {:induction false} InsertStable(s: seq<Transaction>, t: Transaction, fee: nat)
    requires Sorted(s)
    ensures WithFee(InsertByFee(s, t), fee) == WithFee(s, fee) + (if Fee(t) == fee then [t] else [])
  {
    hide Fee;
    if |s| == 0 || Fee(s[|s| - 1]) >= Fee(t) {
      assert (s + [t])[..|s|] == s;
    } else {
      var front, last := s[..|s| - 1], s[|s| - 1];
      InsertStable(front, t, fee);
      var r := InsertByFee(front, t);
      assert (r + [last])[..|r|] == r;
      if Fee(last) == fee { NoneBelow(front, last, fee, t); }
    }
  }

  lemma NoneBelow(front: seq<Transaction>, last: Transaction, fee: nat, t: Transaction)
    requires Fee(last) == fee && Fee(t) > fee
    ensures WithFee(front, fee) + (if Fee(t) == fee then [t] else []) == WithFee(front, fee)
  {
  }

  /** The sort is stable: equal fees keep their order of arrival. */
  lemma {:induction false} SortStable(s: seq<Transaction>, fee: nat)
    ensures WithFee(SortByFee(s), fee) == WithFee(s, fee)
  {
    if |s| > 0 {
      var front := s[..|s| - 1];
      SortStable(front, fee);
      SortSorts(front);
      InsertStable(SortByFee(front), s[|s| - 1], fee);
    }
  }

  lemma {:induction false} WithFeeEmpty(s: seq<Transaction>, fee: nat)
    ensures WithFee(s, fee) == [] <==> forall k :: 0 <= k < |s| ==> Fee(s[k]) != fee
  {
    if |s| > 0 {
      WithFeeEmpty(s[..|s| - 1], fee);
    }
  }

  /** Sequences with the same runs of equal fees end in the same transaction. */
  lemma LastAgrees(a: seq<Transaction>, b: seq<Transaction>)
    requires Sorted(a) && Sorted(b) && |a| > 0 && |b| > 0
    requires forall fee: nat :: WithFee(a, fee) == WithFee(b, fee)
    ensures a[|a| - 1] == b[|b| - 1]
  {
    hide Fee;
    var x, y := a[|a| - 1], b[|b| - 1];
    WithFeeEmpty(b, Fee(x));
    WithFeeEmpty(a, Fee(y));
    assert Fee(x) == Fee(y);
    var run := WithFee(a, Fee(x));
    assert run == WithFee(a[..|a| - 1], Fee(x)) + [x];
    assert run == WithFee(b[..|b| - 1], Fee(x)) + [y];
    assert x == run[|run| - 1] == y;
  }

  lemma FrontAgrees(a: seq<Transaction>, b: seq<Transaction>, fee: nat)
    requires |a| > 0 && |b| > 0 && a[|a| - 1] == b[|b| - 1] && WithFee(a, fee) == WithFee(b, fee)
    ensures WithFee(a[..|a| - 1], fee) == WithFee(b[..|b| - 1], fee)
  {
    hide Fee;
    var run, last := WithFee(a, fee), a[|a| - 1];
    if Fee(last) == fee {
      assert WithFee(a[..|a| - 1], fee) == run[..|run| - 1];
      assert WithFee(b[..|b| - 1], fee) == run[..|run| - 1];
    }
  }

  /** Sorted and stable determine the result, whatever algorithm is used. */
  lemma {:induction false} StableSortUnique(a: seq<Transaction>, b: seq<Transaction>)
    requires Sorted(a) && Sorted(b)
    requires forall fee: nat :: WithFee(a, fee) == WithFee(b, fee)
    ensures a == b
  {
    hide Fee, WithFee;
    if |a| > 0 && |b| > 0 {
      LastAgrees(a, b);
      var front, front' := a[..|a| - 1], b[..|b| - 1];
      forall fee: nat ensures WithFee(front, fee) == WithFee(front', fee) {
        FrontAgrees(a, b, fee);
      }
      StableSortUnique(front, front');
      assert a == front + [a[|a| - 1]] && b == front' + [b[|b| - 1]];
    } else if |a| > 0 {
      WithFeeEmpty(a, Fee(a[0]));
      WithFeeEmpty(b, Fee(a[0]));
    } else if |b| > 0 {
      WithFeeEmpty(a, Fee(b[0]));
      WithFeeEmpty(b, Fee(b[0]));
    }
  }

  lemma SortSortedIsIdentity(s: seq<Transaction>)
    requires Sorted(s)
    ensures SortByFee(s) == s
  {
    hide Fee, SortByFee, WithFee;
    SortSorts(s);
    forall fee: nat ensures WithFee(SortByFee(s), fee) == WithFee(s, fee) {
      SortStable(s, fee);
    }
    StableSortUnique(SortByFee(s), s);
  }

  // ---- The pool ----

  datatype Pool = Pool(transactions: seq<Transaction>, firstSeen: map<Hash256, u64>)

  datatype AddResult = Added | FeeTooLow | Rejected(error: Consensus.Error) | ReplacementFeeTooLow | MempoolFull

  predicate KnownHash(s: seq<Transaction>, hash: Hash256) {
    exists k :: 0 <= k < |s| && Canonical.RpcHash(s[k]) == hash
  }

  predicate SameSlot(a: Transaction, b: Transaction) {
    a.from == b.from && a.nonce == b.nonce
  }

  /** The first transaction with the sender and nonce of `t`, or the length. */
  function SlotIndex(s: seq<Transaction>, t: Transaction): (i: nat)
    ensures i <= |s|
    ensures i < |s| ==> SameSlot(s[i], t)
    ensures forall k :: 0 <= k < i ==> !SameSlot(s[k], t)
  {
    if |s| == 0 || SameSlot(s[0], t) then 0 else 1 + SlotIndex(s[1..], t)
  }

  function Added1(p: Pool, t: Transaction, now: u64): Pool {
    Pool(SortByFee(p.transactions + [t]), p.firstSeen[Canonical.RpcHash(t) := now])
  }

  function EvictLast(p: Pool): Pool
    requires |p.transactions| > 0
  {
    var n := |p.transactions| - 1;
    Pool(p.transactions[..n], p.firstSeen - {Canonical.RpcHash(p.transactions[n])})
  }

  function AfterAdd(p: Pool, t: Transaction, baseFee: u128, now: u64): (Pool, AddResult) {
    var s := p.transactions;
    var verdict := Consensus.FeeVerdict(t, baseFee);
    if t.maxFeePerGas < MIN_GAS_PRICE_BIX then (p, FeeTooLow)
    else if verdict.Invalid? then (p, Rejected(verdict.error))
    else if KnownHash(s, Canonical.RpcHash(t)) then (p, Added)
    else
      var i := SlotIndex(s, t);
      if i < |s| then
        if t.maxFeePerGas <= s[i].maxFeePerGas then (p, ReplacementFeeTooLow)
        else (Pool(SortByFee(s[i := t]), p.firstSeen[Canonical.RpcHash(t) := now]), Added)
      else if |s| >= MAX_MEMPOOL_TRANSACTIONS then
        if Fee(t) <= Fee(s[|s| - 1]) then (p, MempoolFull)
        else (Added1(EvictLast(p), t, now), Added)
      else (Added1(p, t, now), Added)
  }

  function Drop(s: seq<Transaction>, gone: set<Transaction>): (r: seq<Transaction>)
    ensures |r| <= |s|
    ensures forall t :: t in r <==> t in s && t !in gone
  {
    if |s| == 0 then []
    else
      var front, last := Drop(s[..|s| - 1], gone), s[|s| - 1];
      assert s == s[..|s| - 1] + [last];
      if last in gone then front else front + [last]
  }

  function Hashes(ts: set<Transaction>): set<Hash256> {
    set t | t in ts :: Canonical.RpcHash(t)
  }

  function Age(p: Pool, t: Transaction, now: u64): nat {
    var hash := Canonical.RpcHash(t);
    var seen := if hash in p.firstSeen then p.firstSeen[hash] else now;
    if now <= seen then 0 else now - seen
  }

  function Without(p: Pool, gone: set<Transaction>): Pool {
    Pool(Drop(p.transactions, gone), p.firstSeen - Hashes(gone))
  }

  function Expired(p: Pool, now: u64, maxAge: u64): set<Transaction> {
    set t | t in p.transactions && Age(p, t, now) >= maxAge
  }

  function Stale(p: Pool, expected: Address -> u64): set<Transaction> {
    set t | t in p.transactions && t.nonce < expected(t.from)
  }

  function Included(p: Pool, hashes: seq<Hash256>): set<Transaction> {
    set t | t in p.transactions && (Canonical.TransactionHash(t) in hashes || Canonical.RpcHash(t) in hashes)
  }

  datatype Op =
    | Add(transaction: Transaction, baseFee: u128, now: u64)
    | RemoveExpired(at: u64, maxAge: u64)
    | RemoveStaleNonces(expected: Address -> u64)
    | RemoveIncluded(hashes: seq<Hash256>)

  function Apply(p: Pool, op: Op): Pool {
    match op
    case Add(t, baseFee, now) => AfterAdd(p, t, baseFee, now).0
    case RemoveExpired(now, maxAge) => Without(p, Expired(p, now, maxAge))
    case RemoveStaleNonces(expected) => Without(p, Stale(p, expected))
    case RemoveIncluded(hashes) => Without(p, Included(p, hashes))
  }

  function Run(p: Pool, ops: seq<Op>): Pool {
    if |ops| == 0 then p else Apply(Run(p, ops[..|ops| - 1]), ops[|ops| - 1])
  }

  const EMPTY: Pool := Pool([], map[])

  class Mempool {
    var transactions: seq<Transaction>
    var firstSeen: map<Hash256, u64>

    function State(): Pool
      reads this
    {
      Pool(transactions, firstSeen)
    }

    constructor ()
      ensures State() == EMPTY
    {
      transactions, firstSeen := [], map[];
    }

    method Add(t: Transaction, baseFee: u128, now: u64) returns (r: AddResult)
      modifies this
      ensures (State(), r) == AfterAdd(old(State()), t, baseFee, now)
    {
      hide Fee, Canonical.RpcHash, Consensus.FeeVerdict, SortByFee, SlotIndex, KnownHash;
      if t.maxFeePerGas < MIN_GAS_PRICE_BIX {
        return FeeTooLow;
      }
      var verdict := Consensus.FeeVerdict(t, baseFee);
      if verdict.Invalid? {
        return Rejected(verdict.error);
      }
      var hash := Canonical.RpcHash(t);
      if KnownHash(transactions, hash) {
        return Added;
      }
      var i := SlotIndex(transactions, t);
      if i < |transactions| {
        if t.maxFeePerGas <= transactions[i].maxFeePerGas {
          return ReplacementFeeTooLow;
        }
        transactions := transactions[i := t];
        firstSeen := firstSeen[hash := now];
        transactions := SortByFee(transactions);
        return Added;
      }
      if |transactions| >= MAX_MEMPOOL_TRANSACTIONS {
        var lowest := transactions[|transactions| - 1];
        if Fee(t) <= Fee(lowest) {
          return MempoolFull;
        }
        transactions := transactions[..|transactions| - 1];
        firstSeen := firstSeen - {Canonical.RpcHash(lowest)};
      }
      transactions := transactions + [t];
      firstSeen := firstSeen[hash := now];
      transactions := SortByFee(transactions);
      r := Added;
    }

    /** Collects the expired hashes, drops every transaction that has one of them
        and forgets when they were first seen. */
    method RemoveExpired(now: u64, maxAge: u64) returns (removed: nat)
      modifies this
      ensures State() == Apply(old(State()), Op.RemoveExpired(now, maxAge))
      ensures removed == old(|transactions|) - |transactions|
      ensures forall t :: t in transactions <==>
        t in old(transactions) && maxAge > 0 &&
        var hash := Canonical.RpcHash(t); hash in old(firstSeen) ==> now < old(firstSeen)[hash] + maxAge
    {
      var before := |transactions|;
      var hashes := Hashes(Expired(State(), now, maxAge));
      var gone := set t | t in transactions && Canonical.RpcHash(t) in hashes;
      assert gone == Expired(State(), now, maxAge);
      transactions := Drop(transactions, gone);
      firstSeen := firstSeen - hashes;
      removed := before - |transactions|;
    }

    method RemoveStaleNonces(expected: Address -> u64)
      modifies this
      ensures State() == Apply(old(State()), Op.RemoveStaleNonces(expected))
      ensures forall t :: t in transactions <==> t in old(transactions) && expected(t.from) <= t.nonce
    {
      var stale := Stale(State(), expected);
      transactions := Drop(transactions, stale);
      firstSeen := firstSeen - Hashes(stale);
    }

    method RemoveIncluded(hashes: seq<Hash256>)
      modifies this
      ensures State() == Apply(old(State()), Op.RemoveIncluded(hashes))
      ensures forall t :: t in transactions <==>
        t in old(transactions) && Canonical.RpcHash(t) !in hashes && Canonical.TransactionHash(t) !in hashes
    {
      var included := Included(State(), hashes);
      transactions := Drop(transactions, included);
      firstSeen := firstSeen - Hashes(included);
    }

    /** Sorts a copy of the pool and takes what fits. */
    method DrainForBlock(gasLimit: u64) returns (out: seq<Transaction>)
      ensures exists order :: IsSortOf(order, transactions) && out == Filled(order, gasLimit)
    {
      hide SortForBlock, Filled, CompareForBlock;
      var candidates := SortForBlock(transactions);
      if Transitive(transactions) { SortForBlockSorts(transactions); }
      out := FillBlock(candidates, gasLimit);
      assert IsSortOf(candidates, transactions);
    }
  }

  // ---- What every run keeps ----

  /** Same hash, or same sender and nonce. */
  predicate Clash(a: Transaction, b: Transaction) {
    Canonical.RpcHash(a) == Canonical.RpcHash(b) || SameSlot(a, b)
  }

  ghost predicate NoClash(s: seq<Transaction>) {
    forall i, j :: 0 <= i < j < |s| ==> !Clash(s[i], s[j])
  }

  ghost predicate Clear(s: seq<Transaction>, t: Transaction) {
    forall u :: u in s ==> !Clash(u, t)
  }

  ghost predicate Covered(p: Pool) {
    forall t :: t in p.transactions ==> Canonical.RpcHash(t) in p.firstSeen
  }

  ghost predicate Consistent(p: Pool) {
    Sorted(p.transactions) && |p.transactions| <= MAX_MEMPOOL_TRANSACTIONS && NoClash(p.transactions) && Covered(p)
  }

  lemma InsertIn(s: seq<Transaction>, t: Transaction, u: Transaction)
    ensures u in InsertByFee(s, t) <==> u == t || u in s
  {
    assert u in InsertByFee(s, t) <==> u in multiset(InsertByFee(s, t));
  }

  lemma SortIn(s: seq<Transaction>, u: Transaction)
    ensures u in SortByFee(s) <==> u in s
  {
    assert u in SortByFee(s) <==> u in multiset(SortByFee(s));
  }

  lemma {:induction false} InsertNoClash(s: seq<Transaction>, t: Transaction)
    requires NoClash(s) && Clear(s, t)
    ensures NoClash(InsertByFee(s, t))
  {
    hide Fee, Clash;
    if |s| > 0 && Fee(s[|s| - 1]) < Fee(t) {
      var front, last := s[..|s| - 1], s[|s| - 1];
      InsertNoClash(front, t);
      var r := InsertByFee(front, t);
      forall k | 0 <= k < |r| ensures !Clash(r[k], last) {
        InsertIn(front, t, r[k]);
        ClashSymmetric(t, last);
      }
    }
  }

  lemma ClashSymmetric(a: Transaction, b: Transaction)
    ensures Clash(a, b) == Clash(b, a)
  {
  }

  lemma {:induction false} SortNoClash(s: seq<Transaction>)
    requires NoClash(s)
    ensures NoClash(SortByFee(s))
  {
    hide Fee, Clash;
    if |s| > 0 {
      var front, last := s[..|s| - 1], s[|s| - 1];
      SortNoClash(front);
      forall u | u in SortByFee(front) ensures !Clash(u, last) {
        SortIn(front, u);
      }
      InsertNoClash(SortByFee(front), last);
    }
  }

  /** Sorting a pool without clashes in which every hash has a time. */
  lemma SortedPoolConsistent(s: seq<Transaction>, firstSeen: map<Hash256, u64>)
    requires NoClash(s) && |s| <= MAX_MEMPOOL_TRANSACTIONS && Covered(Pool(s, firstSeen))
    ensures Consistent(Pool(SortByFee(s), firstSeen))
  {
    hide Fee, Clash, Canonical.RpcHash;
    SortSorts(s);
    SortNoClash(s);
    forall t | t in SortByFee(s) ensures Canonical.RpcHash(t) in firstSeen {
      SortIn(s, t);
    }
  }

  lemma AddKeepsConsistent(p: Pool, t: Transaction, baseFee: u128, now: u64)
    requires Consistent(p)
    ensures Consistent(AfterAdd(p, t, baseFee, now).0)
  {
    hide Fee, Canonical.RpcHash, Consensus.FeeVerdict, SortByFee;
    var s, hash := p.transactions, Canonical.RpcHash(t);
    if AfterAdd(p, t, baseFee, now).0 != p {
      var i := SlotIndex(s, t);
      var seen := p.firstSeen[hash := now];
      if i < |s| {
        assert forall k :: 0 <= k < |s| && k != i ==> !SameSlot(s[k], t);
        SortedPoolConsistent(s[i := t], seen);
      } else if |s| >= MAX_MEMPOOL_TRANSACTIONS {
        var q := EvictLast(p);
        assert forall k :: 0 <= k < |s| - 1 ==> !Clash(s[k], s[|s| - 1]);
        SortedPoolConsistent(q.transactions + [t], q.firstSeen[hash := now]);
      } else {
        SortedPoolConsistent(s + [t], seen);
      }
    }
  }

  /** Dropping keeps order, so it keeps sortedness and freedom from clashes. */
  lemma {:induction false} DropKeepsSorted(s: seq<Transaction>, gone: set<Transaction>)
    requires Sorted(s)
    ensures Sorted(Drop(s, gone))
  {
    hide Fee;
    if |s| > 0 {
      var r := Drop(s[..|s| - 1], gone);
      DropKeepsSorted(s[..|s| - 1], gone);
      forall k | 0 <= k < |r| ensures Fee(r[k]) >= Fee(s[|s| - 1]) {
        assert r[k] in s[..|s| - 1];
      }
    }
  }

  lemma {:induction false} DropKeepsNoClash(s: seq<Transaction>, gone: set<Transaction>)
    requires NoClash(s)
    ensures NoClash(Drop(s, gone))
  {
    hide Clash;
    if |s| > 0 {
      var r := Drop(s[..|s| - 1], gone);
      DropKeepsNoClash(s[..|s| - 1], gone);
      forall k | 0 <= k < |r| ensures !Clash(r[k], s[|s| - 1]) {
        assert r[k] in s[..|s| - 1];
      }
    }
  }

  lemma EntriesDoNotClash(s: seq<Transaction>, t: Transaction, u: Transaction)
    requires NoClash(s) && t in s && u in s && t != u
    ensures !Clash(t, u) && !Clash(u, t)
  {
    ClashSymmetric(t, u);
    var i :| 0 <= i < |s| && s[i] == t;
    var j :| 0 <= j < |s| && s[j] == u;
  }

  lemma WithoutKeepsConsistent(p: Pool, gone: set<Transaction>)
    requires Consistent(p) && forall t :: t in gone ==> t in p.transactions
    ensures Consistent(Without(p, gone))
  {
    hide Fee, Canonical.RpcHash;
    DropKeepsSorted(p.transactions, gone);
    DropKeepsNoClash(p.transactions, gone);
    forall t | t in Without(p, gone).transactions ensures Canonical.RpcHash(t) !in Hashes(gone) {
      forall u | u in gone ensures Canonical.RpcHash(u) != Canonical.RpcHash(t) {
        EntriesDoNotClash(p.transactions, t, u);
      }
    }
  }

  /** Every run of operations keeps the pool sorted, bounded, free of clashes and
      with a first-seen time for every entry. */
  lemma {:induction false} RunKeepsConsistent(p: Pool, ops: seq<Op>)
    requires Consistent(p)
    ensures Consistent(Run(p, ops))
  {
    if |ops| > 0 {
      RunKeepsConsistent(p, ops[..|ops| - 1]);
      var q := Run(p, ops[..|ops| - 1]);
      match ops[|ops| - 1]
      case Add(t, baseFee, now) => AddKeepsConsistent(q, t, baseFee, now);
      case RemoveExpired(now, maxAge) => WithoutKeepsConsistent(q, Expired(q, now, maxAge));
      case RemoveStaleNonces(expected) => WithoutKeepsConsistent(q, Stale(q, expected));
      case RemoveIncluded(hashes) => WithoutKeepsConsistent(q, Included(q, hashes));
    }
  }

  lemma AddSlotFee(p: Pool, t: Transaction, baseFee: u128, now: u64, x: Transaction, y: Transaction)
    requires NoClash(p.transactions) && x in p.transactions && y in AfterAdd(p, t, baseFee, now).0.transactions &&
      SameSlot(x, y)
    ensures y in p.transactions || y.maxFeePerGas > x.maxFeePerGas
  {
    hide Fee, Canonical.RpcHash, Consensus.FeeVerdict, SortByFee;
    var s, i := p.transactions, SlotIndex(p.transactions, t);
    SortIn(s + [t], y);
    if |s| > 0 { SortIn(s[..|s| - 1] + [t], y); }
    if i < |s| {
      SortIn(s[i := t], y);
      if y !in s && s[i] != x { EntriesDoNotClash(s, x, s[i]); }
    }
  }

  /** While a slot stays occupied its max fee only rises. */
  lemma SlotFeeOnlyRises(p: Pool, op: Op, x: Transaction, y: Transaction)
    requires Consistent(p) && x in p.transactions && y in Apply(p, op).transactions && SameSlot(x, y)
    ensures y == x || y.maxFeePerGas > x.maxFeePerGas
  {
    hide AfterAdd, Age, Clash, Fee;
    if op.Add? { AddSlotFee(p, op.transaction, op.baseFee, op.now, x, y); }
    if y in p.transactions && y != x {
      EntriesDoNotClash(p.transactions, x, y);
      SameSlotClashes(x, y);
    }
  }

  /** Over any run during which a slot is occupied after every operation. */
  lemma {:induction false} SlotFeeRisesOverRun(p: Pool, ops: seq<Op>, occupants: seq<Transaction>, i: nat, j: nat)
    requires Consistent(p) && |occupants| == |ops| + 1 && i <= j <= |ops|
    requires forall k :: 0 <= k <= |ops| ==>
      occupants[k] in Run(p, ops[..k]).transactions && SameSlot(occupants[0], occupants[k])
    ensures occupants[i] == occupants[j] || occupants[i].maxFeePerGas < occupants[j].maxFeePerGas
  {
    hide Consistent, Apply;
    if i < j {
      SlotFeeRisesOverRun(p, ops, occupants, i, j - 1);
      var before := ops[..j - 1];
      assert ops[..j][..j - 1] == before;
      RunKeepsConsistent(p, before);
      SlotFeeOnlyRises(Run(p, before), ops[j - 1], occupants[j - 1], occupants[j]);
    }
  }

  lemma SameSlotClashes(x: Transaction, y: Transaction)
    requires SameSlot(x, y)
    ensures Clash(x, y)
  {
  }

  // ---- Top K of everything submitted ----

  lemma {:induction false} InsertBelow(s: seq<Transaction>, t: Transaction, k: nat)
    requires Sorted(s) && 0 < k <= |s| && Fee(t) <= Fee(s[k - 1])
    ensures InsertByFee(s, t)[..k] == s[..k]
  {
    hide Fee;
    if Fee(s[|s| - 1]) < Fee(t) {
      InsertBelow(s[..|s| - 1], t, k);
    }
  }

  lemma {:induction false} InsertAbove(s: seq<Transaction>, t: Transaction, k: nat)
    requires Sorted(s) && 0 < k <= |s| && Fee(t) > Fee(s[k - 1])
    ensures InsertByFee(s, t)[..k] == InsertByFee(s[..k - 1], t)
  {
    hide Fee;
    if k < |s| {
      InsertAbove(s[..|s| - 1], t, k);
      assert s[..|s| - 1][..k - 1] == s[..k - 1];
    }
  }

  function Best(s: seq<Transaction>): seq<Transaction> {
    SortByFee(s)[..Min(|s|, MAX_MEMPOOL_TRANSACTIONS)]
  }

  /** Accepted on its own: above the network minimum and valid for the base fee. */
  predicate Admissible(t: Transaction, baseFee: u128) {
    t.maxFeePerGas >= MIN_GAS_PRICE_BIX && Consensus.FeeVerdict(t, baseFee).Valid?
  }

  lemma SortSnoc(s: seq<Transaction>, t: Transaction)
    ensures SortByFee(s + [t]) == InsertByFee(SortByFee(s), t)
    ensures Sorted(s) ==> SortByFee(s + [t]) == InsertByFee(s, t)
  {
    assert (s + [t])[..|s|] == s;
    if Sorted(s) { SortSortedIsIdentity(s); }
  }

  lemma SortedFront(s: seq<Transaction>)
    ensures Sorted(s) && |s| > 0 ==> Sorted(s[..|s| - 1])
  {
  }

  /** Adding a transaction that clashes with nothing to a sorted pool. */
  lemma AddFresh(p: Pool, t: Transaction, baseFee: u128, now: u64)
    requires Sorted(p.transactions) && Clear(p.transactions, t) && Admissible(t, baseFee)
    ensures AfterAdd(p, t, baseFee, now).0.transactions ==
      (var q := p.transactions;
       if |q| < MAX_MEMPOOL_TRANSACTIONS then InsertByFee(q, t)
       else if Fee(t) <= Fee(q[|q| - 1]) then q
       else InsertByFee(q[..|q| - 1], t))
  {
    hide Fee, Canonical.RpcHash, Consensus.FeeVerdict, SortByFee, InsertByFee, SlotIndex, Sorted;
    var q := p.transactions;
    SortedFront(q);
    assert forall k :: 0 <= k < |q| ==> !Clash(q[k], t);
    SortSnoc(q, t);
    if |q| > 0 { SortSnoc(q[..|q| - 1], t); }
  }

  lemma TopKStep(s: seq<Transaction>, p: Pool, t: Transaction, baseFee: u128, now: u64)
    requires p.transactions == Best(s) && Clear(s, t) && Admissible(t, baseFee)
    ensures AfterAdd(p, t, baseFee, now).0.transactions == Best(s + [t])
  {
    hide Fee, Clash, AfterAdd, Admissible, SortByFee, InsertByFee;
    var all, q := SortByFee(s), p.transactions;
    SortSorts(s);
    SortSnoc(s, t);
    forall u | u in q ensures !Clash(u, t) {
      assert u in all;
      SortIn(s, u);
    }
    AddFresh(p, t, baseFee, now);
    if |q| == MAX_MEMPOOL_TRANSACTIONS {
      if Fee(t) <= Fee(q[|q| - 1]) {
        InsertBelow(all, t, |q|);
      } else {
        InsertAbove(all, t, |q|);
        assert all[..|q| - 1] == q[..|q| - 1];
      }
    } else {
      assert q == all;
    }
  }

  /** The pool after submitting a list, one at a time, each against the base fee and
      the clock of its moment. */
  function SubmitAll(s: seq<Transaction>, baseFees: seq<u128>, clock: seq<u64>): Pool
    requires |clock| == |baseFees| == |s|
  {
    if |s| == 0 then EMPTY
    else
      var n := |s| - 1;
      AfterAdd(SubmitAll(s[..n], baseFees[..n], clock[..n]), s[n], baseFees[n], clock[n]).0
  }

  /** A stream of distinct admissible transactions leaves exactly the best 5,000 of
      everything submitted, in stable fee order. */
  lemma {:induction false} PoolIsTopK(s: seq<Transaction>, baseFees: seq<u128>, clock: seq<u64>)
    requires |clock| == |baseFees| == |s| && NoClash(s)
    requires forall k :: 0 <= k < |s| ==> Admissible(s[k], baseFees[k])
    ensures SubmitAll(s, baseFees, clock).transactions == Best(s)
  {
    hide AfterAdd, Clash, Admissible, SortByFee;
    if |s| > 0 {
      var n := |s| - 1;
      PoolIsTopK(s[..n], baseFees[..n], clock[..n]);
      TopKStep(s[..n], SubmitAll(s[..n], baseFees[..n], clock[..n]), s[n], baseFees[n], clock[n]);
      assert s == s[..n] + [s[n]];
    }
  }

  // ---- Filling a block ----

  datatype Ordering = Less | Equal | Greater

  function CompareNumbers(a: nat, b: nat): Ordering {
    if a < b then Less else if a == b then Equal else Greater
  }

  /** The comparator handed to the sort: by nonce for one sender, by fee between
      senders. */
  function CompareForBlock(a: Transaction, b: Transaction): Ordering {
    if a.from == b.from then CompareNumbers(a.nonce, b.nonce) else CompareNumbers(Fee(b), Fee(a))
  }

  function TotalGas(s: seq<Transaction>): nat {
    if |s| == 0 then 0 else TotalGas(s[..|s| - 1]) + s[|s| - 1].gasLimit
  }

  /** Which candidates a block takes, and which it passes over. */
  function Filled(order: seq<Transaction>, gasLimit: u64): seq<Transaction> {
    if |order| == 0 then []
    else
      var before, last := Filled(order[..|order| - 1], gasLimit), order[|order| - 1];
      if Min(U64_MAX, TotalGas(before) + last.gasLimit) > gasLimit then before else before + [last]
  }

  function PassedOver(order: seq<Transaction>, gasLimit: u64): seq<Transaction> {
    if |order| == 0 then []
    else
      var front, last := order[..|order| - 1], order[|order| - 1];
      var before := PassedOver(front, gasLimit);
      if Min(U64_MAX, TotalGas(Filled(front, gasLimit)) + last.gasLimit) > gasLimit then before + [last] else before
  }

  /** Takes every candidate that still fits, whatever order the sort produced. */
  method FillBlock(order: seq<Transaction>, gasLimit: u64) returns (out: seq<Transaction>)
    ensures out == Filled(order, gasLimit)
  {
    var gas: u64 := 0;
    out := [];
    for i := 0 to |order|
      invariant out == Filled(order[..i], gasLimit)
      invariant gas == Min(U64_MAX, TotalGas(out))
    {
      var t := order[i];
      assert order[..i + 1][..i] == order[..i];
      if Min(U64_MAX, gas + t.gasLimit) > gasLimit {
        continue;
      }
      gas := Min(U64_MAX, gas + t.gasLimit);
      TotalGasSnoc(out, t);
      out := out + [t];
    }
    assert order[..|order|] == order;
  }

  lemma TotalGasSnoc(s: seq<Transaction>, t: Transaction)
    ensures TotalGas(s + [t]) == TotalGas(s) + t.gasLimit
  {
    assert (s + [t])[..|s|] == s;
  }

  /** Every candidate is either taken or passed over, once. */
  lemma {:induction false} FillPartitions(order: seq<Transaction>, gasLimit: u64)
    ensures multiset(Filled(order, gasLimit)) + multiset(PassedOver(order, gasLimit)) == multiset(order)
  {
    hide TotalGas, Min;
    if |order| > 0 {
      FillPartitions(order[..|order| - 1], gasLimit);
      assert order == order[..|order| - 1] + [order[|order| - 1]];
    }
  }

  /** Below the largest gas limit the block stays within it, and nothing that was
      passed over would still fit. */
  lemma {:induction false} FillIsMaximal(order: seq<Transaction>, gasLimit: u64)
    requires gasLimit < U64_MAX
    ensures TotalGas(Filled(order, gasLimit)) <= gasLimit
    ensures forall t :: t in PassedOver(order, gasLimit) ==> TotalGas(Filled(order, gasLimit)) + t.gasLimit > gasLimit
  {
    hide TotalGas;
    if |order| > 0 {
      FillIsMaximal(order[..|order| - 1], gasLimit);
      TotalGasSnoc(Filled(order[..|order| - 1], gasLimit), order[|order| - 1]);
    } else {
      NoGas();
    }
  }

  lemma NoGas()
    ensures TotalGas([]) == 0
  {
  }

  /** At the largest limit the saturating sum never exceeds it: everything goes in. */
  lemma {:induction false} LargestLimitTakesAll(order: seq<Transaction>)
    ensures Filled(order, U64_MAX) == order
  {
    hide TotalGas;
    if |order| > 0 {
      LargestLimitTakesAll(order[..|order| - 1]);
    }
  }

  /** So there the bound is lost: two transactions can exceed it. */
  lemma LargestLimitOverfills()
    ensures exists order: seq<Transaction> :: TotalGas(Filled(order, U64_MAX)) > U64_MAX
  {
    var t := Transaction(0, 0, 0, ToBe(0, 20), None, 0, U64_MAX, 0, 0, [], [], None, None);
    TotalGasSnoc([], t);
    TotalGasSnoc([t], t);
    assert [] + [t] == [t];
    LargestLimitTakesAll([t] + [t]);
    assert TotalGas(Filled([t] + [t], U64_MAX)) == 2 * U64_MAX;
  }

  // ---- The block comparator ----

  predicate InOrder(a: Transaction, b: Transaction) {
    CompareForBlock(a, b) != Greater
  }

  ghost predicate Transitive(s: seq<Transaction>) {
    forall a, b, c :: a in s && b in s && c in s && InOrder(a, b) && InOrder(b, c) ==> InOrder(a, c)
  }

  predicate FeeBetween(a: Transaction, b: Transaction, c: Transaction) {
    a.from == b.from != c.from && a.nonce < b.nonce && Fee(a) <= Fee(c) <= Fee(b)
  }

  /** No sender raises its fee from one nonce to a later one past, or onto, what
      another sender pays. */
  ghost predicate NoFeeBetween(s: seq<Transaction>) {
    forall a, b, c :: a in s && b in s && c in s ==> !FeeBetween(a, b, c)
  }

  /** The comparator is an order on a pool exactly when no rival's fee lies between
      two fees of one sender that rise with the nonce. */
  lemma TransitiveExactly(s: seq<Transaction>)
    requires NoClash(s)
    ensures Transitive(s) <==> NoFeeBetween(s)
  {
    hide Fee, NoClash;
    if NoFeeBetween(s) {
      forall a, b, c | a in s && b in s && c in s && InOrder(a, b) && InOrder(b, c) ensures InOrder(a, c) {
        OrderedTriple(s, a, b, c);
      }
    } else {
      var a, b, c :| a in s && b in s && c in s && FeeBetween(a, b, c);
      assert InOrder(a, b) && !InOrder(b, a);
      assert InOrder(b, c) && InOrder(c, a);
    }
  }

  lemma OrderedTriple(s: seq<Transaction>, a: Transaction, b: Transaction, c: Transaction)
    requires NoClash(s) && NoFeeBetween(s) && a in s && b in s && c in s && InOrder(a, b) && InOrder(b, c)
    ensures InOrder(a, c)
  {
    hide Fee, NoClash, Canonical.RpcHash;
    if a != b { EntriesDoNotClash(s, a, b); }
    if b != c { EntriesDoNotClash(s, b, c); }
    if a != c { EntriesDoNotClash(s, a, c); }
    assert !FeeBetween(a, b, c) && !FeeBetween(b, c, a) && !FeeBetween(c, a, b);
  }

  /** It can run in a circle, so that no order satisfies it. */
  lemma ComparatorCanCycle()
    ensures exists a, b, c ::
      CompareForBlock(a, b) == Less && CompareForBlock(b, c) == Less && CompareForBlock(c, a) == Less
  {
    var x := Transaction(0, 0, 0, ToBe(1, 20), None, 0, 0, 1, 0, [], [], None, None);
    var y := x.(nonce := 1, maxFeePerGas := 10);
    var z := x.(from := ToBe(2, 20), maxFeePerGas := 5);
    assert ToBe(1, 20)[19] == 1 && ToBe(2, 20)[19] == 2;
    assert CompareForBlock(x, y) == Less && CompareForBlock(y, z) == Less && CompareForBlock(z, x) == Less;
  }

  /** Each sender offers strictly less for each later nonce. */
  ghost predicate FeesFallWithNonce(s: seq<Transaction>) {
    forall a, b :: a in s && b in s && a.from == b.from && a.nonce < b.nonce ==> Fee(a) > Fee(b)
  }

  /** It is the plain fee order exactly on pools where fees fall with the nonce. */
  lemma ComparatorIsFeeOrderExactly(s: seq<Transaction>)
    requires NoClash(s)
    ensures (forall a, b :: a in s && b in s ==> CompareForBlock(a, b) == CompareNumbers(Fee(b), Fee(a)))
       <==> FeesFallWithNonce(s)
  {
    hide Fee, NoClash, Canonical.RpcHash;
    if FeesFallWithNonce(s) {
      forall a, b | a in s && b in s ensures CompareForBlock(a, b) == CompareNumbers(Fee(b), Fee(a)) {
        if a != b { EntriesDoNotClash(s, a, b); }
      }
    }
  }

  // ---- Sorting by it ----

  ghost predicate SortedForBlock(s: seq<Transaction>) {
    forall i, j :: 0 <= i < j < |s| ==> InOrder(s[i], s[j])
  }

  /** What a sort by the comparator promises: the same transactions, and in order if
      the comparator is an order on them. */
  ghost predicate IsSortOf(order: seq<Transaction>, s: seq<Transaction>) {
    multiset(order) == multiset(s) && (Transitive(s) ==> SortedForBlock(order))
  }

  function InsertForBlock(s: seq<Transaction>, t: Transaction): (r: seq<Transaction>)
    ensures multiset(r) == multiset(s) + multiset{t}
  {
    if |s| == 0 || InOrder(s[|s| - 1], t) then s + [t]
    else
      assert s == s[..|s| - 1] + [s[|s| - 1]];
      InsertForBlock(s[..|s| - 1], t) + [s[|s| - 1]]
  }

  function SortForBlock(s: seq<Transaction>): (r: seq<Transaction>)
    ensures multiset(r) == multiset(s)
  {
    if |s| == 0 then []
    else
      assert s == s[..|s| - 1] + [s[|s| - 1]];
      InsertForBlock(SortForBlock(s[..|s| - 1]), s[|s| - 1])
  }

  lemma {:induction false} InsertKeepsOrder(s: seq<Transaction>, t: Transaction)
    requires SortedForBlock(s) && Transitive(s + [t])
    ensures SortedForBlock(InsertForBlock(s, t))
  {
    hide CompareForBlock;
    if |s| > 0 {
      var front, last := s[..|s| - 1], s[|s| - 1];
      assert last in s + [t] && t in s + [t] && forall u :: u in front ==> u in s && u in s + [t];
      if InOrder(last, t) {
        forall i | 0 <= i < |front| ensures InOrder(front[i], t) {
          assert InOrder(s[i], last) && front[i] in s + [t];
        }
      } else {
        InsertKeepsOrder(front, t);
        Reversed(last, t);
        var r := InsertForBlock(front, t);
        forall i | 0 <= i < |r| ensures InOrder(r[i], last) {
          assert r[i] in multiset(front) + multiset{t};
        }
      }
    }
  }

  lemma Reversed(a: Transaction, b: Transaction)
    ensures InOrder(a, b) || InOrder(b, a)
  {
  }

  /** Where the comparator is an order, sorting by it succeeds. */
  lemma {:induction false} SortForBlockSorts(s: seq<Transaction>)
    requires Transitive(s)
    ensures SortedForBlock(SortForBlock(s))
  {
    hide CompareForBlock, InOrder;
    if |s| > 0 {
      var front, last := s[..|s| - 1], s[|s| - 1];
      assert forall u :: u in front ==> u in s;
      SortForBlockSorts(front);
      var r := SortForBlock(front);
      forall u | u in r + [last] ensures u in s {
        assert u in r ==> u in multiset(front);
      }
      InsertKeepsOrder(r, last);
    }
  }

  ghost predicate NoncesRise(s: seq<Transaction>) {
    forall i, j :: 0 <= i < j < |s| && s[i].from == s[j].from ==> s[i].nonce < s[j].nonce
  }

  /** From any order the comparator accepts, a block holds each sender's
      transactions in strictly increasing nonce order. */
  lemma BlockInNonceOrder(order: seq<Transaction>, gasLimit: u64)
    requires NoClash(order) && SortedForBlock(order)
    ensures NoncesRise(Filled(order, gasLimit))
  {
    hide Fee, Canonical.RpcHash;
    assert NoncesRise(order) by {
      forall i, j | 0 <= i < j < |order| && order[i].from == order[j].from ensures order[i].nonce < order[j].nonce {
        assert !Clash(order[i], order[j]) && InOrder(order[i], order[j]);
      }
    }
    FillKeepsNonceOrder(order, gasLimit);
  }

  lemma {:induction false} FillKeepsNonceOrder(order: seq<Transaction>, gasLimit: u64)
    requires NoncesRise(order)
    ensures NoncesRise(Filled(order, gasLimit))
    ensures forall t :: t in Filled(order, gasLimit) ==> t in order
  {
    if |order| > 0 {
      var front, last := order[..|order| - 1], order[|order| - 1];
      FillKeepsNonceOrder(front, gasLimit);
      var before := Filled(front, gasLimit);
      forall k | 0 <= k < |before| && before[k].from == last.from ensures before[k].nonce < last.nonce {
        assert before[k] in front;
      }
    }
  }

  lemma PermutationNoClash(s: seq<Transaction>, order: seq<Transaction>)
    requires NoClash(s) && multiset(order) == multiset(s)
    ensures NoClash(order)
  {
    hide Clash;
    forall i, j | 0 <= i < j < |order| ensures !Clash(order[i], order[j]) {
      var x, y := order[i], order[j];
      assert x in multiset(s) && y in multiset(s);
      AtMostOnce(s, x);
      if x == y { Twice(order, i, j); } else { EntriesDoNotClash(s, x, y); }
    }
  }

  lemma AtMostOnce(s: seq<Transaction>, x: Transaction)
    requires NoClash(s)
    ensures multiset(s)[x] <= 1
  {
    hide Clash;
    ClashesItself(x);
    if x in s {
      var i :| 0 <= i < |s| && s[i] == x;
      assert s == s[..i] + [x] + s[i + 1..];
      assert x !in s[..i] && x !in s[i + 1..];
    }
  }

  lemma ClashesItself(x: Transaction)
    ensures Clash(x, x)
  {
  }

  lemma Twice(s: seq<Transaction>, i: nat, j: nat)
    requires i < j < |s| && s[i] == s[j]
    ensures multiset(s)[s[i]] >= 2
  {
    assert s == s[..j] + [s[j]] + s[j + 1..];
    assert s[..j][i] == s[i];
  }

  /** A block drained from a pool in which no rival's fee lies between rising fees of
      one sender is in nonce order for every sender, whatever sort was used. */
  lemma DrainedInNonceOrder(s: seq<Transaction>, order: seq<Transaction>, gasLimit: u64)
    requires NoClash(s) && NoFeeBetween(s) && IsSortOf(order, s)
    ensures NoncesRise(Filled(order, gasLimit))
  {
    hide Filled, NoClash, NoFeeBetween, CompareForBlock, Transitive;
    TransitiveExactly(s);
    PermutationNoClash(s, order);
    BlockInNonceOrder(order, gasLimit);
  }
}
