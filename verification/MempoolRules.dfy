/** What each pool operation keeps, drops, replaces and refuses, transaction by
    transaction. */
module MempoolRules {
  import opened Bytes
  import opened Primitives
  import opened Mempool
  import Canonical
  import Consensus

  // ---- Removal ----

  /** A transaction stays in the pool: younger than the limit by the time it was first
      seen, of a nonce not yet used, or not named by either of its hashes. */
  ghost predicate Survives(p: Pool, op: Op, t: Transaction) {
    match op
    case Add(_, _, _) => true
    case RemoveExpired(now, maxAge) =>
      var hash := Canonical.RpcHash(t);
      maxAge > 0 && (hash in p.firstSeen ==> now < p.firstSeen[hash] + maxAge)
    case RemoveStaleNonces(expected) => expected(t.from) <= t.nonce
    case RemoveIncluded(hashes) => Canonical.RpcHash(t) !in hashes && Canonical.TransactionHash(t) !in hashes
  }

  /** Where the entries of one sequence stand, in order, in another. */
  ghost predicate Embeds(at: seq<nat>, part: seq<Transaction>, whole: seq<Transaction>) {
    |at| == |part| && (forall i :: 0 <= i < |at| ==> at[i] < |whole| && whole[at[i]] == part[i]) &&
    forall i, j :: 0 <= i < j < |at| ==> at[i] < at[j]
  }

  /** The survivors, each as often as before, in the order they had. */
  ghost predicate KeepsExactly(p: Pool, op: Op, rest: seq<Transaction>) {
    (exists at: seq<nat> :: Embeds(at, rest, p.transactions)) &&
    forall t :: multiset(rest)[t] == if Survives(p, op, t) then multiset(p.transactions)[t] else 0
  }

  lemma {:induction false} DropEmbeds(s: seq<Transaction>, gone: set<Transaction>) returns (at: seq<nat>)
    ensures Embeds(at, Drop(s, gone), s)
  {
    hide Embeds;
    if |s| == 0 {
      at := [];
      EmbedsNothing();
    } else {
      var front, last := s[..|s| - 1], s[|s| - 1];
      at := DropEmbeds(front, gone);
      EmbedsMore(at, Drop(front, gone), front, last);
      assert s == front + [last];
      if last !in gone { at := at + [|front|]; }
    }
  }

  lemma EmbedsNothing()
    ensures Embeds([], [], [])
  {
  }

  lemma EmbedsMore(at: seq<nat>, part: seq<Transaction>, whole: seq<Transaction>, t: Transaction)
    requires Embeds(at, part, whole)
    ensures Embeds(at, part, whole + [t]) && Embeds(at + [|whole|], part + [t], whole + [t])
  {
  }

  lemma {:induction false} DropCounts(s: seq<Transaction>, gone: set<Transaction>, t: Transaction)
    ensures multiset(Drop(s, gone))[t] == if t in gone then 0 else multiset(s)[t]
  {
    if |s| > 0 {
      DropCounts(s[..|s| - 1], gone, t);
      assert s == s[..|s| - 1] + [s[|s| - 1]];
    }
  }

  ghost function Gone(p: Pool, op: Op): set<Transaction> {
    set t | t in p.transactions && !Survives(p, op, t)
  }

  lemma AppliesWithout(p: Pool, op: Op)
    requires !op.Add?
    ensures Apply(p, op) == Without(p, Gone(p, op))
  {
    hide Without, Canonical.RpcHash, Canonical.TransactionHash;
    match op
    case RemoveExpired(now, maxAge) => assert Expired(p, now, maxAge) == Gone(p, op);
    case RemoveStaleNonces(expected) => assert Stale(p, expected) == Gone(p, op);
    case RemoveIncluded(hashes) => assert Included(p, hashes) == Gone(p, op);
  }

  /** A removal leaves exactly the survivors, in order, and forgets exactly the times
      of those that went. */
  lemma RemovesExactly(p: Pool, op: Op)
    requires !op.Add?
    ensures KeepsExactly(p, op, Apply(p, op).transactions)
    ensures forall t :: t in Apply(p, op).transactions <==> t in p.transactions && Survives(p, op, t)
    ensures forall h: Hash256 :: h in Apply(p, op).firstSeen <==>
      h in p.firstSeen && forall t :: t in p.transactions && Canonical.RpcHash(t) == h ==> Survives(p, op, t)
    ensures forall h: Hash256 :: h in Apply(p, op).firstSeen ==> Apply(p, op).firstSeen[h] == p.firstSeen[h]
  {
    hide Survives, Apply, Canonical.RpcHash, Drop;
    AppliesWithout(p, op);
    var at := DropEmbeds(p.transactions, Gone(p, op));
    forall t ensures multiset(Apply(p, op).transactions)[t] ==
      if Survives(p, op, t) then multiset(p.transactions)[t] else 0
    {
      DropCounts(p.transactions, Gone(p, op), t);
    }
  }

  // ---- Admission ----

  /** Compared by priority fee, then by max fee. */
  ghost predicate PaysMore(a: Transaction, b: Transaction) {
    a.maxPriorityFeePerGas > b.maxPriorityFeePerGas ||
    (a.maxPriorityFeePerGas == b.maxPriorityFeePerGas && a.maxFeePerGas > b.maxFeePerGas)
  }

  ghost predicate SeenBefore(s: seq<Transaction>, t: Transaction) {
    exists u :: u in s && Canonical.RpcHash(u) == Canonical.RpcHash(t)
  }

  /** The entry with the sender and nonce of `t`. */
  ghost predicate Rival(s: seq<Transaction>, t: Transaction, u: Transaction) {
    u in s && u.from == t.from && u.nonce == t.nonce
  }

  ghost predicate HasRival(s: seq<Transaction>, t: Transaction) {
    exists u :: Rival(s, t, u)
  }

  ghost predicate Full(s: seq<Transaction>) {
    |s| >= 5000
  }

  /** Whether a transaction gets in, and why not. */
  lemma AddResultExactly(p: Pool, t: Transaction, baseFee: u128, now: u64)
    requires Consistent(p)
    ensures var (q, r) := AfterAdd(p, t, baseFee, now);
      var s, admissible := p.transactions, t.maxFeePerGas >= 1_000_000_000 && Consensus.FeeVerdict(t, baseFee).Valid?;
      (r.FeeTooLow? <==> t.maxFeePerGas < 1_000_000_000) &&
      (forall e :: r == Rejected(e) <==>
        t.maxFeePerGas >= 1_000_000_000 && Consensus.FeeVerdict(t, baseFee) == Consensus.Invalid(e)) &&
      (r.ReplacementFeeTooLow? <==>
        admissible && !SeenBefore(s, t) && exists u :: Rival(s, t, u) && t.maxFeePerGas <= u.maxFeePerGas) &&
      (r.MempoolFull? <==>
        admissible && !SeenBefore(s, t) && !HasRival(s, t) && Full(s) && forall u :: u in s ==> !PaysMore(t, u)) &&
      (!r.Added? || SeenBefore(s, t) ==> q == p)
  {
    hide Canonical.RpcHash, Consensus.FeeVerdict, SortByFee, Fee;
    var s := p.transactions;
    SeenExactly(s, t);
    RivalIsFirst(s, t);
    if |s| > 0 { LowestIsLast(s, t); }
  }

  lemma SeenExactly(s: seq<Transaction>, t: Transaction)
    ensures KnownHash(s, Canonical.RpcHash(t)) <==> SeenBefore(s, t)
  {
    hide Canonical.RpcHash;
  }

  /** A pool without clashes has at most one rival, the one that is found. */
  lemma RivalIsFirst(s: seq<Transaction>, t: Transaction)
    requires NoClash(s)
    ensures SlotIndex(s, t) < |s| <==> HasRival(s, t)
    ensures SlotIndex(s, t) < |s| ==> Rival(s, t, s[SlotIndex(s, t)])
    ensures forall u :: Rival(s, t, u) ==> SlotIndex(s, t) < |s| && u == s[SlotIndex(s, t)]
  {
    hide Canonical.RpcHash;
    if SlotIndex(s, t) < |s| { assert Rival(s, t, s[SlotIndex(s, t)]); }
    forall u | Rival(s, t, u) ensures SlotIndex(s, t) < |s| && u == s[SlotIndex(s, t)] {
      var k :| 0 <= k < |s| && s[k] == u;
      assert SameSlot(s[k], t);
      if u != s[SlotIndex(s, t)] { EntriesDoNotClash(s, u, s[SlotIndex(s, t)]); }
    }
  }

  lemma LowestIsLast(s: seq<Transaction>, t: Transaction)
    requires Sorted(s) && |s| > 0
    ensures (forall u :: u in s ==> !PaysMore(t, u)) <==> Fee(t) <= Fee(s[|s| - 1])
    ensures forall u :: u in s ==> !PaysMore(s[|s| - 1], u)
  {
    hide Fee;
    var last := s[|s| - 1];
    forall u | u in s ensures Fee(u) >= Fee(last) && (PaysMore(t, u) <==> Fee(t) > Fee(u)) &&
      !PaysMore(last, u)
    {
      FeeIsLexicographic(u, t);
      FeeIsLexicographic(u, last);
    }
    assert last in s;
  }

  /** One entry makes way for `t`, and the rest stay. */
  ghost predicate Swapped(before: seq<Transaction>, after: seq<Transaction>, u: Transaction, t: Transaction) {
    u in before && multiset(after) == multiset(before) - multiset{u} + multiset{t}
  }

  ghost predicate Lowest(s: seq<Transaction>, u: Transaction) {
    u in s && forall v :: v in s ==> !PaysMore(u, v)
  }

  ghost predicate Replaces(p: Pool, q: Pool, t: Transaction, now: u64, u: Transaction) {
    Rival(p.transactions, t, u) && u.maxFeePerGas < t.maxFeePerGas &&
    Swapped(p.transactions, q.transactions, u, t) && q.firstSeen == p.firstSeen[Canonical.RpcHash(t) := now]
  }

  ghost predicate Evicts(p: Pool, q: Pool, t: Transaction, now: u64, u: Transaction) {
    Lowest(p.transactions, u) && PaysMore(t, u) && Swapped(p.transactions, q.transactions, u, t) &&
    q.firstSeen == (p.firstSeen - {Canonical.RpcHash(u)})[Canonical.RpcHash(t) := now]
  }

  ghost predicate Grows(p: Pool, q: Pool, t: Transaction, now: u64) {
    multiset(q.transactions) == multiset(p.transactions) + multiset{t} &&
    q.firstSeen == p.firstSeen[Canonical.RpcHash(t) := now]
  }

  lemma AddReplaces(p: Pool, t: Transaction, baseFee: u128, now: u64)
    requires NoClash(p.transactions) && AfterAdd(p, t, baseFee, now).1.Added? && !SeenBefore(p.transactions, t)
    requires HasRival(p.transactions, t)
    ensures exists u :: Replaces(p, AfterAdd(p, t, baseFee, now).0, t, now, u)
  {
    hide Canonical.RpcHash, Consensus.FeeVerdict, SortByFee, Fee, NoClash, HasRival, SlotIndex, SeenBefore, KnownHash;
    hide Rival;
    var s := p.transactions;
    SeenExactly(s, t);
    RivalIsFirst(s, t);
    ReplaceSwaps(s, SlotIndex(s, t), t);
    assert Replaces(p, AfterAdd(p, t, baseFee, now).0, t, now, s[SlotIndex(s, t)]);
  }

  lemma AddEvicts(p: Pool, t: Transaction, baseFee: u128, now: u64)
    requires NoClash(p.transactions) && AfterAdd(p, t, baseFee, now).1.Added? && !SeenBefore(p.transactions, t)
    requires Sorted(p.transactions) && !HasRival(p.transactions, t) && Full(p.transactions)
    ensures exists u :: Evicts(p, AfterAdd(p, t, baseFee, now).0, t, now, u)
  {
    hide Canonical.RpcHash, AfterAdd, Fee, NoClash, HasRival, SeenBefore, Sorted, EvictLast, Added1;
    var s := p.transactions;
    var last := s[|s| - 1];
    EvictedState(p, t, baseFee, now);
    LowestIsLast(s, t);
    FeeIsLexicographic(last, t);
    LastSwapped(p, t, now);
    assert Evicts(p, AfterAdd(p, t, baseFee, now).0, t, now, last);
  }

  lemma EvictedState(p: Pool, t: Transaction, baseFee: u128, now: u64)
    requires NoClash(p.transactions) && AfterAdd(p, t, baseFee, now).1.Added? && !SeenBefore(p.transactions, t)
    requires !HasRival(p.transactions, t) && Full(p.transactions)
    ensures AfterAdd(p, t, baseFee, now).0 == Added1(EvictLast(p), t, now)
    ensures Fee(t) > Fee(p.transactions[|p.transactions| - 1])
  {
    hide Canonical.RpcHash, Consensus.FeeVerdict, Fee, NoClash, HasRival, SlotIndex, SeenBefore, KnownHash, EvictLast,
      Added1;
    SeenExactly(p.transactions, t);
    RivalIsFirst(p.transactions, t);
  }

  lemma LastSwapped(p: Pool, t: Transaction, now: u64)
    requires |p.transactions| > 0
    ensures var last, q := p.transactions[|p.transactions| - 1], Added1(EvictLast(p), t, now);
      Swapped(p.transactions, q.transactions, last, t) &&
      q.firstSeen == (p.firstSeen - {Canonical.RpcHash(last)})[Canonical.RpcHash(t) := now]
  {
    hide Canonical.RpcHash, SortByFee;
    var s := p.transactions;
    ReplaceSwaps(s, |s| - 1, t);
    assert s[..|s| - 1] + [t] == s[|s| - 1 := t];
  }

  lemma AddGrows(p: Pool, t: Transaction, baseFee: u128, now: u64)
    requires NoClash(p.transactions) && AfterAdd(p, t, baseFee, now).1.Added? && !SeenBefore(p.transactions, t)
    requires !HasRival(p.transactions, t) && !Full(p.transactions)
    ensures Grows(p, AfterAdd(p, t, baseFee, now).0, t, now)
  {
    hide Canonical.RpcHash, Consensus.FeeVerdict, SortByFee, Fee, NoClash, HasRival, SlotIndex, SeenBefore, KnownHash;
    SeenExactly(p.transactions, t);
    RivalIsFirst(p.transactions, t);
    assert multiset(p.transactions + [t]) == multiset(p.transactions) + multiset{t};
  }

  /** What an admission changes: a rival is replaced by a higher max fee, a full pool
      loses an entry that pays least and less than `t`, and otherwise the pool grows. */
  lemma AddStateExactly(p: Pool, t: Transaction, baseFee: u128, now: u64)
    requires Consistent(p) && AfterAdd(p, t, baseFee, now).1.Added? && !SeenBefore(p.transactions, t)
    ensures var s, q := p.transactions, AfterAdd(p, t, baseFee, now).0;
      Sorted(q.transactions) &&
      if HasRival(s, t) then exists u :: Replaces(p, q, t, now, u)
      else if Full(s) then exists u :: Evicts(p, q, t, now, u)
      else Grows(p, q, t, now)
  {
    hide AfterAdd, SeenBefore, HasRival, Full, Replaces, Evicts, Grows, NoClash, Sorted;
    AddKeepsConsistent(p, t, baseFee, now);
    if HasRival(p.transactions, t) {
      AddReplaces(p, t, baseFee, now);
    } else if Full(p.transactions) {
      AddEvicts(p, t, baseFee, now);
    } else {
      AddGrows(p, t, baseFee, now);
    }
  }

  lemma ReplaceSwaps(s: seq<Transaction>, i: nat, t: Transaction)
    requires i < |s|
    ensures multiset(s[i := t]) == multiset(s) - multiset{s[i]} + multiset{t}
  {
    assert s == s[..i] + [s[i]] + s[i + 1..] && s[i := t] == s[..i] + [t] + s[i + 1..];
  }
}
