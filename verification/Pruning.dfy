/** Dropping old block bodies until the database fits its budget. */
module Pruning {
  import opened Bytes
  import opened Primitives
  import opened Keys
  import opened ChainTables
  import opened LogIndex
  import Canonical

  function PruneTarget(maxBytes: u64): u64 {
    Min(U64_MAX, maxBytes * 9) / 10
  }

  /** Nine tenths of the budget, rounded down, up to the budgets whose ninefold no
      longer fits 64 bits; for those it is a tenth of the largest 64-bit number. */
  lemma PruneTargetIs(maxBytes: u64)
    ensures 9 * maxBytes <= U64_MAX ==> 10 * PruneTarget(maxBytes) <= 9 * maxBytes < 10 * (PruneTarget(maxBytes) + 1)
    ensures 9 * maxBytes > U64_MAX ==> 10 * PruneTarget(maxBytes) <= U64_MAX < 10 * (PruneTarget(maxBytes) + 1)
    ensures PruneTarget(maxBytes) <= maxBytes
  {
  }

  predicate HasBody(db: Db, n: u64) {
    BlockAt(n) in db && db[BlockAt(n)].BlockRow?
  }

  function Heights(db: Db, minimum: u64): set<u64> {
    set k | k in db && k.BlockAt? && k.number > minimum :: k.number
  }

  /** One turn of the loop: a body that cannot be read is passed over. */
  function Step(db: Db, n: u64): Db {
    if HasBody(db, n) then Pruned(db, n) else db
  }

  function StepAll(db: Db, numbers: seq<u64>): Db
    decreases |numbers|
  {
    if |numbers| == 0 then db else StepAll(Step(db, numbers[0]), numbers[1..])
  }

  /** Steps until a reading of the disk usage is at the target. The readings are
      taken one before each step; what they are is up to the file system. */
  function PrunedTo(db: Db, numbers: seq<u64>, readings: seq<u64>, target: u64): Db
    requires |readings| == |numbers|
    decreases |numbers|
  {
    if |numbers| == 0 || readings[0] <= target then db
    else PrunedTo(Step(db, numbers[0]), numbers[1..], readings[1..], target)
  }

  predicate Ascending(numbers: seq<u64>) {
    forall i, j :: 0 <= i < j < |numbers| ==> numbers[i] < numbers[j]
  }

  /** The heights to consider, oldest first. */
  ghost predicate Listing(db: Db, minimum: u64, numbers: seq<u64>) {
    Ascending(numbers) && forall n :: n in numbers <==> n in Heights(db, minimum)
  }

  method ListHeights(db: Db, minimum: u64) returns (numbers: seq<u64>)
    ensures Listing(db, minimum, numbers)
  {
    hide Spell, Ascending;
    var keys := set k | k in db && "block:number:" <= Spell(k);
    ScanFindsBodies(db);
    var heights := set k | k in keys && k.number > minimum :: k.number;
    assert heights == Heights(db, minimum);
    numbers := Sorted(heights);
  }

  lemma ScanFindsBodies(db: Db)
    ensures (set k | k in db && "block:number:" <= Spell(k)) == set k | k in db && k.BlockAt?
  {
    hide Spell;
    forall k | k in db ensures "block:number:" <= Spell(k) <==> k.BlockAt? { ScanBlocks(k); }
  }

  method Sorted(s: set<u64>) returns (numbers: seq<u64>)
    ensures Ascending(numbers) && forall n :: n in numbers <==> n in s
  {
    numbers := [];
    var rest := s;
    while rest != {}
      invariant rest <= s && Ascending(numbers)
      invariant forall n :: n in s ==> n in numbers || n in rest
      invariant forall i :: 0 <= i < |numbers| ==> numbers[i] in s
      invariant forall i, m :: 0 <= i < |numbers| && m in rest ==> numbers[i] < m
      decreases |rest|
    {
      var n := Smallest(rest);
      numbers := numbers + [n];
      rest := rest - {n};
    }
  }

  method Smallest(s: set<u64>) returns (least: u64)
    requires s != {}
    ensures least in s && forall n :: n in s ==> least <= n
  {
    least :| least in s;
    var rest := s - {least};
    while rest != {}
      invariant rest <= s && least in s && forall n :: n in s ==> n in rest || least <= n
      decreases |rest|
    {
      var n :| n in rest;
      if n < least { least := n; }
      rest := rest - {n};
    }
  }

  // ---- What is left ----

  lemma {:induction false} StepAllKeeps(db: Db, numbers: seq<u64>, k: Key)
    ensures IndexSound(db) ==> IndexSound(StepAll(db, numbers))
    ensures k in StepAll(db, numbers) ==> k in db && StepAll(db, numbers)[k] == db[k]
    ensures k.HeaderAt? && k in db ==> k in StepAll(db, numbers)
    ensures k.BlockAt? && k.number !in numbers && k in db ==> k in StepAll(db, numbers)
    ensures k.BlockAt? && k.number in numbers && HasBody(db, k.number) ==> k !in StepAll(db, numbers)
    decreases |numbers|
  {
    if |numbers| > 0 {
      StepKeeps(db, numbers[0], k);
      StepAllKeeps(Step(db, numbers[0]), numbers[1..], k);
      hide *;
    }
  }

  lemma StepKeeps(db: Db, n: u64, k: Key)
    ensures IndexSound(db) ==> IndexSound(Step(db, n))
    ensures k in Step(db, n) ==> k in db && Step(db, n)[k] == db[k]
    ensures k.HeaderAt? && k in db ==> k in Step(db, n)
    ensures k.BlockAt? && k in db ==> (k in Step(db, n) <==> k.number != n || !HasBody(db, n))
  {
    hide IndexSound, HashesOf, LocationNumber;
    if HasBody(db, n) && IndexSound(db) { PruneKeepsSound(db, n); }
  }

  /** The oldest bodies above the minimum go, up to the first reading at the target;
      every other body, every header and the exactness of the log index stay. */
  lemma PrunesOldestFirst(db: Db, minimum: u64, numbers: seq<u64>, readings: seq<u64>, target: u64) returns (cut: nat)
    requires Listing(db, minimum, numbers) && |readings| == |numbers|
    ensures cut <= |numbers| && PrunedTo(db, numbers, readings, target) == StepAll(db, numbers[..cut])
    ensures cut < |numbers| ==> readings[cut] <= target
    ensures forall i :: 0 <= i < cut ==> readings[i] > target
    ensures IndexSound(db) ==> IndexSound(StepAll(db, numbers[..cut]))
    ensures forall n: u64 :: HasBody(db, n) ==>
      (HasBody(StepAll(db, numbers[..cut]), n) <==> n <= minimum || (cut < |numbers| && n >= numbers[cut]))
    ensures forall n: u64 :: HeaderAt(n) in db ==>
      HeaderAt(n) in StepAll(db, numbers[..cut]) && StepAll(db, numbers[..cut])[HeaderAt(n)] == db[HeaderAt(n)]
  {
    hide *;
    cut := ShortestPrefix(db, numbers, readings, target);
    StepAllKeeps(db, numbers[..cut], BestNumber);
    forall n: u64 | HasBody(db, n)
      ensures HasBody(StepAll(db, numbers[..cut]), n) <==> n <= minimum || (cut < |numbers| && n >= numbers[cut])
    {
      BodyLeft(db, minimum, numbers, cut, n);
    }
    forall n: u64 | HeaderAt(n) in db
      ensures HeaderAt(n) in StepAll(db, numbers[..cut]) && StepAll(db, numbers[..cut])[HeaderAt(n)] == db[HeaderAt(n)]
    {
      StepAllKeeps(db, numbers[..cut], HeaderAt(n));
    }
  }

  lemma BodyLeft(db: Db, minimum: u64, numbers: seq<u64>, cut: nat, n: u64)
    requires Listing(db, minimum, numbers) && cut <= |numbers| && HasBody(db, n)
    ensures HasBody(StepAll(db, numbers[..cut]), n) <==> n <= minimum || (cut < |numbers| && n >= numbers[cut])
  {
    hide StepAll;
    StepAllKeeps(db, numbers[..cut], BlockAt(n));
    assert BlockAt(n).number == n;
    assert n in Heights(db, minimum) <==> n > minimum;
    if n > minimum {
      var i :| 0 <= i < |numbers| && numbers[i] == n;
      assert n in numbers[..cut] <==> i < cut;
    }
  }

  lemma {:induction false} ShortestPrefix(db: Db, numbers: seq<u64>, readings: seq<u64>, target: u64) returns (cut: nat)
    requires |readings| == |numbers|
    ensures cut <= |numbers| && PrunedTo(db, numbers, readings, target) == StepAll(db, numbers[..cut])
    ensures cut < |numbers| ==> readings[cut] <= target
    ensures forall i :: 0 <= i < cut ==> readings[i] > target
    decreases |numbers|
  {
    hide Step;
    cut := 0;
    if |numbers| > 0 && readings[0] > target {
      var cut' := ShortestPrefix(Step(db, numbers[0]), numbers[1..], readings[1..], target);
      cut := cut' + 1;
      assert numbers[..cut][1..] == numbers[1..][..cut'];
    }
  }

  // ---- Transaction and receipt rows ----

  predicate Indexes(db: Db, n: u64, h: Hash256) {
    HasBody(db, n) && h in HashesOf(db[BlockAt(n)].block)
  }

  /** Some retained body has a transaction indexed under the hash. */
  ghost predicate Retains(db: Db, h: Hash256) {
    exists n: u64 :: Indexes(db, n, h)
  }

  /** The transaction and receipt rows are those of the retained bodies. */
  ghost predicate HashRowsSound(db: Db) {
    forall h: Hash256 :: (TransactionBy(h) in db <==> Retains(db, h)) && (ReceiptBy(h) in db <==> Retains(db, h))
  }

  ghost predicate Dropped(db: Db, numbers: seq<u64>, h: Hash256) {
    exists n: u64 :: n in numbers && Indexes(db, n, h)
  }

  /** A transaction or receipt row goes exactly when a dropped body is indexed under it. */
  lemma {:induction false} HashRowLeft(db: Db, numbers: seq<u64>, k: Key)
    requires HashOf(k).Some?
    ensures k in StepAll(db, numbers) <==> k in db && !Dropped(db, numbers, HashOf(k).value)
    decreases |numbers|
  {
    hide HashesOf, LocationNumber;
    if |numbers| > 0 {
      var n, h, db' := numbers[0], HashOf(k).value, Step(db, numbers[0]);
      HashRowLeft(db', numbers[1..], k);
      assert Dropped(db, numbers, h) <==> Indexes(db, n, h) || Dropped(db', numbers[1..], h)
        by { DroppedStep(db, numbers, h); }
    }
  }

  lemma DroppedStep(db: Db, numbers: seq<u64>, h: Hash256)
    requires |numbers| > 0
    ensures Dropped(db, numbers, h) <==>
      Indexes(db, numbers[0], h) || Dropped(Step(db, numbers[0]), numbers[1..], h)
  {
    hide HashesOf, Step;
    var first, db' := numbers[0], Step(db, numbers[0]);
    forall n: u64 ensures HasBody(db', n) <==> HasBody(db, n) && n != first
      ensures HasBody(db', n) ==> db'[BlockAt(n)] == db[BlockAt(n)]
    {
      StepKeeps(db, first, BlockAt(n));
    }
    assert forall n: u64 :: n in numbers <==> n == first || n in numbers[1..];
  }

  /** No listed body shares a transaction hash with a body that is not listed. */
  ghost predicate NothingShared(db: Db, numbers: seq<u64>) {
    forall n: u64, m: u64, h: Hash256 :: n in numbers && m !in numbers && Indexes(db, n, h) ==> !Indexes(db, m, h)
  }

  /** Dropping the listed bodies leaves exactly the transaction and receipt rows of the
      retained ones if and only if the two share no transaction hash. */
  lemma HashRowsSoundExactly(db: Db, numbers: seq<u64>)
    requires HashRowsSound(db)
    ensures HashRowsSound(StepAll(db, numbers)) <==> NothingShared(db, numbers)
  {
    hide StepAll, HasBody, Dropped, NothingShared, Retains;
    var after := StepAll(db, numbers);
    forall h: Hash256
      ensures TransactionBy(h) in after <==> TransactionBy(h) in db && !Dropped(db, numbers, h)
      ensures ReceiptBy(h) in after <==> ReceiptBy(h) in db && !Dropped(db, numbers, h)
      ensures Retains(db, h) <==> Retains(after, h) || Dropped(db, numbers, h)
    {
      HashRowLeft(db, numbers, TransactionBy(h));
      HashRowLeft(db, numbers, ReceiptBy(h));
      RetainedOrDropped(db, numbers, h);
    }
    SharedExactly(db, numbers);
  }

  lemma BodiesLeft(db: Db, numbers: seq<u64>, n: u64)
    ensures HasBody(StepAll(db, numbers), n) <==> HasBody(db, n) && n !in numbers
    ensures HasBody(StepAll(db, numbers), n) ==> StepAll(db, numbers)[BlockAt(n)] == db[BlockAt(n)]
  {
    hide StepAll;
    StepAllKeeps(db, numbers, BlockAt(n));
  }

  lemma RetainedOrDropped(db: Db, numbers: seq<u64>, h: Hash256)
    ensures Retains(db, h) <==> Retains(StepAll(db, numbers), h) || Dropped(db, numbers, h)
  {
    hide HashesOf, StepAll, HasBody;
    forall n: u64 ensures Indexes(StepAll(db, numbers), n, h) <==> Indexes(db, n, h) && n !in numbers {
      BodiesLeft(db, numbers, n);
    }
  }

  lemma SharedExactly(db: Db, numbers: seq<u64>)
    ensures NothingShared(db, numbers) <==>
      forall h: Hash256 :: !(Dropped(db, numbers, h) && Retains(StepAll(db, numbers), h))
  {
    hide HashesOf, StepAll, HasBody;
    forall n: u64, h: Hash256 ensures Indexes(StepAll(db, numbers), n, h) <==> Indexes(db, n, h) && n !in numbers {
      BodiesLeft(db, numbers, n);
    }
    if h: Hash256 :| Dropped(db, numbers, h) && Retains(StepAll(db, numbers), h) {
      var n: u64 :| n in numbers && Indexes(db, n, h);
      var m: u64 :| Indexes(StepAll(db, numbers), m, h);
      assert m !in numbers && Indexes(db, m, h);
    }
    if !NothingShared(db, numbers) {
      var n: u64, m: u64, h: Hash256 :| n in numbers && m !in numbers && Indexes(db, n, h) && Indexes(db, m, h);
      assert Indexes(StepAll(db, numbers), m, h);
      assert Dropped(db, numbers, h) && Retains(StepAll(db, numbers), h);
    }
  }
}
