/** The gateway's per-client token bucket with a bounded, self-cleaning table.
    Times and token levels are real numbers. */
module TokenBucket {
  import opened Bytes

  const RATE: real := 10.0
  const BURST: real := 20.0
  const STALE_SECONDS: real := 3600.0
  const MAX_RATE_BUCKETS: nat := 10000

  type Client = string
  datatype Bucket = Bucket(tokens: real, seen: real)
  type Table = map<Client, Bucket>

  function Capped(tokens: real): real {
    if tokens <= BURST then tokens else BURST
  }

  /** The tokens a client has at a time; a client without an entry has them all. */
  function Level(b: Table, client: Client, now: real): real {
    if client in b then Capped(b[client].tokens + (now - b[client].seen) * RATE) else BURST
  }

  function Cleaned(b: Table, cutoff: real): Table {
    map c | c in b && b[c].seen >= cutoff :: b[c]
  }

  /** The table before the bucket is consulted. */
  function MakeRoom(b: Table, client: Client, now: real): Table {
    if client !in b && |b| >= MAX_RATE_BUCKETS then Cleaned(b, now - STALE_SECONDS) else b
  }

  predicate RefusedForSpace(b: Table, client: Client, now: real) {
    client !in b && |MakeRoom(b, client, now)| >= MAX_RATE_BUCKETS
  }

  function After(b: Table, client: Client, now: real): (Table, bool) {
    var room := MakeRoom(b, client, now);
    if RefusedForSpace(b, client, now) then (room, false)
    else
      var tokens := Level(room, client, now);
      if tokens < 1.0 then (room[client := Bucket(tokens, now)], false)
      else
        var spent := room[client := Bucket(tokens - 1.0, now)];
        (if |spent| >= MAX_RATE_BUCKETS then Cleaned(spent, now - STALE_SECONDS) else spent, true)
  }

  class Gateway {
    var buckets: Table

    constructor ()
      ensures buckets == map[]
    {
      buckets := map[];
    }

    /** Walks over a snapshot of the table and pops what is too old. */
    method PopOlderThan(cutoff: real)
      modifies this
      ensures buckets == Cleaned(old(buckets), cutoff)
    {
      var keys := buckets.Keys;
      while keys != {}
        invariant keys <= buckets.Keys <= old(buckets).Keys
        invariant forall c :: c in buckets ==> buckets[c] == old(buckets)[c]
        invariant forall c :: c in old(buckets) && (c in keys || old(buckets)[c].seen >= cutoff) ==> c in buckets
        invariant forall c :: c in buckets && c !in keys ==> old(buckets)[c].seen >= cutoff
        decreases |keys|
      {
        var key :| key in keys;
        keys := keys - {key};
        if buckets[key].seen < cutoff {
          buckets := buckets - {key};
        }
      }
    }

    method Allowed(client: Client, now: real) returns (admitted: bool)
      modifies this
      ensures (buckets, admitted) == After(old(buckets), client, now)
    {
      if client !in buckets && |buckets| >= MAX_RATE_BUCKETS {
        PopOlderThan(now - STALE_SECONDS);
        if |buckets| >= MAX_RATE_BUCKETS {
          return false;
        }
      }
      var bucket := if client in buckets then buckets[client] else Bucket(BURST, now);
      var tokens := Capped(bucket.tokens + (now - bucket.seen) * RATE);
      if tokens < 1.0 {
        buckets := buckets[client := Bucket(tokens, now)];
        return false;
      }
      buckets := buckets[client := Bucket(tokens - 1.0, now)];
      if |buckets| >= MAX_RATE_BUCKETS {
        PopOlderThan(now - STALE_SECONDS);
      }
      admitted := true;
    }
  }

  // ---- One call ----

  ghost predicate Sound(b: Table, now: real) {
    |b| <= MAX_RATE_BUCKETS && forall c :: c in b ==> 0.0 <= b[c].tokens <= BURST && b[c].seen <= now
  }

  /** An entry that is an hour old has refilled, so forgetting it changes nothing. */
  lemma CleanedKeepsLevels(b: Table, cutoff: real, client: Client, t: real)
    requires client in b ==> b[client].tokens >= 0.0
    requires t >= cutoff + STALE_SECONDS
    ensures Level(Cleaned(b, cutoff), client, t) == Level(b, client, t)
  {
  }

  lemma CleanedIsSmaller(b: Table, cutoff: real)
    ensures |Cleaned(b, cutoff)| <= |b|
  {
    SubsetIsSmaller(Cleaned(b, cutoff).Keys, b.Keys);
  }

  lemma SubsetIsSmaller<T>(a: set<T>, b: set<T>)
    requires a <= b
    ensures |a| <= |b|
  {
    assert b == a + (b - a);
  }

  lemma InsertGrowsByOne(b: Table, client: Client, bucket: Bucket)
    ensures |b[client := bucket]| == |b| + (if client in b then 0 else 1)
  {
    if client in b {
      assert b[client := bucket].Keys == b.Keys;
    } else {
      assert b[client := bucket].Keys == b.Keys + {client};
    }
  }

  lemma StepKeepsSound(b: Table, client: Client, now: real, before: real)
    requires Sound(b, before) && before <= now
    ensures Sound(After(b, client, now).0, now)
  {
    var room := MakeRoom(b, client, now);
    CleanedIsSmaller(b, now - STALE_SECONDS);
    if !RefusedForSpace(b, client, now) {
      var tokens := Level(room, client, now);
      InsertGrowsByOne(room, client, Bucket(tokens, now));
      var spent := room[client := Bucket(tokens - 1.0, now)];
      InsertGrowsByOne(room, client, Bucket(tokens - 1.0, now));
      CleanedIsSmaller(spent, now - STALE_SECONDS);
    }
  }

  /** What a call does to every client's level at every later time: it takes one
      token from the caller if the caller has one, and nothing from anyone else. */
  lemma StepLevels(b: Table, client: Client, now: real, before: real, other: Client, t: real)
    requires Sound(b, before) && before <= now <= t
    ensures After(b, client, now).1 <==> !RefusedForSpace(b, client, now) && Level(b, client, now) >= 1.0
    ensures Level(After(b, client, now).0, other, t) ==
      if other == client && !RefusedForSpace(b, client, now)
      then Capped(Level(b, client, now) - (if After(b, client, now).1 then 1.0 else 0.0) + (t - now) * RATE)
      else Level(b, other, t)
  {
    var cutoff := now - STALE_SECONDS;
    var room := MakeRoom(b, client, now);
    CleanedKeepsLevels(b, cutoff, other, t);
    CleanedKeepsLevels(b, cutoff, client, now);
    if !RefusedForSpace(b, client, now) {
      var tokens := Level(room, client, now);
      var spent := room[client := Bucket(tokens - 1.0, now)];
      if tokens >= 1.0 { CleanedKeepsLevels(spent, cutoff, other, t); }
    }
  }

  lemma LevelRises(b: Table, client: Client, s: real, t: real)
    requires Sound(b, s) && s <= t
    ensures 0.0 <= Level(b, client, s) <= Level(b, client, t) <= Level(b, client, s) + (t - s) * RATE
    ensures Level(b, client, t) <= BURST
  {
  }

  // ---- Runs ----

  datatype Call = Call(client: Client, at: real)

  ghost predicate TimesRise(calls: seq<Call>, from: real) {
    (forall k :: 0 <= k < |calls| ==> from <= calls[k].at) &&
    (forall k, l :: 0 <= k < l < |calls| ==> calls[k].at <= calls[l].at)
  }

  function TableAfter(b: Table, calls: seq<Call>): Table {
    if |calls| == 0 then b
    else
      var last := calls[|calls| - 1];
      After(TableAfter(b, calls[..|calls| - 1]), last.client, last.at).0
  }

  function Decision(b: Table, calls: seq<Call>, k: nat): bool
    requires k < |calls|
  {
    After(TableAfter(b, calls[..k]), calls[k].client, calls[k].at).1
  }

  function Admissions(b: Table, calls: seq<Call>, client: Client): nat {
    if |calls| == 0 then 0
    else
      var n := |calls| - 1;
      Admissions(b, calls[..n], client) + (if calls[n].client == client && Decision(b, calls, n) then 1 else 0)
  }

  function LastTime(calls: seq<Call>, from: real): real {
    if |calls| == 0 then from else calls[|calls| - 1].at
  }

  /** The table is bounded after every run. */
  lemma {:induction false} RunKeepsSound(b: Table, calls: seq<Call>, from: real)
    requires Sound(b, from) && TimesRise(calls, from)
    ensures Sound(TableAfter(b, calls), LastTime(calls, from))
  {
    if |calls| > 0 {
      var n := |calls| - 1;
      RunKeepsSound(b, calls[..n], from);
      StepKeepsSound(TableAfter(b, calls[..n]), calls[n].client, calls[n].at, LastTime(calls[..n], from));
    }
  }

  /** Tokens are conserved: what a client got through plus what it has left is at
      most what it had plus what the time in between refilled. */
  lemma {:induction false} Conservation(b: Table, calls: seq<Call>, from: real, client: Client)
    requires Sound(b, from) && TimesRise(calls, from)
    ensures var now := LastTime(calls, from);
      Admissions(b, calls, client) as real + Level(TableAfter(b, calls), client, now)
        <= Level(b, client, from) + (now - from) * RATE
    ensures Level(TableAfter(b, calls), client, LastTime(calls, from)) >= 0.0
  {
    hide Level, After, RefusedForSpace;
    LevelRises(b, client, from, from);
    if |calls| > 0 {
      var n := |calls| - 1;
      var before, last, call := TableAfter(b, calls[..n]), LastTime(calls[..n], from), calls[n];
      RunKeepsSound(b, calls[..n], from);
      Conservation(b, calls[..n], from, client);
      LevelRises(before, client, last, call.at);
      StepLevels(before, call.client, call.at, last, client, call.at);
    }
  }

  /** In any window of any run, one client gets at most 20 + 10w calls through. */
  lemma WindowBound(calls: seq<Call>, i: nat, j: nat, client: Client, w: real)
    requires TimesRise(calls, 0.0) && i < j <= |calls| && calls[j - 1].at - calls[i].at <= w
    ensures Admissions(TableAfter(map[], calls[..i]), calls[i..j], client) as real <= 20.0 + 10.0 * w
  {
    hide After, TableAfter, Admissions, Level;
    var start, window := TableAfter(map[], calls[..i]), calls[i..j];
    RunKeepsSound(map[], calls[..i], 0.0);
    assert Sound(start, calls[i].at);
    Conservation(start, window, calls[i].at, client);
    LevelAtMostBurst(start, client, calls[i].at);
  }

  lemma LevelAtMostBurst(b: Table, client: Client, now: real)
    ensures Level(b, client, now) <= BURST
  {
  }

  // ---- What a client is sure to get ----

  function CallsBy(calls: seq<Call>, client: Client): nat {
    if |calls| == 0 then 0
    else CallsBy(calls[..|calls| - 1], client) + (if calls[|calls| - 1].client == client then 1 else 0)
  }

  /** No call takes more than one token, and time takes none. */
  lemma {:induction false} LevelLasts(b: Table, calls: seq<Call>, from: real, client: Client, t: real)
    requires Sound(b, from) && TimesRise(calls, from) && LastTime(calls, from) <= t
    ensures Level(TableAfter(b, calls), client, t) >= Level(b, client, from) - CallsBy(calls, client) as real
  {
    hide Level, After, RefusedForSpace;
    if |calls| == 0 {
      LevelRises(b, client, from, t);
    } else {
      var n := |calls| - 1;
      var before, last, call := TableAfter(b, calls[..n]), LastTime(calls[..n], from), calls[n];
      RunKeepsSound(b, calls[..n], from);
      StepKeepsSound(before, call.client, call.at, last);
      LevelLasts(b, calls[..n], from, client, call.at);
      StepLevels(before, call.client, call.at, last, client, call.at);
      LevelAtMostBurst(before, client, call.at);
      LevelRises(TableAfter(b, calls), client, call.at, t);
    }
  }

  /** The time in a bucket is that of a call its client made. */
  lemma {:induction false} SeenAtCall(calls: seq<Call>, client: Client)
    ensures client in TableAfter(map[], calls) ==>
      exists k :: 0 <= k < |calls| && calls[k].client == client && calls[k].at == TableAfter(map[], calls)[client].seen
  {
    hide Level;
    if |calls| > 0 && client in TableAfter(map[], calls) {
      var n := |calls| - 1;
      SeenAtCall(calls[..n], client);
      if calls[n].client != client {
        assert client in TableAfter(map[], calls[..n]) &&
          TableAfter(map[], calls)[client].seen == TableAfter(map[], calls[..n])[client].seen;
        var k :| 0 <= k < n && calls[..n][k].client == client &&
          calls[..n][k].at == TableAfter(map[], calls[..n])[client].seen;
        assert calls[k] == calls[..n][k];
      }
    }
  }

  /** The client made no call in the `pause` seconds before a time. */
  ghost predicate Quiet(calls: seq<Call>, client: Client, now: real, pause: real) {
    forall k :: 0 <= k < |calls| && calls[k].client == client ==> calls[k].at + pause <= now
  }

  lemma QuietLevel(calls: seq<Call>, client: Client, now: real, pause: real)
    requires TimesRise(calls, 0.0) && LastTime(calls, 0.0) <= now && Quiet(calls, client, now, pause) && pause >= 0.0
    ensures Level(TableAfter(map[], calls), client, now) >= if pause <= 2.0 then 10.0 * pause else 20.0
  {
    hide After;
    RunKeepsSound(map[], calls, 0.0);
    SeenAtCall(calls, client);
  }

  /** In any run, a client that was quiet for a tenth of a second gets its call through
      unless the table is full. */
  lemma SpacedCallAdmitted(calls: seq<Call>, k: nat)
    requires TimesRise(calls, 0.0) && k < |calls| && Quiet(calls[..k], calls[k].client, calls[k].at, 0.1)
    ensures Decision(map[], calls, k) <==>
      !RefusedForSpace(TableAfter(map[], calls[..k]), calls[k].client, calls[k].at)
  {
    hide After, Level;
    var b := TableAfter(map[], calls[..k]);
    RunKeepsSound(map[], calls[..k], 0.0);
    QuietLevel(calls[..k], calls[k].client, calls[k].at, 0.1);
    StepLevels(b, calls[k].client, calls[k].at, LastTime(calls[..k], 0.0), calls[k].client, calls[k].at);
  }

  /** And one that was quiet for two seconds gets the next twenty through, however
      fast they come. */
  lemma BurstAdmitted(calls: seq<Call>, i: nat, k: nat)
    requires TimesRise(calls, 0.0) && i <= k < |calls| && Quiet(calls[..i], calls[k].client, calls[i].at, 2.0)
    requires CallsBy(calls[i..k], calls[k].client) < 20
    ensures Decision(map[], calls, k) <==>
      !RefusedForSpace(TableAfter(map[], calls[..k]), calls[k].client, calls[k].at)
  {
    hide After, Level, RefusedForSpace, CallsBy, Quiet, TableAfter;
    var client := calls[k].client;
    RunKeepsSound(map[], calls[..k], 0.0);
    BurstLevel(calls, i, k, client);
    StepLevels(TableAfter(map[], calls[..k]), client, calls[k].at, LastTime(calls[..k], 0.0), client, calls[k].at);
  }

  lemma BurstLevel(calls: seq<Call>, i: nat, k: nat, client: Client)
    requires TimesRise(calls, 0.0) && i <= k < |calls| && Quiet(calls[..i], client, calls[i].at, 2.0)
    ensures Level(TableAfter(map[], calls[..k]), client, calls[k].at) >= 20.0 - CallsBy(calls[i..k], client) as real
  {
    hide After, Level, CallsBy, Quiet, TableAfter;
    var start := TableAfter(map[], calls[..i]);
    RunKeepsSound(map[], calls[..i], 0.0);
    QuietLevel(calls[..i], client, calls[i].at, 2.0);
    assert Sound(start, calls[i].at);
    LevelLasts(start, calls[i..k], calls[i].at, client, calls[k].at);
    RunSplits(map[], calls[..i], calls[i..k]);
    assert calls[..k] == calls[..i] + calls[i..k];
  }

  lemma {:induction false} RunSplits(b: Table, first: seq<Call>, second: seq<Call>)
    ensures TableAfter(b, first + second) == TableAfter(TableAfter(b, first), second)
    decreases |second|
  {
    hide After;
    if |second| == 0 {
      assert first + second == first;
    } else {
      var n := |second| - 1;
      RunSplits(b, first, second[..n]);
      assert (first + second)[..|first| + n] == first + second[..n];
    }
  }

  /** A call is refused for space exactly when the client is unknown and ten thousand
      others called within the hour; the table then stays as it is. */
  lemma RefusedForSpaceExactly(b: Table, client: Client, now: real, before: real)
    requires Sound(b, before) && before <= now
    ensures RefusedForSpace(b, client, now) <==>
      client !in b && |set c | c in b && b[c].seen >= now - 3600.0| >= 10000
    ensures RefusedForSpace(b, client, now) ==> After(b, client, now) == (b, false)
  {
    var recent := set c | c in b && b[c].seen >= now - 3600.0;
    assert Cleaned(b, now - STALE_SECONDS).Keys == recent;
    SubsetIsSmaller(recent, b.Keys);
    if |recent| >= 10000 {
      FullSubset(recent, b.Keys);
      assert Cleaned(b, now - STALE_SECONDS) == b;
    }
  }

  lemma FullSubset<T>(a: set<T>, b: set<T>)
    requires a <= b && |a| >= |b|
    ensures a == b
  {
    assert b == a + (b - a);
  }

  // ---- Cleaning is unobservable ----

  /** The same limiter with a table that is never cleaned and never full. */
  function ReferenceAfter(r: Table, client: Client, now: real): (Table, bool) {
    var tokens := Level(r, client, now);
    if tokens < 1.0 then (r[client := Bucket(tokens, now)], false)
    else (r[client := Bucket(tokens - 1.0, now)], true)
  }

  /** The reference over a run; calls the gateway refuses for space are not made. */
  function ReferenceTable(calls: seq<Call>): Table {
    if |calls| == 0 then map[]
    else
      var front, last := calls[..|calls| - 1], calls[|calls| - 1];
      if RefusedForSpace(TableAfter(map[], front), last.client, last.at) then ReferenceTable(front)
      else ReferenceAfter(ReferenceTable(front), last.client, last.at).0
  }

  ghost predicate SameLevels(b: Table, r: Table, from: real) {
    forall client, t :: t >= from ==> Level(b, client, t) == Level(r, client, t)
  }

  lemma ReferenceLevels(r: Table, client: Client, now: real, other: Client, t: real)
    requires now <= t
    ensures ReferenceAfter(r, client, now).1 == (Level(r, client, now) >= 1.0)
    ensures Level(ReferenceAfter(r, client, now).0, other, t) ==
      if other == client
      then Capped(Level(r, client, now) - (if ReferenceAfter(r, client, now).1 then 1.0 else 0.0) + (t - now) * RATE)
      else Level(r, other, t)
  {
  }

  lemma {:induction false} LevelsAgree(calls: seq<Call>)
    requires TimesRise(calls, 0.0)
    ensures SameLevels(TableAfter(map[], calls), ReferenceTable(calls), LastTime(calls, 0.0))
  {
    hide Level, After, ReferenceAfter, RefusedForSpace;
    if |calls| > 0 {
      var n := |calls| - 1;
      var front, call := calls[..n], calls[n];
      var b, r, last := TableAfter(map[], front), ReferenceTable(front), LastTime(front, 0.0);
      LevelsAgree(front);
      RunKeepsSound(map[], front, 0.0);
      var b', r' := TableAfter(map[], calls), ReferenceTable(calls);
      forall client, t | t >= call.at ensures Level(b', client, t) == Level(r', client, t) {
        StepLevels(b, call.client, call.at, last, client, t);
        ReferenceLevels(r, call.client, call.at, client, t);
        assert Level(b, client, t) == Level(r, client, t);
        assert Level(b, call.client, call.at) == Level(r, call.client, call.at);
      }
    }
  }

  /** Every decision of the bounded table, except a refusal for space, is the one
      the never-cleaned table takes. */
  lemma CleaningUnobservable(calls: seq<Call>, k: nat)
    requires TimesRise(calls, 0.0) && k < |calls|
    requires !RefusedForSpace(TableAfter(map[], calls[..k]), calls[k].client, calls[k].at)
    ensures Decision(map[], calls, k) == ReferenceAfter(ReferenceTable(calls[..k]), calls[k].client, calls[k].at).1
  {
    var front, call := calls[..k], calls[k];
    var b := TableAfter(map[], front);
    RunKeepsSound(map[], front, 0.0);
    LevelsAgree(front);
    assert Level(b, call.client, call.at) == Level(ReferenceTable(front), call.client, call.at);
    StepLevels(b, call.client, call.at, LastTime(front, 0.0), call.client, call.at);
  }
}
