/** Canonical bytes of the chain records, and the decoder they determine.

    Each encoder takes the bytes that follow it, so that a record is read back
    from the front of whatever it was written into. */
module Canonical {
  import opened Bytes
  import opened Primitives

  type Parsed<T> = Option<(T, seq<byte>)>

  function PutU64(n: nat, rest: seq<byte>): seq<byte> {
    ToBe(n, 8) + rest
  }

  function PutU128(n: nat, rest: seq<byte>): seq<byte> {
    ToBe(n, 16) + rest
  }

  function PutBytes(b: seq<byte>, rest: seq<byte>): seq<byte> {
    PutU64(|b|, b + rest)
  }

  function PutBool(b: bool, rest: seq<byte>): seq<byte> {
    [if b then 1 else 0] + rest
  }

  function Take(s: seq<byte>, n: nat): Parsed<seq<byte>> {
    if |s| < n then None else Some((s[..n], s[n..]))
  }

  function GetHash(s: seq<byte>): Parsed<Hash256> {
    if |s| < 32 then None else Some((s[..32], s[32..]))
  }

  function GetAddress(s: seq<byte>): Parsed<Address> {
    if |s| < 20 then None else Some((s[..20], s[20..]))
  }

  function GetBool(s: seq<byte>): Parsed<bool> {
    if |s| < 1 || s[0] > 1 then None else Some((s[0] == 1, s[1..]))
  }

  function GetU64(s: seq<byte>): Parsed<u64> {
    if |s| < 8 then None
    else
      BeNatBound(s[..8]);
      WordSizes();
      Some((BeNat(s[..8]), s[8..]))
  }

  function GetU128(s: seq<byte>): Parsed<u128> {
    if |s| < 16 then None
    else
      BeNatBound(s[..16]);
      WordSizes();
      Some((BeNat(s[..16]), s[16..]))
  }

  function GetBytes(s: seq<byte>): Parsed<seq<byte>> {
    var (n, s) :- GetU64(s);
    Take(s, n)
  }

  lemma TakeBack(a: seq<byte>, rest: seq<byte>)
    ensures Take(a + rest, |a|) == Some((a, rest))
  {
    assert (a + rest)[..|a|] == a && (a + rest)[|a|..] == rest;
  }

  lemma HashBack(h: Hash256, rest: seq<byte>)
    ensures GetHash(h + rest) == Some((h, rest))
  {
    TakeBack(h, rest);
  }

  lemma AddressBack(a: Address, rest: seq<byte>)
    ensures GetAddress(a + rest) == Some((a, rest))
  {
    TakeBack(a, rest);
  }

  lemma U64Back(n: u64, rest: seq<byte>)
    ensures GetU64(PutU64(n, rest)) == Some((n, rest))
  {
    WordSizes();
    TakeBack(ToBe(n, 8), rest);
    BeNatToBe(n, 8);
  }

  lemma U128Back(n: u128, rest: seq<byte>)
    ensures GetU128(PutU128(n, rest)) == Some((n, rest))
  {
    WordSizes();
    TakeBack(ToBe(n, 16), rest);
    BeNatToBe(n, 16);
  }

  lemma BytesBack(b: seq<byte>, rest: seq<byte>)
    requires |b| <= U64_MAX
    ensures GetBytes(PutBytes(b, rest)) == Some((b, rest))
  {
    U64Back(|b|, b + rest);
    TakeBack(b, rest);
  }

  // ---- Headers ----

  /** The part of a header before its seal, and the algorithm it names. */
  function PutUnsealed(h: BlockHeader, rest: seq<byte>): seq<byte> {
    h.parentHash + PutU64(h.number, h.stateRoot + (h.transactionsRoot + (h.receiptsRoot + (h.beneficiary +
    (h.difficultyTarget + PutU128(h.baseFeePerGas, PutU64(h.gasLimit, PutU64(h.gasUsed,
    PutU64(h.timestampSeconds, PutBytes(h.powAlgorithm, PutU64(h.powEpoch, PutU64(h.extraNonce, rest))))))))))))
  }

  function PutHeader(h: BlockHeader, rest: seq<byte>): seq<byte> {
    PutUnsealed(h, h.mixHash + PutU64(h.nonce, rest))
  }

  /** What the proof of work commits to: everything but the mix hash. */
  function PowPreimage(h: BlockHeader): seq<byte> {
    PutUnsealed(h, PutU64(h.nonce, []))
  }

  function HeaderBytes(h: BlockHeader): seq<byte> {
    PutHeader(h, [])
  }

  function HeaderHash(h: BlockHeader): Hash256 {
    Sha256(HeaderBytes(h))
  }

  function GetUnsealed(s: seq<byte>): Parsed<BlockHeader> {
    var (parentHash, s) :- GetHash(s);
    var (number, s) :- GetU64(s);
    var (stateRoot, s) :- GetHash(s);
    var (transactionsRoot, s) :- GetHash(s);
    var (receiptsRoot, s) :- GetHash(s);
    var (beneficiary, s) :- GetHash(s);
    var (difficultyTarget, s) :- GetHash(s);
    var (baseFeePerGas, s) :- GetU128(s);
    var (gasLimit, s) :- GetU64(s);
    var (gasUsed, s) :- GetU64(s);
    var (timestampSeconds, s) :- GetU64(s);
    var (powAlgorithm, s) :- GetBytes(s);
    var (powEpoch, s) :- GetU64(s);
    var (extraNonce, s) :- GetU64(s);
    Some((BlockHeader(parentHash, number, stateRoot, transactionsRoot, receiptsRoot, beneficiary, difficultyTarget,
                      baseFeePerGas, gasLimit, gasUsed, timestampSeconds, powAlgorithm, powEpoch, extraNonce,
                      ZERO_HASH, 0), s))
  }

  function GetHeader(s: seq<byte>): Parsed<BlockHeader> {
    var (h, s) :- GetUnsealed(s);
    var (mixHash, s) :- GetHash(s);
    var (nonce, s) :- GetU64(s);
    Some((h.(mixHash := mixHash, nonce := nonce), s))
  }

  lemma UnsealedBack(h: BlockHeader, rest: seq<byte>)
    requires |h.powAlgorithm| <= U64_MAX
    ensures GetUnsealed(PutUnsealed(h, rest)) == Some((h.(mixHash := ZERO_HASH, nonce := 0), rest))
  {
    U64Back(h.extraNonce, rest);
    var s := PutU64(h.extraNonce, rest);
    U64Back(h.powEpoch, s); s := PutU64(h.powEpoch, s);
    BytesBack(h.powAlgorithm, s); s := PutBytes(h.powAlgorithm, s);
    U64Back(h.timestampSeconds, s); s := PutU64(h.timestampSeconds, s);
    U64Back(h.gasUsed, s); s := PutU64(h.gasUsed, s);
    U64Back(h.gasLimit, s); s := PutU64(h.gasLimit, s);
    U128Back(h.baseFeePerGas, s); s := PutU128(h.baseFeePerGas, s);
    HashBack(h.difficultyTarget, s); s := h.difficultyTarget + s;
    HashBack(h.beneficiary, s); s := h.beneficiary + s;
    HashBack(h.receiptsRoot, s); s := h.receiptsRoot + s;
    HashBack(h.transactionsRoot, s); s := h.transactionsRoot + s;
    HashBack(h.stateRoot, s); s := h.stateRoot + s;
    U64Back(h.number, s); s := PutU64(h.number, s);
    HashBack(h.parentHash, s);
  }

  lemma HeaderBack(h: BlockHeader, rest: seq<byte>)
    requires |h.powAlgorithm| <= U64_MAX
    ensures GetHeader(PutHeader(h, rest)) == Some((h, rest))
  {
    U64Back(h.nonce, rest);
    HashBack(h.mixHash, PutU64(h.nonce, rest));
    UnsealedBack(h, h.mixHash + PutU64(h.nonce, rest));
  }

  /** Bytes at an offset, and where the next field begins. */
  lemma FieldAt(b: seq<byte>, at: nat, field: seq<byte>, rest: seq<byte>)
    requires at <= |b| && b[at..] == field + rest
    ensures at + |field| <= |b| && b[at..at + |field|] == field && b[at + |field|..] == rest
  {
    assert b[at..][..|field|] == field && b[at..][|field|..] == rest;
  }

  lemma NumberAt(b: seq<byte>, at: nat, n: nat, width: nat, rest: seq<byte>)
    requires at <= |b| && b[at..] == ToBe(n, width) + rest && n < Pow(256, width)
    ensures at + width <= |b| && BeNat(b[at..at + width]) == n && b[at + width..] == rest
  {
    FieldAt(b, at, ToBe(n, width), rest);
    BeNatToBe(n, width);
  }

  /** Where the hashes of a header stand in the bytes that are hashed. */
  lemma HeaderHashesAt(h: BlockHeader)
    requires |h.powAlgorithm| <= U64_MAX
    ensures var b := HeaderBytes(h);
      |b| >= 200 && b[..32] == h.parentHash && BeNat(b[32..40]) == h.number && b[40..72] == h.stateRoot &&
      b[72..104] == h.transactionsRoot && b[104..136] == h.receiptsRoot && b[136..168] == h.beneficiary &&
      b[168..200] == h.difficultyTarget && b[200..] == AfterHashes(h)
  {
    hide ToBe, Pow, BeNat, AfterHashes;
    WordSizes();
    var b, rest := HeaderBytes(h), AfterHashes(h);
    var roots := h.receiptsRoot + (h.beneficiary + (h.difficultyTarget + rest));
    HeaderSplits(h);
    FieldAt(b, 0, h.parentHash, ToBe(h.number, 8) + (h.stateRoot + (h.transactionsRoot + roots)));
    NumberAt(b, 32, h.number, 8, h.stateRoot + (h.transactionsRoot + roots));
    FieldAt(b, 40, h.stateRoot, h.transactionsRoot + roots);
    FieldAt(b, 72, h.transactionsRoot, roots);
    FieldAt(b, 104, h.receiptsRoot, h.beneficiary + (h.difficultyTarget + rest));
    FieldAt(b, 136, h.beneficiary, h.difficultyTarget + rest);
    FieldAt(b, 168, h.difficultyTarget, rest);
  }

  function AfterHashes(h: BlockHeader): seq<byte> {
    PutU128(h.baseFeePerGas, PutU64(h.gasLimit, PutU64(h.gasUsed, PutU64(h.timestampSeconds,
    PutU64(|h.powAlgorithm|, h.powAlgorithm + AfterAlgorithm(h))))))
  }

  function AfterAlgorithm(h: BlockHeader): seq<byte> {
    PutU64(h.powEpoch, PutU64(h.extraNonce, h.mixHash + PutU64(h.nonce, [])))
  }

  lemma HeaderSplits(h: BlockHeader)
    ensures HeaderBytes(h)[0..] ==
      h.parentHash + (ToBe(h.number, 8) + (h.stateRoot + (h.transactionsRoot + (h.receiptsRoot +
      (h.beneficiary + (h.difficultyTarget + AfterHashes(h)))))))
  {
    hide ToBe;
    assert HeaderBytes(h)[0..] == HeaderBytes(h);
  }

  /** Where its counters and its algorithm stand. */
  lemma HeaderCountersAt(h: BlockHeader)
    requires |h.powAlgorithm| <= U64_MAX
    ensures var b, n := HeaderBytes(h), |h.powAlgorithm|;
      |b| >= 248 + n && BeNat(b[200..216]) == h.baseFeePerGas && BeNat(b[216..224]) == h.gasLimit &&
      BeNat(b[224..232]) == h.gasUsed && BeNat(b[232..240]) == h.timestampSeconds && BeNat(b[240..248]) == n &&
      b[248..248 + n] == h.powAlgorithm && b[248 + n..] == AfterAlgorithm(h)
  {
    hide ToBe, Pow, BeNat, HeaderBytes, AfterAlgorithm;
    WordSizes();
    var b, n := HeaderBytes(h), |h.powAlgorithm|;
    var algorithm := h.powAlgorithm + AfterAlgorithm(h);
    var times := PutU64(h.timestampSeconds, PutU64(n, algorithm));
    HeaderHashesAt(h);
    NumberAt(b, 200, h.baseFeePerGas, 16, PutU64(h.gasLimit, PutU64(h.gasUsed, times)));
    NumberAt(b, 216, h.gasLimit, 8, PutU64(h.gasUsed, times));
    NumberAt(b, 224, h.gasUsed, 8, times);
    NumberAt(b, 232, h.timestampSeconds, 8, PutU64(n, algorithm));
    NumberAt(b, 240, n, 8, algorithm);
    FieldAt(b, 248, h.powAlgorithm, AfterAlgorithm(h));
  }

  /** And where its seal stands, which is all that the proof of work leaves out but for
      the nonce. */
  lemma HeaderSealAt(h: BlockHeader)
    requires |h.powAlgorithm| <= U64_MAX
    ensures var b, n := HeaderBytes(h), |h.powAlgorithm|;
      |b| == 304 + n && BeNat(b[248 + n..256 + n]) == h.powEpoch && BeNat(b[256 + n..264 + n]) == h.extraNonce &&
      b[264 + n..296 + n] == h.mixHash && BeNat(b[296 + n..]) == h.nonce &&
      PowPreimage(h) == b[..264 + n] + b[296 + n..]
  {
    hide ToBe, Pow, BeNat, HeaderBytes, PowPreimage;
    WordSizes();
    var b, n := HeaderBytes(h), |h.powAlgorithm|;
    var seal := h.mixHash + PutU64(h.nonce, []);
    HeaderCountersAt(h);
    NumberAt(b, 248 + n, h.powEpoch, 8, PutU64(h.extraNonce, seal));
    NumberAt(b, 256 + n, h.extraNonce, 8, seal);
    FieldAt(b, 264 + n, h.mixHash, PutU64(h.nonce, []));
    NumberAt(b, 296 + n, h.nonce, 8, []);
    assert b[296 + n..304 + n] == b[296 + n..];
    PreimageSplits(h, b);
  }

  lemma PreimageSplits(h: BlockHeader, b: seq<byte>)
    requires b == HeaderBytes(h)
    ensures var n := |h.powAlgorithm|; |b| == 304 + n && PowPreimage(h) == b[..264 + n] + b[296 + n..]
  {
    hide ToBe, PutUnsealed;
    UnsealedThen(h, h.mixHash + PutU64(h.nonce, []));
    UnsealedThen(h, PutU64(h.nonce, []));
  }

  lemma UnsealedThen(h: BlockHeader, rest: seq<byte>)
    ensures PutUnsealed(h, rest) == PutUnsealed(h, []) + rest && |PutUnsealed(h, [])| == 264 + |h.powAlgorithm|
  {
    hide ToBe;
  }

  /** The preimage fixes every header field except the mix hash. */
  lemma PowPreimageInjective(h: BlockHeader, h': BlockHeader)
    requires |h.powAlgorithm| <= U64_MAX && |h'.powAlgorithm| <= U64_MAX
    ensures PowPreimage(h) == PowPreimage(h') <==> h.(mixHash := h'.mixHash) == h'
  {
    UnsealedBack(h, PutU64(h.nonce, []));
    UnsealedBack(h', PutU64(h'.nonce, []));
    U64Back(h.nonce, []);
    U64Back(h'.nonce, []);
  }

  // ---- Counted runs of hashes, and of length-prefixed items ----

  function PutHashes(hs: seq<Hash256>, rest: seq<byte>): seq<byte> {
    if |hs| == 0 then rest else hs[0] + PutHashes(hs[1..], rest)
  }

  function GetHashes(n: nat, s: seq<byte>): Parsed<seq<Hash256>> {
    if n == 0 then Some(([], s))
    else
      var (h, s) :- GetHash(s);
      var (hs, s) :- GetHashes(n - 1, s);
      Some(([h] + hs, s))
  }

  lemma {:induction false} HashesBack(hs: seq<Hash256>, rest: seq<byte>)
    ensures GetHashes(|hs|, PutHashes(hs, rest)) == Some((hs, rest))
  {
    if |hs| > 0 {
      HashBack(hs[0], PutHashes(hs[1..], rest));
      HashesBack(hs[1..], rest);
      assert hs == [hs[0]] + hs[1..];
    }
  }

  function PutItems(items: seq<seq<byte>>, rest: seq<byte>): seq<byte> {
    if |items| == 0 then rest else PutBytes(items[0], PutItems(items[1..], rest))
  }

  function GetItems(n: nat, s: seq<byte>): Parsed<seq<seq<byte>>> {
    if n == 0 then Some(([], s))
    else
      var (item, s) :- GetBytes(s);
      var (items, s) :- GetItems(n - 1, s);
      Some(([item] + items, s))
  }

  ghost predicate AllFit(items: seq<seq<byte>>) {
    |items| <= U64_MAX && forall k :: 0 <= k < |items| ==> |items[k]| <= U64_MAX
  }

  lemma {:induction false} ItemsBack(items: seq<seq<byte>>, rest: seq<byte>)
    requires AllFit(items)
    ensures GetItems(|items|, PutItems(items, rest)) == Some((items, rest))
  {
    if |items| > 0 {
      BytesBack(items[0], PutItems(items[1..], rest));
      ItemsBack(items[1..], rest);
      assert items == [items[0]] + items[1..];
    }
  }

  /** Appending to a run and continuing is the same as the longer run. */
  lemma {:induction false} ItemsConcat(a: seq<seq<byte>>, b: seq<seq<byte>>, rest: seq<byte>)
    ensures PutItems(a + b, rest) == PutItems(a, PutItems(b, rest))
  {
    if |a| == 0 {
      assert a + b == b;
    } else {
      assert (a + b)[1..] == a[1..] + b;
      ItemsConcat(a[1..], b, rest);
    }
  }

  lemma {:induction false} ItemsTail(items: seq<seq<byte>>, s: seq<byte>, rest: seq<byte>)
    ensures PutItems(items, s + rest) == PutItems(items, s) + rest
  {
    if |items| > 0 {
      ItemsTail(items[1..], s, rest);
      BytesTail(items[0], PutItems(items[1..], s), rest);
    }
  }

  lemma BytesTail(b: seq<byte>, s: seq<byte>, rest: seq<byte>)
    ensures PutBytes(b, s + rest) == PutBytes(b, s) + rest
  {
    assert ToBe(|b|, 8) + (b + (s + rest)) == ToBe(|b|, 8) + (b + s) + rest;
  }

  lemma {:induction false} HashesTail(hs: seq<Hash256>, s: seq<byte>, rest: seq<byte>)
    ensures PutHashes(hs, s + rest) == PutHashes(hs, s) + rest
  {
    if |hs| > 0 {
      HashesTail(hs[1..], s, rest);
      assert hs[0] + (PutHashes(hs[1..], s) + rest) == hs[0] + PutHashes(hs[1..], s) + rest;
    }
  }

  lemma {:induction false} HashesConcat(a: seq<Hash256>, b: seq<Hash256>, rest: seq<byte>)
    ensures PutHashes(a + b, rest) == PutHashes(a, PutHashes(b, rest))
  {
    if |a| == 0 {
      assert a + b == b;
    } else {
      assert (a + b)[1..] == a[1..] + b;
      HashesConcat(a[1..], b, rest);
    }
  }

  /** One turn of a loop that appends length-prefixed items. */
  lemma ItemsSnoc(prefix: seq<byte>, items: seq<seq<byte>>, i: nat)
    requires i < |items|
    ensures prefix + PutItems(items[..i + 1], []) == prefix + PutItems(items[..i], []) + PutBytes(items[i], [])
  {
    var one := [items[i]];
    assert items[..i + 1] == items[..i] + one;
    ItemsConcat(items[..i], one, []);
    ItemsTail(items[..i], [], PutItems(one, []));
    assert |one[1..]| == 0;
    assert [] + PutItems(one, []) == PutBytes(items[i], []);
    HashTail(prefix, PutItems(items[..i], []), PutBytes(items[i], []));
  }

  /** The loop that appends one hash after another. */
  method AppendHashes(out: seq<byte>, hs: seq<Hash256>) returns (result: seq<byte>)
    ensures result == out + PutHashes(hs, [])
  {
    result := out;
    assert hs[..0] == [] && out + [] == out;
    for i := 0 to |hs|
      invariant result == out + PutHashes(hs[..i], [])
    {
      ghost var one := [hs[i]];
      assert hs[..i + 1] == hs[..i] + one;
      HashesConcat(hs[..i], one, []);
      HashesTail(hs[..i], [], PutHashes(one, []));
      assert |one[1..]| == 0;
      assert [] + PutHashes(one, []) == hs[i] + [] == hs[i];
      result := result + hs[i];
    }
    assert hs[..|hs|] == hs;
  }

  function MapBytes<T>(xs: seq<T>, encode: T -> seq<byte>): (items: seq<seq<byte>>)
    ensures |items| == |xs|
    ensures forall k :: 0 <= k < |xs| ==> items[k] == encode(xs[k])
  {
    if |xs| == 0 then [] else [encode(xs[0])] + MapBytes(xs[1..], encode)
  }

  function DecodeAll<T>(items: seq<seq<byte>>, decode: seq<byte> -> Option<T>): Option<seq<T>> {
    if |items| == 0 then Some([])
    else
      var x :- decode(items[0]);
      var xs :- DecodeAll(items[1..], decode);
      Some([x] + xs)
  }

  lemma {:induction false} DecodeAllBack<T>(items: seq<seq<byte>>, decode: seq<byte> -> Option<T>, xs: seq<T>)
    requires |items| == |xs|
    requires forall k :: 0 <= k < |xs| ==> decode(items[k]) == Some(xs[k])
    ensures DecodeAll(items, decode) == Some(xs)
  {
    if |xs| > 0 {
      DecodeAllBack(items[1..], decode, xs[1..]);
      assert xs == [xs[0]] + xs[1..];
    }
  }

  // ---- Logs and receipts ----

  function PutLog(log: LogEntry, rest: seq<byte>): seq<byte> {
    log.address + PutU64(|log.topics|, PutHashes(log.topics, PutBytes(log.data, rest)))
  }

  function LogBytes(log: LogEntry): seq<byte> {
    PutLog(log, [])
  }

  method EncodeLog(log: LogEntry) returns (out: seq<byte>)
    ensures out == LogBytes(log)
  {
    out := log.address + ToBe(|log.topics|, 8);
    out := AppendHashes(out, log.topics);
    var data := PutBytes(log.data, []);
    HashesTail(log.topics, [], data);
    assert [] + data == data && data + [] == data;
    ConcatAssociates(log.address, ToBe(|log.topics|, 8), PutHashes(log.topics, []), data, []);
    out := out + data;
  }

  function DecodeLog(s: seq<byte>): Option<LogEntry> {
    var (address, s) :- GetAddress(s);
    var (n, s) :- GetU64(s);
    var (topics, s) :- GetHashes(n, s);
    var (data, s) :- GetBytes(s);
    if s == [] then Some(LogEntry(address, topics, data)) else None
  }

  ghost predicate LogFits(log: LogEntry) {
    |log.topics| <= U64_MAX && |log.data| <= U64_MAX && |LogBytes(log)| <= U64_MAX
  }

  lemma LogRoundTrip(log: LogEntry)
    requires LogFits(log)
    ensures DecodeLog(LogBytes(log)) == Some(log)
  {
    var data := PutBytes(log.data, []);
    BytesBack(log.data, []);
    HashesBack(log.topics, data);
    U64Back(|log.topics|, PutHashes(log.topics, data));
    AddressBack(log.address, PutU64(|log.topics|, PutHashes(log.topics, data)));
  }

  /** Logs are only written when there are any, so that a log-free receipt keeps
      its older encoding. */
  function LogsSection(logs: seq<LogEntry>): seq<byte> {
    if |logs| == 0 then [] else PutU64(|logs|, PutItems(MapBytes(logs, LogBytes), []))
  }

  function ReceiptBytes(r: Receipt): seq<byte> {
    r.transactionHash + PutBool(r.success, PutU64(r.gasUsed, r.logsRoot + LogsSection(r.logs)))
  }

  method EncodeReceipt(r: Receipt) returns (out: seq<byte>)
    ensures out == ReceiptBytes(r)
  {
    out := r.transactionHash + [if r.success then 1 else 0] + ToBe(r.gasUsed, 8) + r.logsRoot;
    ReceiptHead(r, out);
    if |r.logs| > 0 {
      ghost var head := out;
      out := out + ToBe(|r.logs|, 8);
      out := AppendLogs(out, r.logs);
      assert out == head + LogsSection(r.logs);
    }
  }

  method AppendLogs(prefix: seq<byte>, logs: seq<LogEntry>) returns (out: seq<byte>)
    ensures out == prefix + PutItems(MapBytes(logs, LogBytes), [])
  {
    out := prefix;
    ghost var items := MapBytes(logs, LogBytes);
    assert items[..0] == [];
    for i := 0 to |logs|
      invariant out == prefix + PutItems(items[..i], [])
    {
      var log := EncodeLog(logs[i]);
      ItemsSnoc(prefix, items, i);
      out := out + PutBytes(log, []);
    }
    assert items[..|logs|] == items;
  }

  lemma ReceiptHead(r: Receipt, head: seq<byte>)
    requires head == r.transactionHash + [if r.success then 1 else 0] + ToBe(r.gasUsed, 8) + r.logsRoot
    ensures head + LogsSection(r.logs) == ReceiptBytes(r)
    ensures |r.logs| == 0 ==> head == ReceiptBytes(r)
  {
    var section := LogsSection(r.logs);
    ConcatAssociates(r.transactionHash, [if r.success then 1 else 0], ToBe(r.gasUsed, 8), r.logsRoot, section);
    assert |r.logs| == 0 ==> head + section == head;
  }

  function DecodeReceipt(s: seq<byte>): Option<Receipt> {
    var (transactionHash, s) :- GetHash(s);
    var (success, s) :- GetBool(s);
    var (gasUsed, s) :- GetU64(s);
    var (logsRoot, s) :- GetHash(s);
    if s == [] then Some(Receipt(transactionHash, success, gasUsed, logsRoot, []))
    else
      var (n, s) :- GetU64(s);
      var (items, s) :- GetItems(n, s);
      var logs :- DecodeAll(items, DecodeLog);
      if s == [] then Some(Receipt(transactionHash, success, gasUsed, logsRoot, logs)) else None
  }

  ghost predicate ReceiptFits(r: Receipt) {
    |r.logs| <= U64_MAX && (forall k :: 0 <= k < |r.logs| ==> LogFits(r.logs[k])) && |ReceiptBytes(r)| <= U64_MAX
  }

  lemma ReceiptRoundTrip(r: Receipt)
    requires ReceiptFits(r)
    ensures DecodeReceipt(ReceiptBytes(r)) == Some(r)
  {
    var items, section := MapBytes(r.logs, LogBytes), LogsSection(r.logs);
    HashBack(r.logsRoot, section);
    U64Back(r.gasUsed, r.logsRoot + section);
    HashBack(r.transactionHash, PutBool(r.success, PutU64(r.gasUsed, r.logsRoot + section)));
    if |r.logs| > 0 {
      U64Back(|r.logs|, PutItems(items, []));
      ItemsBack(items, []);
      forall k | 0 <= k < |r.logs| ensures DecodeLog(items[k]) == Some(r.logs[k]) {
        LogRoundTrip(r.logs[k]);
      }
      DecodeAllBack(items, DecodeLog, r.logs);
    }
  }

  // ---- Transactions ----

  function PutTo(to: Option<Address>, rest: seq<byte>): seq<byte> {
    match to
    case Some(address) => [1] + (address + rest)
    case None => [0] + rest
  }

  function GetTo(s: seq<byte>): Parsed<Option<Address>> {
    var (present, s) :- GetBool(s);
    if present then
      var (address, s) :- GetAddress(s);
      Some((Some(address), s))
    else Some((None, s))
  }

  function PutSignature(signature: Option<Signature>, rest: seq<byte>): seq<byte> {
    match signature
    case Some(sig) => [1] + PutBool(sig.yParity, sig.r + (sig.s + rest))
    case None => [0] + rest
  }

  function GetSignature(s: seq<byte>): Parsed<Option<Signature>> {
    var (present, s) :- GetBool(s);
    if present then
      var (yParity, s) :- GetBool(s);
      var (r, s) :- GetHash(s);
      var (s', s) :- GetHash(s);
      Some((Some(Signature(yParity, r, s')), s))
    else Some((None, s))
  }

  function PutEntries(entries: seq<AccessListItem>, rest: seq<byte>): seq<byte> {
    if |entries| == 0 then rest
    else
      var keys := entries[0].storageKeys;
      entries[0].address + PutU64(|keys|, PutHashes(keys, PutEntries(entries[1..], rest)))
  }

  function GetEntries(n: nat, s: seq<byte>): Parsed<seq<AccessListItem>> {
    if n == 0 then Some(([], s))
    else
      var (address, s) :- GetAddress(s);
      var (k, s) :- GetU64(s);
      var (keys, s) :- GetHashes(k, s);
      var (entries, s) :- GetEntries(n - 1, s);
      Some(([AccessListItem(address, keys)] + entries, s))
  }

  ghost predicate EntriesFit(entries: seq<AccessListItem>) {
    forall k :: 0 <= k < |entries| ==> |entries[k].storageKeys| <= U64_MAX
  }

  lemma {:induction false} EntriesBack(entries: seq<AccessListItem>, rest: seq<byte>)
    requires EntriesFit(entries)
    ensures GetEntries(|entries|, PutEntries(entries, rest)) == Some((entries, rest))
  {
    if |entries| > 0 {
      var tail := PutEntries(entries[1..], rest);
      var keys := entries[0].storageKeys;
      AddressBack(entries[0].address, PutU64(|keys|, PutHashes(keys, tail)));
      U64Back(|keys|, PutHashes(keys, tail));
      HashesBack(keys, tail);
      EntriesBack(entries[1..], rest);
      assert entries == [entries[0]] + entries[1..];
    }
  }

  const ACCESS_LIST_MARKER: byte := 0xa5

  predicate HasAccessSection(t: Transaction) {
    |t.accessList| > 0 || t.transactionType == 1
  }

  function PutAccessSection(t: Transaction, rest: seq<byte>): seq<byte> {
    if HasAccessSection(t) then
      [ACCESS_LIST_MARKER, t.transactionType] + PutU64(|t.accessList|, PutEntries(t.accessList, rest))
    else rest
  }

  function PutTransactionHead(t: Transaction, rest: seq<byte>): seq<byte> {
    PutU64(t.chainId, PutU64(t.nonce, t.from + PutTo(t.to, PutU128(t.value, PutU64(t.gasLimit,
    PutU128(t.maxFeePerGas, PutU128(t.maxPriorityFeePerGas, PutBytes(t.payload, rest))))))))
  }

  function TransactionBytes(t: Transaction): seq<byte> {
    PutTransactionHead(t, PutAccessSection(t, PutSignature(t.signature, [])))
  }

  function TransactionHash(t: Transaction): Hash256 {
    Sha256(TransactionBytes(t))
  }

  function RpcHash(t: Transaction): Hash256 {
    if t.externalHash.Some? then t.externalHash.value else TransactionHash(t)
  }

  /** The part of a transaction before the optional section. */
  function GetTransactionHead(s: seq<byte>): Parsed<Transaction> {
    var (chainId, s) :- GetU64(s);
    var (nonce, s) :- GetU64(s);
    var (from, s) :- GetAddress(s);
    var (to, s) :- GetTo(s);
    var (value, s) :- GetU128(s);
    var (gasLimit, s) :- GetU64(s);
    var (maxFeePerGas, s) :- GetU128(s);
    var (maxPriorityFeePerGas, s) :- GetU128(s);
    var (payload, s) :- GetBytes(s);
    Some((Transaction(chainId, 2, nonce, from, to, value, gasLimit, maxFeePerGas, maxPriorityFeePerGas,
                      payload, [], None, None), s))
  }

  /** The marker byte cannot open a signature, so one byte tells the two apart. */
  function GetAccessSection(t: Transaction, s: seq<byte>): Parsed<Transaction> {
    if |s| >= 2 && s[0] == ACCESS_LIST_MARKER then
      var (n, rest) :- GetU64(s[2..]);
      var (entries, rest) :- GetEntries(n, rest);
      Some((t.(transactionType := s[1], accessList := entries), rest))
    else Some((t, s))
  }

  function DecodeTransaction(s: seq<byte>): Option<Transaction> {
    var (head, s) :- GetTransactionHead(s);
    var (t, s) :- GetAccessSection(head, s);
    var (signature, s) :- GetSignature(s);
    if s == [] then Some(t.(signature := signature)) else None
  }

  /** What the bytes keep: all but the external hash, and the type only when the
      access-list section is written. */
  function Recoverable(t: Transaction): Transaction {
    t.(externalHash := None, transactionType := if HasAccessSection(t) then t.transactionType else 2)
  }

  ghost predicate TransactionFits(t: Transaction) {
    |t.payload| <= U64_MAX && |t.accessList| <= U64_MAX && EntriesFit(t.accessList) && |TransactionBytes(t)| <= U64_MAX
  }

  lemma TransactionHeadBack(t: Transaction, rest: seq<byte>)
    requires |t.payload| <= U64_MAX
    ensures GetTransactionHead(PutTransactionHead(t, rest))
         == Some((t.(transactionType := 2, accessList := [], signature := None, externalHash := None), rest))
  {
    BytesBack(t.payload, rest);
    var s := PutBytes(t.payload, rest);
    U128Back(t.maxPriorityFeePerGas, s); s := PutU128(t.maxPriorityFeePerGas, s);
    U128Back(t.maxFeePerGas, s); s := PutU128(t.maxFeePerGas, s);
    U64Back(t.gasLimit, s); s := PutU64(t.gasLimit, s);
    U128Back(t.value, s); s := PutU128(t.value, s);
    if t.to.Some? { AddressBack(t.to.value, s); }
    s := PutTo(t.to, s);
    AddressBack(t.from, s); s := t.from + s;
    U64Back(t.nonce, s); s := PutU64(t.nonce, s);
    U64Back(t.chainId, s);
  }

  lemma SignatureBack(signature: Option<Signature>, rest: seq<byte>)
    ensures GetSignature(PutSignature(signature, rest)) == Some((signature, rest))
  {
    if signature.Some? {
      HashBack(signature.value.s, rest);
      HashBack(signature.value.r, signature.value.s + rest);
    }
  }

  lemma AccessSectionBack(t: Transaction, head: Transaction, rest: seq<byte>)
    requires |t.accessList| <= U64_MAX && EntriesFit(t.accessList)
    requires |rest| > 0 && rest[0] != ACCESS_LIST_MARKER
    ensures GetAccessSection(head, PutAccessSection(t, rest))
         == Some((if HasAccessSection(t) then head.(transactionType := t.transactionType, accessList := t.accessList)
                  else head, rest))
  {
    if HasAccessSection(t) {
      var entries := PutEntries(t.accessList, rest);
      U64Back(|t.accessList|, entries);
      EntriesBack(t.accessList, rest);
      assert PutAccessSection(t, rest)[2..] == PutU64(|t.accessList|, entries);
    }
  }

  lemma TransactionRoundTrip(t: Transaction)
    requires TransactionFits(t)
    ensures DecodeTransaction(TransactionBytes(t)) == Some(Recoverable(t))
  {
    var signature := PutSignature(t.signature, []);
    TransactionHeadBack(t, PutAccessSection(t, signature));
    AccessSectionBack(t, t.(transactionType := 2, accessList := [], signature := None, externalHash := None),
      signature);
    SignatureBack(t.signature, []);
  }

  /** Transaction shapes that fee validation lets through. */
  predicate AcceptedShape(t: Transaction) {
    t.transactionType <= 2 && (t.transactionType == 0 ==> |t.accessList| == 0)
  }

  /** Two accepted transactions share their bytes exactly when they differ at
      most in the external hash, and in type 0 against 2 without access list. */
  lemma TransactionBytesIdentify(t: Transaction, t': Transaction)
    requires TransactionFits(t) && TransactionFits(t') && AcceptedShape(t) && AcceptedShape(t')
    ensures TransactionBytes(t) == TransactionBytes(t')
       <==> t.(externalHash := None, transactionType := 0) == t'.(externalHash := None, transactionType := 0) &&
            (t.transactionType == t'.transactionType ||
             (|t.accessList| == 0 && t.transactionType != 1 && t'.transactionType != 1))
  {
    TransactionRoundTrip(t);
    TransactionRoundTrip(t');
  }

  lemma {:induction false} EntriesTail(entries: seq<AccessListItem>, s: seq<byte>, rest: seq<byte>)
    ensures PutEntries(entries, s + rest) == PutEntries(entries, s) + rest
  {
    if |entries| > 0 {
      var keys := entries[0].storageKeys;
      EntriesTail(entries[1..], s, rest);
      HashesTail(keys, PutEntries(entries[1..], s), rest);
      var tail := PutHashes(keys, PutEntries(entries[1..], s));
      assert entries[0].address + (ToBe(|keys|, 8) + (tail + rest)) ==
        entries[0].address + (ToBe(|keys|, 8) + tail) + rest;
    }
  }

  lemma {:induction false} EntriesConcat(a: seq<AccessListItem>, b: seq<AccessListItem>, rest: seq<byte>)
    ensures PutEntries(a + b, rest) == PutEntries(a, PutEntries(b, rest))
  {
    if |a| == 0 {
      assert a + b == b;
    } else {
      assert (a + b)[1..] == a[1..] + b;
      EntriesConcat(a[1..], b, rest);
    }
  }

  lemma EntriesSnoc(entries: seq<AccessListItem>, i: nat)
    requires i < |entries|
    ensures PutEntries(entries[..i + 1], []) ==
      PutEntries(entries[..i], []) +
        (entries[i].address + PutU64(|entries[i].storageKeys|, PutHashes(entries[i].storageKeys, [])))
  {
    var one := [entries[i]];
    assert entries[..i + 1] == entries[..i] + one;
    EntriesConcat(entries[..i], one, []);
    EntriesTail(entries[..i], [], PutEntries(one, []));
    assert |one[1..]| == 0;
    assert [] + PutEntries(one, []) == PutEntries(one, []);
  }

  /** The nested loops over access-list entries and their storage keys. */
  method AppendEntries(prefix: seq<byte>, entries: seq<AccessListItem>) returns (out: seq<byte>)
    ensures out == prefix + PutEntries(entries, [])
  {
    out := prefix;
    assert entries[..0] == [];
    for i := 0 to |entries|
      invariant out == prefix + PutEntries(entries[..i], [])
    {
      EntriesSnoc(entries, i);
      ghost var before := PutEntries(entries[..i], []);
      var keys := entries[i].storageKeys;
      out := out + entries[i].address + ToBe(|keys|, 8);
      out := AppendHashes(out, keys);
      assert out == prefix + before + (entries[i].address + PutU64(|keys|, PutHashes(keys, [])));
    }
    assert entries[..|entries|] == entries;
  }

  lemma NumbersTail(n: nat, s: seq<byte>, rest: seq<byte>)
    ensures PutU64(n, s + rest) == PutU64(n, s) + rest
    ensures PutU128(n, s + rest) == PutU128(n, s) + rest
  {
    assert ToBe(n, 8) + (s + rest) == ToBe(n, 8) + s + rest;
    assert ToBe(n, 16) + (s + rest) == ToBe(n, 16) + s + rest;
  }

  lemma TransactionHeadTail(t: Transaction, rest: seq<byte>)
    ensures PutTransactionHead(t, rest) == PutTransactionHead(t, []) + rest
  {
    assert [] + rest == rest;
    BytesTail(t.payload, [], rest);
    var s := PutBytes(t.payload, []);
    NumbersTail(t.maxPriorityFeePerGas, s, rest); s := PutU128(t.maxPriorityFeePerGas, s);
    NumbersTail(t.maxFeePerGas, s, rest); s := PutU128(t.maxFeePerGas, s);
    NumbersTail(t.gasLimit, s, rest); s := PutU64(t.gasLimit, s);
    NumbersTail(t.value, s, rest); s := PutU128(t.value, s);
    ToTail(t.to, s, rest); s := PutTo(t.to, s);
    assert t.from + (s + rest) == t.from + s + rest; s := t.from + s;
    NumbersTail(t.nonce, s, rest); s := PutU64(t.nonce, s);
    NumbersTail(t.chainId, s, rest);
  }

  lemma ToTail(to: Option<Address>, s: seq<byte>, rest: seq<byte>)
    ensures PutTo(to, s + rest) == PutTo(to, s) + rest
  {
    match to
    case Some(address) => assert [1] + (address + (s + rest)) == [1] + (address + s) + rest;
    case None => assert [0] + (s + rest) == [0] + s + rest;
  }

  method EncodeTransaction(t: Transaction) returns (out: seq<byte>)
    ensures out == TransactionBytes(t)
  {
    var head := PutTransactionHead(t, []);
    out := head;
    if |t.accessList| > 0 || t.transactionType == 1 {
      out := out + [ACCESS_LIST_MARKER, t.transactionType];
      out := out + ToBe(|t.accessList|, 8);
      out := AppendEntries(out, t.accessList);
    }
    SectionsInOrder(t, head, out);
    var signature := EncodeSignature(t.signature);
    out := out + signature;
  }

  method EncodeSignature(signature: Option<Signature>) returns (out: seq<byte>)
    ensures out == PutSignature(signature, [])
  {
    match signature
    case Some(sig) => out := [1, if sig.yParity then 1 else 0] + sig.r + sig.s;
    case None => out := [0];
  }

  lemma ConcatAssociates(a: seq<byte>, b: seq<byte>, c: seq<byte>, d: seq<byte>, e: seq<byte>)
    ensures a + b + c + d + e == a + (b + (c + (d + e)))
  {
    assert c + d + e == c + (d + e);
    assert a + b + c + d + e == a + b + (c + d + e);
    assert a + b + (c + (d + e)) == a + (b + (c + (d + e)));
  }

  lemma SectionsInOrder(t: Transaction, head: seq<byte>, out: seq<byte>)
    requires head == PutTransactionHead(t, [])
    requires HasAccessSection(t) ==>
      out == head + [ACCESS_LIST_MARKER, t.transactionType] + ToBe(|t.accessList|, 8) + PutEntries(t.accessList, [])
    requires !HasAccessSection(t) ==> out == head
    ensures out + PutSignature(t.signature, []) == TransactionBytes(t)
  {
    var signature := PutSignature(t.signature, []);
    TransactionHeadTail(t, PutAccessSection(t, signature));
    if HasAccessSection(t) {
      EntriesTail(t.accessList, [], signature);
      assert [] + signature == signature;
      ConcatAssociates(head, [ACCESS_LIST_MARKER, t.transactionType], ToBe(|t.accessList|, 8),
                       PutEntries(t.accessList, []), signature);
    }
  }

  // ---- Blocks and roots ----

  function BlockBytes(b: Block): seq<byte> {
    PutHeader(b.header,
      PutU64(|b.transactions|, PutItems(MapBytes(b.transactions, TransactionBytes),
        PutU64(|b.receipts|, PutItems(MapBytes(b.receipts, ReceiptBytes), [])))))
  }

  function DecodeBlock(s: seq<byte>): Option<Block> {
    var (header, s) :- GetHeader(s);
    var (n, s) :- GetU64(s);
    var (transactionItems, s) :- GetItems(n, s);
    var (m, s) :- GetU64(s);
    var (receiptItems, s) :- GetItems(m, s);
    var transactions :- DecodeAll(transactionItems, DecodeTransaction);
    var receipts :- DecodeAll(receiptItems, DecodeReceipt);
    if s == [] then Some(Block(header, transactions, receipts)) else None
  }

  ghost predicate BlockFits(b: Block) {
    |b.header.powAlgorithm| <= U64_MAX &&
    |b.transactions| <= U64_MAX && (forall k :: 0 <= k < |b.transactions| ==> TransactionFits(b.transactions[k])) &&
    |b.receipts| <= U64_MAX && (forall k :: 0 <= k < |b.receipts| ==> ReceiptFits(b.receipts[k]))
  }

  function RecoverableAll(ts: seq<Transaction>): (rs: seq<Transaction>)
    ensures |rs| == |ts| && forall k :: 0 <= k < |ts| ==> rs[k] == Recoverable(ts[k])
  {
    if |ts| == 0 then [] else [Recoverable(ts[0])] + RecoverableAll(ts[1..])
  }

  lemma TransactionsBack(ts: seq<Transaction>)
    requires forall k :: 0 <= k < |ts| ==> TransactionFits(ts[k])
    ensures DecodeAll(MapBytes(ts, TransactionBytes), DecodeTransaction) == Some(RecoverableAll(ts))
  {
    var items := MapBytes(ts, TransactionBytes);
    forall k | 0 <= k < |ts| ensures DecodeTransaction(items[k]) == Some(Recoverable(ts[k])) {
      TransactionRoundTrip(ts[k]);
    }
    DecodeAllBack(items, DecodeTransaction, RecoverableAll(ts));
  }

  lemma ReceiptsBack(rs: seq<Receipt>)
    requires forall k :: 0 <= k < |rs| ==> ReceiptFits(rs[k])
    ensures DecodeAll(MapBytes(rs, ReceiptBytes), DecodeReceipt) == Some(rs)
  {
    var items := MapBytes(rs, ReceiptBytes);
    forall k | 0 <= k < |rs| ensures DecodeReceipt(items[k]) == Some(rs[k]) {
      ReceiptRoundTrip(rs[k]);
    }
    DecodeAllBack(items, DecodeReceipt, rs);
  }

  lemma BlockRoundTrip(b: Block)
    requires BlockFits(b)
    ensures DecodeBlock(BlockBytes(b)) == Some(b.(transactions := RecoverableAll(b.transactions)))
  {
    hide TransactionBytes, ReceiptBytes, DecodeTransaction, DecodeReceipt, PutHeader, GetHeader, ToBe;
    TransactionsBack(b.transactions);
    ReceiptsBack(b.receipts);
    var ts, rs := MapBytes(b.transactions, TransactionBytes), MapBytes(b.receipts, ReceiptBytes);
    assert AllFit(ts) && AllFit(rs);
    ItemsBack(rs, []);
    var s1 := PutItems(rs, []);
    U64Back(|rs|, s1);
    var s2 := PutU64(|rs|, s1);
    ItemsBack(ts, s2);
    var s3 := PutItems(ts, s2);
    U64Back(|ts|, s3);
    HeaderBack(b.header, PutU64(|ts|, s3));
  }

  lemma HashTail(h: seq<byte>, s: seq<byte>, rest: seq<byte>)
    ensures h + (s + rest) == h + s + rest
  {
  }

  lemma UnsealedTail(h: BlockHeader, s: seq<byte>, rest: seq<byte>)
    ensures PutUnsealed(h, s + rest) == PutUnsealed(h, s) + rest
  {
    NumbersTail(h.extraNonce, s, rest);
    var s := PutU64(h.extraNonce, s);
    NumbersTail(h.powEpoch, s, rest); s := PutU64(h.powEpoch, s);
    BytesTail(h.powAlgorithm, s, rest); s := PutBytes(h.powAlgorithm, s);
    NumbersTail(h.timestampSeconds, s, rest); s := PutU64(h.timestampSeconds, s);
    NumbersTail(h.gasUsed, s, rest); s := PutU64(h.gasUsed, s);
    NumbersTail(h.gasLimit, s, rest); s := PutU64(h.gasLimit, s);
    NumbersTail(h.baseFeePerGas, s, rest); s := PutU128(h.baseFeePerGas, s);
    HashTail(h.difficultyTarget, s, rest); s := h.difficultyTarget + s;
    HashTail(h.beneficiary, s, rest); s := h.beneficiary + s;
    HashTail(h.receiptsRoot, s, rest); s := h.receiptsRoot + s;
    HashTail(h.transactionsRoot, s, rest); s := h.transactionsRoot + s;
    HashTail(h.stateRoot, s, rest); s := h.stateRoot + s;
    NumbersTail(h.number, s, rest); s := PutU64(h.number, s);
    HashTail(h.parentHash, s, rest);
  }

  lemma HeaderTail(h: BlockHeader, rest: seq<byte>)
    ensures PutHeader(h, rest) == HeaderBytes(h) + rest
  {
    assert [] + rest == rest;
    NumbersTail(h.nonce, [], rest);
    HashTail(h.mixHash, PutU64(h.nonce, []), rest);
    UnsealedTail(h, h.mixHash + PutU64(h.nonce, []), rest);
  }

  method EncodeBlock(b: Block) returns (out: seq<byte>)
    ensures out == BlockBytes(b)
  {
    out := HeaderBytes(b.header) + ToBe(|b.transactions|, 8);
    out := AppendTransactions(out, b.transactions);
    out := out + ToBe(|b.receipts|, 8);
    out := AppendReceipts(out, b.receipts);
    BlockSections(b);
  }

  method AppendTransactions(prefix: seq<byte>, ts: seq<Transaction>) returns (out: seq<byte>)
    ensures out == prefix + PutItems(MapBytes(ts, TransactionBytes), [])
  {
    out := prefix;
    ghost var items := MapBytes(ts, TransactionBytes);
    assert items[..0] == [];
    for i := 0 to |ts|
      invariant out == prefix + PutItems(items[..i], [])
    {
      var item := EncodeTransaction(ts[i]);
      ItemsSnoc(prefix, items, i);
      out := out + PutBytes(item, []);
    }
    assert items[..|ts|] == items;
  }

  method AppendReceipts(prefix: seq<byte>, rs: seq<Receipt>) returns (out: seq<byte>)
    ensures out == prefix + PutItems(MapBytes(rs, ReceiptBytes), [])
  {
    out := prefix;
    ghost var items := MapBytes(rs, ReceiptBytes);
    assert items[..0] == [];
    for i := 0 to |rs|
      invariant out == prefix + PutItems(items[..i], [])
    {
      var item := EncodeReceipt(rs[i]);
      ItemsSnoc(prefix, items, i);
      out := out + PutBytes(item, []);
    }
    assert items[..|rs|] == items;
  }

  lemma BlockSections(b: Block)
    ensures HeaderBytes(b.header) + ToBe(|b.transactions|, 8)
              + PutItems(MapBytes(b.transactions, TransactionBytes), [])
              + ToBe(|b.receipts|, 8) + PutItems(MapBytes(b.receipts, ReceiptBytes), [])
         == BlockBytes(b)
  {
    var ts, rs := MapBytes(b.transactions, TransactionBytes), MapBytes(b.receipts, ReceiptBytes);
    var receipts := PutU64(|rs|, PutItems(rs, []));
    ItemsTail(ts, [], receipts);
    assert [] + receipts == receipts;
    HeaderTail(b.header, PutU64(|ts|, PutItems(ts, receipts)));
    ConcatAssociates(HeaderBytes(b.header), ToBe(|ts|, 8), PutItems(ts, []), ToBe(|rs|, 8), PutItems(rs, []));
  }

  /** What a root hashes: every item with its length, then the count. */
  function RootPreimage(items: seq<seq<byte>>): seq<byte> {
    PutItems(items, ToBe(|items|, 8))
  }

  function Root(items: seq<seq<byte>>): Hash256 {
    if |items| == 0 then ZERO_HASH else Sha256(RootPreimage(items))
  }

  method MerkleLikeRoot(items: seq<seq<byte>>) returns (root: Hash256)
    requires |items| <= U64_MAX
    ensures root == Root(items)
  {
    var hasher := [];
    var count: u64 := 0;
    assert items[..0] == [];
    for i := 0 to |items|
      invariant count == i && hasher == [] + PutItems(items[..i], [])
    {
      count := count + 1;
      ItemsSnoc([], items, i);
      HashTail(hasher, ToBe(|items[i]|, 8), items[i]);
      assert PutBytes(items[i], []) == ToBe(|items[i]|, 8) + items[i];
      hasher := hasher + ToBe(|items[i]|, 8);
      hasher := hasher + items[i];
    }
    assert items[..|items|] == items;
    if count == 0 {
      return ZERO_HASH;
    }
    ItemsTail(items, [], ToBe(|items|, 8));
    assert [] + ToBe(|items|, 8) == ToBe(|items|, 8) && [] + PutItems(items, []) == PutItems(items, []);
    root := Sha256(hasher + ToBe(count, 8));
  }

  lemma RootPreimageInjective(items: seq<seq<byte>>, items': seq<seq<byte>>)
    requires AllFit(items) && AllFit(items')
    requires RootPreimage(items) == RootPreimage(items')
    ensures items == items'
  {
    var p := RootPreimage(items);
    ItemsTail(items, [], ToBe(|items|, 8));
    ItemsTail(items', [], ToBe(|items'|, 8));
    assert [] + ToBe(|items|, 8) == ToBe(|items|, 8) && [] + ToBe(|items'|, 8) == ToBe(|items'|, 8);
    assert p[|p| - 8..] == ToBe(|items|, 8) == ToBe(|items'|, 8);
    WordSizes();
    BeNatToBe(|items|, 8);
    BeNatToBe(|items'|, 8);
    ItemsBack(items, ToBe(|items|, 8));
    ItemsBack(items', ToBe(|items'|, 8));
  }

  function TransactionsRoot(ts: seq<Transaction>): Hash256 {
    Root(MapBytes(ts, TransactionBytes))
  }

  function ReceiptsRoot(rs: seq<Receipt>): Hash256 {
    Root(MapBytes(rs, ReceiptBytes))
  }

  ghost predicate Collision(x: seq<byte>, y: seq<byte>) {
    x != y && Sha256(x) == Sha256(y)
  }

  /** Two item lists with the same root are equal, or their preimages collide. */
  lemma RootBinds(items: seq<seq<byte>>, items': seq<seq<byte>>)
    requires AllFit(items) && AllFit(items') && |items| > 0 && |items'| > 0
    requires Root(items) == Root(items')
    ensures items == items' || Collision(RootPreimage(items), RootPreimage(items'))
  {
    hide RootPreimage, AllFit;
    if RootPreimage(items) == RootPreimage(items') {
      RootPreimageInjective(items, items');
    }
  }

  /** A non-empty transactions root binds the transactions up to what their bytes
      keep, unless the two preimages that were hashed are themselves a collision. */
  lemma TransactionsRootBinds(ts: seq<Transaction>, ts': seq<Transaction>)
    requires 0 < |ts| <= U64_MAX && 0 < |ts'| <= U64_MAX
    requires forall k :: 0 <= k < |ts| ==> TransactionFits(ts[k])
    requires forall k :: 0 <= k < |ts'| ==> TransactionFits(ts'[k])
    requires TransactionsRoot(ts) == TransactionsRoot(ts')
    ensures RecoverableAll(ts) == RecoverableAll(ts') ||
            Collision(RootPreimage(MapBytes(ts, TransactionBytes)), RootPreimage(MapBytes(ts', TransactionBytes)))
  {
    hide Root, RootPreimage, DecodeTransaction, TransactionBytes, Recoverable;
    var items, items' := MapBytes(ts, TransactionBytes), MapBytes(ts', TransactionBytes);
    RootBinds(items, items');
    if items == items' {
      forall k | 0 <= k < |ts| ensures RecoverableAll(ts)[k] == RecoverableAll(ts')[k] {
        TransactionRoundTrip(ts[k]);
        TransactionRoundTrip(ts'[k]);
        assert items[k] == items'[k];
      }
    }
  }

  /** A non-empty receipts root binds the receipts themselves. */
  lemma ReceiptsRootBinds(rs: seq<Receipt>, rs': seq<Receipt>)
    requires 0 < |rs| <= U64_MAX && 0 < |rs'| <= U64_MAX
    requires forall k :: 0 <= k < |rs| ==> ReceiptFits(rs[k])
    requires forall k :: 0 <= k < |rs'| ==> ReceiptFits(rs'[k])
    requires ReceiptsRoot(rs) == ReceiptsRoot(rs')
    ensures rs == rs' || Collision(RootPreimage(MapBytes(rs, ReceiptBytes)), RootPreimage(MapBytes(rs', ReceiptBytes)))
  {
    hide Root, RootPreimage;
    var items, items' := MapBytes(rs, ReceiptBytes), MapBytes(rs', ReceiptBytes);
    RootBinds(items, items');
    if items == items' {
      forall k | 0 <= k < |rs| ensures rs[k] == rs'[k] {
        ReceiptRoundTrip(rs[k]);
        ReceiptRoundTrip(rs'[k]);
        assert items[k] == items'[k];
      }
    }
  }
}
