/** The byte-string keys of the chain database, and what a prefix scan finds. */
module Keys {
  import opened Bytes

  /** A log position: block number, transaction index and log index. */
  type Location = s: seq<byte> | |s| == 16 witness ToBe(0, 16)

  function LogLocation(number: u64, transactionIndex: nat, logIndex: nat): Location {
    ToBe(number, 8) + ToBe(transactionIndex, 4) + ToBe(logIndex, 4)
  }

  function LocationNumber(location: Location): u64 {
    BeNatBound(location[..8]);
    WordSizes();
    BeNat(location[..8])
  }

  /** Whatever the indexes, a location gives its block number back. */
  lemma LocationNumberBack(number: u64, transactionIndex: nat, logIndex: nat)
    ensures LocationNumber(LogLocation(number, transactionIndex, logIndex)) == number
  {
    WordSizes();
    BeNatToBe(number, 8);
    assert LogLocation(number, transactionIndex, logIndex)[..8] == ToBe(number, 8);
  }

  /** The indexes are kept up to 2^32. */
  lemma LocationParts(number: u64, transactionIndex: nat, logIndex: nat)
    ensures var l := LogLocation(number, transactionIndex, logIndex);
      BeNat(l[8..12]) == transactionIndex % 0x1_0000_0000 && BeNat(l[12..]) == logIndex % 0x1_0000_0000
  {
    BeNatTruncates(transactionIndex, 4);
    BeNatTruncates(logIndex, 4);
    assert Pow(256, 4) == 0x1_0000_0000;
    var l := LogLocation(number, transactionIndex, logIndex);
    assert l[8..12] == ToBe(transactionIndex, 4) && l[12..] == ToBe(logIndex, 4);
  }

  datatype Key =
    | BlockAt(number: u64)
    | HeaderAt(number: u64)
    | TransactionBy(hash: Hash256)
    | ReceiptBy(hash: Hash256)
    | LogAt(location: Location)
    | LogByAddress(address: Address, location: Location)
    | LogByTopic(topic: Hash256, location: Location)
    | Balance(address: Address)
    | Nonce(address: Address)
    | Code(address: Address)
    | StorageSlot(address: Address, slot: Hash256)
    | EvmSnapshot(number: u64)
    | BestNumber
    | RewardsIndexedTo
    | SupplyIndexedTo
    | SupplyTotal
    | SupplyBurned

  // ---- Spelling ----

  function HexDigit(n: nat): char
    requires n < 16
  {
    if n < 10 then ('0' as int + n) as char else ('a' as int + (n - 10)) as char
  }

  function Hex(s: seq<byte>): (r: string)
    ensures |r| == 2 * |s|
  {
    if |s| == 0 then [] else Hex(s[..|s| - 1]) + [HexDigit(s[|s| - 1] / 16), HexDigit(s[|s| - 1] % 16)]
  }

  /** The `width` low decimal digits, zero padded. */
  function Padded(n: nat, width: nat): (r: string)
    ensures |r| == width
  {
    if width == 0 then [] else Padded(n / 10, width - 1) + [HexDigit(n % 10)]
  }

  function Tag(k: Key): string {
    match k
    case BlockAt(_) => "block:number:"
    case HeaderAt(_) => "header:number:"
    case TransactionBy(_) => "transaction:"
    case ReceiptBy(_) => "receipt:"
    case LogAt(_) => "log:index:location:"
    case LogByAddress(_, _) => "log:index:address:"
    case LogByTopic(_, _) => "log:index:topic:"
    case Balance(_) => "account:balance:"
    case Nonce(_) => "account:nonce:"
    case Code(_) => "account:code:"
    case StorageSlot(_, _) => "account:storage:"
    case EvmSnapshot(_) => "state:evm:snapshot:"
    case BestNumber => "best:number"
    case RewardsIndexedTo => "state:rewards:indexed_to"
    case SupplyIndexedTo => "state:supply:indexed_to"
    case SupplyTotal => "state:supply:total"
    case SupplyBurned => "state:supply:burned"
  }

  function Body(k: Key): string {
    match k
    case BlockAt(n) => Padded(n, 20)
    case HeaderAt(n) => Padded(n, 20)
    case TransactionBy(h) => Hex(h)
    case ReceiptBy(h) => Hex(h)
    case LogAt(l) => Hex(l)
    case LogByAddress(a, l) => Hex(a) + ":" + Hex(l)
    case LogByTopic(t, l) => Hex(t) + ":" + Hex(l)
    case Balance(a) => Hex(a)
    case Nonce(a) => Hex(a)
    case Code(a) => Hex(a)
    case StorageSlot(a, s) => Hex(a) + ":" + Hex(s)
    case EvmSnapshot(n) => Padded(n, 20)
    case _ => ""
  }

  function Spell(k: Key): string {
    Tag(k) + Body(k)
  }

  lemma {:induction false} HexInjective(a: seq<byte>, b: seq<byte>)
    requires Hex(a) == Hex(b)
    ensures a == b
  {
    assert |a| == |b|;
    if |a| > 0 {
      var n := |a| - 1;
      var x, y := Hex(a), Hex(b);
      assert Hex(a[..n]) == x[..2 * n] == y[..2 * n] == Hex(b[..n]);
      assert x[2 * n] == y[2 * n] && x[2 * n + 1] == y[2 * n + 1];
      HexInjective(a[..n], b[..n]);
      assert a == a[..n] + [a[n]] && b == b[..n] + [b[n]];
    }
  }

  lemma {:induction false} PaddedInjective(n: nat, m: nat, width: nat)
    requires n < Pow(10, width) && m < Pow(10, width) && Padded(n, width) == Padded(m, width)
    ensures n == m
  {
    if width > 0 {
      var x, y := Padded(n, width), Padded(m, width);
      assert Padded(n / 10, width - 1) == x[..width - 1] == y[..width - 1] == Padded(m / 10, width - 1);
      assert x[width - 1] == y[width - 1];
      PaddedInjective(n / 10, m / 10, width - 1);
    }
  }

  lemma U64FitsTwentyDigits(n: u64)
    ensures n < Pow(10, 20)
  {
    PowAdd(10, 10, 10);
    assert Pow(10, 10) == 10_000_000_000;
  }

  /** Two hex fields of known width around a colon. */
  lemma PairInjective(a: seq<byte>, b: seq<byte>, a': seq<byte>, b': seq<byte>)
    requires |a| == |a'| && Hex(a) + ":" + Hex(b) == Hex(a') + ":" + Hex(b')
    ensures a == a' && b == b'
  {
    hide Hex;
    var s, s' := Hex(a) + ":" + Hex(b), Hex(a') + ":" + Hex(b');
    assert Hex(a) == s[..2 * |a|] == s'[..2 * |a|] == Hex(a');
    assert Hex(b) == s[2 * |a| + 1..] == s'[2 * |a| + 1..] == Hex(b');
    HexInjective(a, a');
    HexInjective(b, b');
  }

  lemma BodyInjective(k: Key, k': Key)
    requires Body(k) == Body(k') && Kind(k) == Kind(k')
    ensures k == k'
  {
    match k
    case BlockAt(n) => NumberBody(n, k'.number);
    case HeaderAt(n) => NumberBody(n, k'.number);
    case TransactionBy(h) => HexInjective(h, k'.hash);
    case ReceiptBy(h) => HexInjective(h, k'.hash);
    case LogAt(l) => HexInjective(l, k'.location);
    case LogByAddress(a, l) => PairInjective(a, l, k'.address, k'.location);
    case LogByTopic(t, l) => PairInjective(t, l, k'.topic, k'.location);
    case Balance(a) => HexInjective(a, k'.address);
    case Nonce(a) => HexInjective(a, k'.address);
    case Code(a) => HexInjective(a, k'.address);
    case StorageSlot(a, s) => PairInjective(a, s, k'.address, k'.slot);
    case EvmSnapshot(n) => NumberBody(n, k'.number);
    case _ =>
  }

  lemma NumberBody(n: u64, m: u64)
    requires Padded(n, 20) == Padded(m, 20)
    ensures n == m
  {
    U64FitsTwentyDigits(n);
    U64FitsTwentyDigits(m);
    PaddedInjective(n, m, 20);
  }

  /** A number per constructor. */
  function Kind(k: Key): nat {
    match k
    case BlockAt(_) => 0
    case HeaderAt(_) => 1
    case TransactionBy(_) => 2
    case ReceiptBy(_) => 3
    case LogAt(_) => 4
    case LogByAddress(_, _) => 5
    case LogByTopic(_, _) => 6
    case Balance(_) => 7
    case Nonce(_) => 8
    case Code(_) => 9
    case StorageSlot(_, _) => 10
    case EvmSnapshot(_) => 11
    case BestNumber => 12
    case RewardsIndexedTo => 13
    case SupplyIndexedTo => 14
    case SupplyTotal => 15
    case SupplyBurned => 16
  }

  /** The kind of a key, read off a few characters of its spelling. */
  function KindOf(s: string): nat
    requires |s| >= 11
  {
    if s[0] == 'h' then 1
    else if s[0] == 't' then 2
    else if s[0] == 'r' then 3
    else if s[0] == 'b' then (if s[1] == 'l' then 0 else 12)
    else if s[0] == 'l' then (if s[10] == 'l' then 4 else if s[10] == 'a' then 5 else 6)
    else if s[0] == 'a' then (if s[8] == 'b' then 7 else if s[8] == 'n' then 8 else if s[8] == 'c' then 9 else 10)
    else if s[6] == 'e' then 11
    else if s[6] == 'r' then 13
    else if |s| <= 13 then 0
    else if s[13] == 'i' then 14 else if s[13] == 't' then 15 else 16
  }

  lemma KindOfSpelling(k: Key)
    ensures |Spell(k)| >= 11 && KindOf(Spell(k)) == Kind(k)
  {
    hide Body;
    var s, t := Spell(k), Tag(k);
    assert forall i :: 0 <= i < |t| ==> s[i] == t[i];
    if k.ReceiptBy? { BodyLength(k); }
  }

  lemma BodyLength(k: Key)
    ensures k.ReceiptBy? ==> |Body(k)| == 64
  {
  }

  /** Distinct keys never share a spelling. */
  lemma SpellInjective(k: Key, k': Key)
    requires Spell(k) == Spell(k')
    ensures k == k'
  {
    KindOfSpelling(k);
    KindOfSpelling(k');
    SameTag(k, k');
    var t := Tag(k);
    assert Body(k) == Spell(k)[|t|..] == Spell(k')[|t|..] == Body(k');
    BodyInjective(k, k');
  }

  lemma SameTag(k: Key, k': Key)
    requires Kind(k) == Kind(k')
    ensures Tag(k) == Tag(k')
  {
  }

  // ---- Prefix scans ----

  predicate IsLog(k: Key) {
    k.LogAt? || k.LogByAddress? || k.LogByTopic?
  }

  predicate IsAccount(k: Key) {
    k.Balance? || k.Nonce? || k.Code? || k.StorageSlot?
  }

  /** A prefix that the tag of a key extends, or contradicts in some character. */
  lemma TagDecides(prefix: string, k: Key)
    requires |prefix| <= |Tag(k)|
    ensures prefix <= Spell(k) <==> prefix <= Tag(k)
  {
    hide Tag, Body;
    assert Spell(k)[..|prefix|] == Tag(k)[..|prefix|];
  }

  lemma ScanLogIndex(k: Key)
    ensures "log:index:" <= Spell(k) <==> IsLog(k)
  {
    hide Body;
    KindOfSpelling(k);
    assert "log:index:"[0] == 'l';
    if IsLog(k) {
      TagDecides("log:index:", k);
      assert Tag(k)[..10] == "log:index:";
    }
  }

  lemma ScanLocations(k: Key)
    ensures "log:index:location:" <= Spell(k) <==> k.LogAt?
  {
    hide Body;
    KindOfSpelling(k);
    assert "log:index:location:"[0] == 'l' && "log:index:location:"[10] == 'l';
  }

  lemma ScanAccounts(k: Key)
    ensures "account:" <= Spell(k) <==> IsAccount(k)
  {
    hide Body;
    KindOfSpelling(k);
    assert "account:"[0] == 'a';
    if IsAccount(k) {
      TagDecides("account:", k);
      assert Tag(k)[..8] == "account:";
    }
  }

  lemma ScanBalancesAndNonces(k: Key)
    ensures "account:balance:" <= Spell(k) <==> k.Balance?
    ensures "account:nonce:" <= Spell(k) <==> k.Nonce?
  {
    hide Body;
    KindOfSpelling(k);
    assert "account:balance:"[0] == 'a' && "account:balance:"[8] == 'b';
    assert "account:nonce:"[0] == 'a' && "account:nonce:"[8] == 'n';
  }

  lemma ScanSnapshots(k: Key)
    ensures "state:evm:snapshot:" <= Spell(k) <==> k.EvmSnapshot?
  {
    hide Body;
    KindOfSpelling(k);
    assert "state:evm:snapshot:"[0] == 's' && "state:evm:snapshot:"[6] == 'e';
  }

  lemma ScanBlocks(k: Key)
    ensures "block:number:" <= Spell(k) <==> k.BlockAt?
  {
    hide Body;
    KindOfSpelling(k);
    assert "block:number:"[0] == 'b' && "block:number:"[1] == 'l';
  }

  function LogAddressPrefix(a: Address): string {
    "log:index:address:" + Hex(a) + ":"
  }

  function LogTopicPrefix(t: Hash256): string {
    "log:index:topic:" + Hex(t) + ":"
  }

  lemma HexField(tag: string, a: seq<byte>, b: seq<byte>, rest: string)
    requires |a| == |b|
    ensures tag + Hex(a) + ":" <= tag + (Hex(b) + ":" + rest) <==> a == b
  {
    hide Hex;
    var p, s := tag + Hex(a) + ":", tag + (Hex(b) + ":" + rest);
    assert p[|tag|..|p| - 1] == Hex(a);
    assert s[|tag|..|p| - 1] == Hex(b);
    if p <= s {
      assert p[|tag|..|p| - 1] == s[..|p|][|tag|..|p| - 1] == s[|tag|..|p| - 1];
      HexInjective(a, b);
    }
    if a == b {
      assert s == p + rest;
    }
  }

  lemma ScanAddress(k: Key, a: Address)
    ensures LogAddressPrefix(a) <= Spell(k) <==> k.LogByAddress? && k.address == a
  {
    hide Hex;
    KindOfSpelling(k);
    if k.LogByAddress? {
      HexField("log:index:address:", a, k.address, Hex(k.location));
    } else {
      assert LogAddressPrefix(a)[0] == 'l' && LogAddressPrefix(a)[10] == 'a';
    }
  }

  lemma ScanTopic(k: Key, t: Hash256)
    ensures LogTopicPrefix(t) <= Spell(k) <==> k.LogByTopic? && k.topic == t
  {
    hide Hex;
    KindOfSpelling(k);
    if k.LogByTopic? {
      HexField("log:index:topic:", t, k.topic, Hex(k.location));
    } else {
      assert LogTopicPrefix(t)[0] == 'l' && LogTopicPrefix(t)[10] == 't';
    }
  }
}
