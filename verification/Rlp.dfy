/** RLP (Appendix B of the Ethereum Yellow Paper) and the EIP-1559 wire form. */
module Rlp {
  import opened Bytes
  import opened Primitives

  // ---- Encoders ----

  /** Big-endian bytes with no leading zero; empty for zero. */
  function MinBe(n: nat): seq<byte> {
    if n == 0 then [] else MinBe(n / 256) + [n % 256]
  }

  /** The length of a string (offset 0x80) or list (0xc0); the tag is one byte. */
  function Header(offset: byte, len: nat): seq<byte>
    requires offset <= 0xc0
  {
    if len < 56 then [offset + len] else [(offset + 55 + |MinBe(len)|) % 256] + MinBe(len)
  }

  lemma {:induction false} MinBeWidth(n: nat, width: nat)
    requires n < Pow(256, width)
    ensures |MinBe(n)| <= width
  {
    if n > 0 && width > 0 {
      MinBeWidth(n / 256, width - 1);
    }
  }

  lemma LengthFits(n: nat)
    requires n <= U64_MAX
    ensures |MinBe(n)| <= 8
  {
    WordSizes();
    MinBeWidth(n, 8);
  }

  /** For lengths of up to eight bytes the tag does not wrap. */
  lemma LongHeader(offset: byte, len: nat)
    requires offset <= 0xc0 && 56 <= len <= U64_MAX
    ensures 0 < |MinBe(len)| <= 8
    ensures Header(offset, len) == [offset + 55 + |MinBe(len)|] + MinBe(len)
  {
    LengthFits(len);
  }

  function Reversed(s: seq<byte>): seq<byte> {
    if |s| == 0 then [] else [s[|s| - 1]] + Reversed(s[..|s| - 1])
  }

  /** The bytes of a length, peeled off from the low end and then reversed. */
  method LengthBytes(len: nat) returns (lenBytes: seq<byte>)
    ensures lenBytes == MinBe(len)
  {
    lenBytes := [];
    var value := len;
    assert MinBe(len) == MinBe(value) + Reversed(lenBytes);
    while value > 0
      invariant MinBe(len) == MinBe(value) + Reversed(lenBytes)
    {
      ReversedSnoc(MinBe(value / 256), lenBytes, value % 256);
      lenBytes := lenBytes + [value % 256];
      value := value / 256;
    }
    lenBytes := Reversed(lenBytes);
  }

  lemma ReversedSnoc(front: seq<byte>, s: seq<byte>, b: byte)
    ensures front + [b] + Reversed(s) == front + Reversed(s + [b])
  {
    assert (s + [b])[..|s|] == s;
    assert front + [b] + Reversed(s) == front + ([b] + Reversed(s));
  }

  method AppendHeader(offset: byte, len: u64, out: seq<byte>) returns (result: seq<byte>)
    requires offset <= 0xc0
    ensures result == out + Header(offset, len)
  {
    if len < 56 {
      return out + [offset + len];
    }
    LongHeader(offset, len);
    var lenBytes := LengthBytes(len);
    result := out + [offset + 55 + |lenBytes|];
    result := result + lenBytes;
  }

  function RlpBytes(b: seq<byte>): seq<byte> {
    if |b| == 1 && b[0] < 0x80 then b else Header(0x80, |b|) + b
  }

  function RlpListPayload(payload: seq<byte>): seq<byte> {
    Header(0xc0, |payload|) + payload
  }

  function StripZeros(s: seq<byte>): (r: seq<byte>)
    ensures |r| <= |s|
  {
    if |s| > 0 && s[0] == 0 then StripZeros(s[1..]) else s
  }

  /** An integer of the given byte width without its leading zero bytes. */
  function RlpUint(value: nat, width: nat): seq<byte> {
    if value == 0 then RlpBytes([]) else RlpBytes(StripZeros(ToBe(value, width)))
  }

  function RlpWord(word: Hash256): seq<byte> {
    RlpBytes(StripZeros(word))
  }

  lemma {:induction false} StripIsMinimal(n: nat, width: nat)
    requires n < Pow(256, width)
    ensures StripZeros(ToBe(n, width)) == MinBe(n)
  {
    if width > 0 {
      StripIsMinimal(n / 256, width - 1);
      StripSnoc(ToBe(n / 256, width - 1), n % 256);
    }
  }

  lemma {:induction false} StripSnoc(s: seq<byte>, b: byte)
    ensures StripZeros(s + [b]) == if StripZeros(s) == [] && b == 0 then [] else StripZeros(s) + [b]
  {
    if |s| > 0 && s[0] == 0 {
      assert (s + [b])[1..] == s[1..] + [b];
      StripSnoc(s[1..], b);
    } else if |s| == 0 {
      assert s + [b] == [b];
    }
  }

  lemma {:induction false} MinBeValue(n: nat)
    ensures BeNat(MinBe(n)) == n
    ensures n > 0 ==> MinBe(n)[0] != 0
  {
    if n > 0 {
      MinBeValue(n / 256);
      assert MinBe(n)[..|MinBe(n)| - 1] == MinBe(n / 256);
    }
  }

  lemma {:induction false} MinBeOfValue(s: seq<byte>)
    requires |s| > 0 ==> s[0] != 0
    ensures MinBe(BeNat(s)) == s
  {
    if |s| > 0 {
      var front := s[..|s| - 1];
      MinBeOfValue(front);
      assert s == front + [s[|s| - 1]];
      assert BeNat(s) / 256 == BeNat(front) && BeNat(s) % 256 == s[|s| - 1];
      if |s| > 1 { assert MinBe(BeNat(front)) != []; }
    }
  }

  // ---- Items and the decoder of the specification ----

  datatype Item = Str(bytes: seq<byte>) | List(items: seq<Item>)

  function Encode(i: Item): seq<byte>
    decreases i, 1
  {
    match i
    case Str(b) => RlpBytes(b)
    case List(items) => RlpListPayload(EncodeItems(items))
  }

  function EncodeItems(items: seq<Item>): seq<byte>
    decreases items, 0
  {
    if |items| == 0 then [] else Encode(items[0]) + EncodeItems(items[1..])
  }

  /** Every string and every list payload has a length of at most eight bytes. */
  ghost predicate Fits(i: Item)
    decreases i, 1
  {
    match i
    case Str(b) => |b| <= U64_MAX
    case List(items) => AllFit(items) && |EncodeItems(items)| <= U64_MAX
  }

  ghost predicate AllFit(items: seq<Item>)
    decreases items, 0
  {
    |items| == 0 || (Fits(items[0]) && AllFit(items[1..]))
  }

  /** Reads a header of either kind: the content and what follows it. Long forms
      must be needed and their length must have no leading zero. */
  function Content(offset: byte, s: seq<byte>): Option<(seq<byte>, seq<byte>)>
    requires offset == 0x80 || offset == 0xc0
    requires |s| > 0 && offset <= s[0] < offset + 64
  {
    var n := s[0] - offset;
    if n < 56 then
      if |s| < 1 + n then None else Some((s[1..1 + n], s[1 + n..]))
    else
      var k := n - 55;
      if |s| < 1 + k || s[1] == 0 || BeNat(s[1..1 + k]) < 56 || |s| < 1 + k + BeNat(s[1..1 + k]) then None
      else
        var len := BeNat(s[1..1 + k]);
        Some((s[1 + k..1 + k + len], s[1 + k + len..]))
  }

  function Decode(s: seq<byte>): (r: Option<(Item, seq<byte>)>)
    ensures r.Some? ==> |r.value.1| < |s|
    decreases |s|, 0
  {
    if |s| == 0 then None
    else if s[0] < 0x80 then Some((Str([s[0]]), s[1..]))
    else if s[0] < 0xc0 then
      var (b, rest) :- Content(0x80, s);
      if |b| == 1 && b[0] < 0x80 then None else Some((Str(b), rest))
    else
      var (b, rest) :- Content(0xc0, s);
      var items :- DecodeItems(b);
      Some((List(items), rest))
  }

  function DecodeItems(s: seq<byte>): Option<seq<Item>>
    decreases |s|, 1
  {
    if |s| == 0 then Some([])
    else
      var (item, rest) :- Decode(s);
      var items :- DecodeItems(rest);
      Some([item] + items)
  }

  lemma ContentBack(offset: byte, b: seq<byte>, rest: seq<byte>)
    requires (offset == 0x80 || offset == 0xc0) && |b| <= U64_MAX
    ensures offset <= (Header(offset, |b|) + b + rest)[0] < offset + 64
    ensures Content(offset, Header(offset, |b|) + b + rest) == Some((b, rest))
  {
    hide MinBe, BeNat;
    var h := Header(offset, |b|);
    SplitFrame(h, b, rest);
    if |b| >= 56 {
      var l := MinBe(|b|);
      LongHeader(offset, |b|);
      MinBeValue(|b|);
      assert (h + b + rest)[1..|h|] == h[1..] == l;
    }
  }

  lemma SplitFrame(h: seq<byte>, b: seq<byte>, rest: seq<byte>)
    ensures (h + b + rest)[..|h|] == h
    ensures (h + b + rest)[|h|..|h| + |b|] == b
    ensures (h + b + rest)[|h| + |b|..] == rest
  {
  }

  lemma {:induction false} RoundTrip(i: Item, rest: seq<byte>)
    requires Fits(i)
    ensures Decode(Encode(i) + rest) == Some((i, rest))
    decreases i, 1
  {
    match i
    case Str(b) =>
      if |b| == 1 && b[0] < 0x80 {
        assert (b + rest)[1..] == rest && b == [b[0]];
      } else {
        ContentBack(0x80, b, rest);
      }
    case List(items) =>
      ItemsRoundTrip(items);
      ContentBack(0xc0, EncodeItems(items), rest);
  }

  lemma {:induction false} ItemsRoundTrip(items: seq<Item>)
    requires AllFit(items)
    ensures DecodeItems(EncodeItems(items)) == Some(items)
    decreases items, 0
  {
    if |items| > 0 {
      RoundTrip(items[0], EncodeItems(items[1..]));
      ItemsRoundTrip(items[1..]);
      EncodeNonEmpty(items[0]);
      assert items == [items[0]] + items[1..];
    }
  }

  lemma EncodeNonEmpty(i: Item)
    ensures |Encode(i)| > 0
  {
  }

  lemma ContentCanonical(offset: byte, s: seq<byte>)
    requires (offset == 0x80 || offset == 0xc0) && |s| > 0 && offset <= s[0] < offset + 64
    requires Content(offset, s).Some?
    ensures var (b, rest) := Content(offset, s).value;
      |b| <= U64_MAX && s == Header(offset, |b|) + b + rest
  {
    hide MinBe, BeNat, Pow;
    var (b, rest) := Content(offset, s).value;
    var n := s[0] - offset;
    if n < 56 {
      assert s == [s[0]] + b + rest;
    } else {
      var k := n - 55;
      var l := s[1..1 + k];
      assert l[0] == s[1];
      BeNatBound(l);
      PowMonotone(k);
      WordSizes();
      MinBeOfValue(l);
      LongHeader(offset, |b|);
      assert s == [s[0]] + l + b + rest;
    }
  }

  lemma {:induction false} PowMonotone(k: nat)
    requires k <= 8
    ensures Pow(256, k) <= Pow(256, 8)
    decreases 8 - k
  {
    if k < 8 { PowMonotone(k + 1); }
  }

  /** Nothing else decodes: the decoder accepts only what the encoder writes, so
      no item has a second encoding. */
  lemma {:induction false} OnlyCanonical(s: seq<byte>)
    requires Decode(s).Some?
    ensures Fits(Decode(s).value.0)
    ensures s == Encode(Decode(s).value.0) + Decode(s).value.1
    decreases |s|, 0
  {
    if s[0] < 0x80 {
      assert s == [s[0]] + s[1..];
    } else if s[0] < 0xc0 {
      ContentCanonical(0x80, s);
    } else {
      ContentCanonical(0xc0, s);
      OnlyCanonicalItems(Content(0xc0, s).value.0);
    }
  }

  lemma {:induction false} OnlyCanonicalItems(s: seq<byte>)
    requires DecodeItems(s).Some?
    ensures AllFit(DecodeItems(s).value) && EncodeItems(DecodeItems(s).value) == s
    decreases |s|, 1
  {
    if |s| > 0 {
      OnlyCanonical(s);
      var (item, rest) := Decode(s).value;
      OnlyCanonicalItems(rest);
      var items := DecodeItems(s).value;
      assert items[0] == item && items[1..] == DecodeItems(rest).value;
    }
  }

  // ---- EIP-1559 transactions ----

  function Concat(fields: seq<seq<byte>>): seq<byte> {
    if |fields| == 0 then [] else fields[0] + Concat(fields[1..])
  }

  function RlpList(fields: seq<seq<byte>>): seq<byte> {
    RlpListPayload(Concat(fields))
  }

  function KeyFields(keys: seq<Hash256>): seq<seq<byte>> {
    if |keys| == 0 then [] else [RlpBytes(keys[0])] + KeyFields(keys[1..])
  }

  function EntryFields(entries: seq<AccessListItem>): seq<seq<byte>> {
    if |entries| == 0 then []
    else
      var entry := RlpList([RlpBytes(entries[0].address), RlpList(KeyFields(entries[0].storageKeys))]);
      [entry] + EntryFields(entries[1..])
  }

  function UnsignedFields(t: Transaction): seq<seq<byte>> {
    [RlpUint(t.chainId, 8), RlpUint(t.nonce, 8), RlpUint(t.maxPriorityFeePerGas, 16), RlpUint(t.maxFeePerGas, 16),
     RlpUint(t.gasLimit, 8), RlpBytes(if t.to.Some? then t.to.value else []), RlpUint(t.value, 16), RlpBytes(t.payload),
     RlpList(EntryFields(t.accessList))]
  }

  datatype Wire = Ok(bytes: seq<byte>) | WrongType | MissingSignature

  function SigningPayload(t: Transaction): Wire {
    if t.transactionType != 2 then WrongType
    else Ok([2] + RlpList(UnsignedFields(t)))
  }

  function SignedBytes(t: Transaction): Wire {
    if t.transactionType != 2 then WrongType
    else if t.signature.None? then MissingSignature
    else
      var sig := t.signature.value;
      Ok([2] + RlpList(UnsignedFields(t) + [RlpUint(if sig.yParity then 1 else 0, 8), RlpWord(sig.r), RlpWord(sig.s)]))
  }

  // The same transaction as an item tree.

  function KeyItems(keys: seq<Hash256>): seq<Item> {
    if |keys| == 0 then [] else [Str(keys[0])] + KeyItems(keys[1..])
  }

  function EntryItems(entries: seq<AccessListItem>): seq<Item> {
    if |entries| == 0 then []
    else [List([Str(entries[0].address), List(KeyItems(entries[0].storageKeys))])] + EntryItems(entries[1..])
  }

  function UnsignedItems(t: Transaction): seq<Item> {
    [Str(MinBe(t.chainId)), Str(MinBe(t.nonce)), Str(MinBe(t.maxPriorityFeePerGas)), Str(MinBe(t.maxFeePerGas)),
     Str(MinBe(t.gasLimit)), Str(if t.to.Some? then t.to.value else []), Str(MinBe(t.value)), Str(t.payload),
     List(EntryItems(t.accessList))]
  }

  function SignedItems(t: Transaction): seq<Item>
    requires t.signature.Some?
  {
    var sig := t.signature.value;
    UnsignedItems(t) + [Str(MinBe(if sig.yParity then 1 else 0)), Str(MinBe(BeNat(sig.r))), Str(MinBe(BeNat(sig.s)))]
  }

  ghost predicate EachEncoded(fields: seq<seq<byte>>, items: seq<Item>) {
    |fields| == |items| && forall k :: 0 <= k < |items| ==> fields[k] == Encode(items[k])
  }

  lemma {:induction false} ListOfFields(items: seq<Item>, fields: seq<seq<byte>>)
    requires EachEncoded(fields, items)
    ensures Concat(fields) == EncodeItems(items)
    ensures RlpList(fields) == Encode(List(items))
  {
    if |items| > 0 { ListOfFields(items[1..], fields[1..]); }
  }

  lemma {:induction false} KeysEncode(keys: seq<Hash256>)
    ensures EachEncoded(KeyFields(keys), KeyItems(keys))
  {
    if |keys| > 0 { KeysEncode(keys[1..]); }
  }

  lemma {:induction false} EntriesEncode(entries: seq<AccessListItem>)
    ensures EachEncoded(EntryFields(entries), EntryItems(entries))
  {
    if |entries| > 0 {
      var keys := entries[0].storageKeys;
      KeysEncode(keys);
      ListOfFields(KeyItems(keys), KeyFields(keys));
      var pair := [Str(entries[0].address), List(KeyItems(keys))];
      ListOfFields(pair, [RlpBytes(entries[0].address), RlpList(KeyFields(keys))]);
      EntriesEncode(entries[1..]);
    }
  }

  /** Integers go out minimal: no leading zero byte, and nothing for zero. */
  lemma UintMinimal(value: nat, width: nat)
    requires value < Pow(256, width)
    ensures RlpUint(value, width) == Encode(Str(MinBe(value)))
  {
    StripIsMinimal(value, width);
  }

  lemma WordMinimal(word: Hash256)
    ensures RlpWord(word) == Encode(Str(MinBe(BeNat(word))))
  {
    BeNatBound(word);
    StripIsMinimal(BeNat(word), 32);
    ToBeBeNat(word);
  }

  lemma UnsignedEncode(t: Transaction)
    ensures EachEncoded(UnsignedFields(t), UnsignedItems(t))
  {
    hide MinBe, Pow, RlpUint, EntryFields, EntryItems;
    WordSizes();
    UintMinimal(t.chainId, 8);
    UintMinimal(t.nonce, 8);
    UintMinimal(t.maxPriorityFeePerGas, 16);
    UintMinimal(t.maxFeePerGas, 16);
    UintMinimal(t.gasLimit, 8);
    UintMinimal(t.value, 16);
    EntriesEncode(t.accessList);
    ListOfFields(EntryItems(t.accessList), EntryFields(t.accessList));
  }

  lemma SignedEncode(t: Transaction)
    requires t.transactionType == 2 && t.signature.Some?
    ensures SignedBytes(t) == Ok([2] + Encode(List(SignedItems(t))))
  {
    hide MinBe, BeNat, Pow, RlpUint, RlpWord, UnsignedFields, UnsignedItems;
    var sig := t.signature.value;
    WordSizes();
    UintMinimal(if sig.yParity then 1 else 0, 8);
    WordMinimal(sig.r);
    WordMinimal(sig.s);
    UnsignedEncode(t);
    var fields := UnsignedFields(t) + [RlpUint(if sig.yParity then 1 else 0, 8), RlpWord(sig.r), RlpWord(sig.s)];
    ListOfFields(SignedItems(t), fields);
  }

  // ---- Reading a signed transaction back ----

  /** A minimal integer of at most `width` bytes. */
  function AsUint(i: Item, width: nat): (r: Option<nat>)
    ensures r.Some? ==> r.value < Pow(256, width) && i == Str(MinBe(r.value))
  {
    if i.Str? && |i.bytes| <= width && (|i.bytes| > 0 ==> i.bytes[0] != 0) then
      BeNatBound(i.bytes);
      PowGrows(256, |i.bytes|, width);
      MinBeOfValue(i.bytes);
      Some(BeNat(i.bytes))
    else None
  }

  lemma AsUintBack(n: nat, width: nat)
    requires n < Pow(256, width)
    ensures AsUint(Str(MinBe(n)), width) == Some(n)
  {
    MinBeValue(n);
    MinBeWidth(n, width);
  }

  lemma {:induction false} PowGrows(b: nat, j: nat, k: nat)
    requires b > 0 && j <= k
    ensures Pow(b, j) <= Pow(b, k)
  {
    if j < k {
      PowGrows(b, j, k - 1);
      MulLe(1, b, Pow(b, k - 1));
    }
  }

  function AsTo(i: Item): Option<Option<Address>> {
    if i.Str? && |i.bytes| == 0 then Some(None)
    else if i.Str? && |i.bytes| == 20 then Some(Some(i.bytes))
    else None
  }

  function AsKeys(items: seq<Item>): Option<seq<Hash256>> {
    if |items| == 0 then Some([])
    else if items[0].Str? && |items[0].bytes| == 32 then
      var keys :- AsKeys(items[1..]);
      var key: Hash256 := items[0].bytes;
      Some([key] + keys)
    else None
  }

  function AsEntry(i: Item): Option<AccessListItem> {
    if i.List? && |i.items| == 2 && i.items[0].Str? && |i.items[0].bytes| == 20 && i.items[1].List? then
      var keys :- AsKeys(i.items[1].items);
      Some(AccessListItem(i.items[0].bytes, keys))
    else None
  }

  function AsEntries(items: seq<Item>): Option<seq<AccessListItem>> {
    if |items| == 0 then Some([])
    else
      var entry :- AsEntry(items[0]);
      var entries :- AsEntries(items[1..]);
      Some([entry] + entries)
  }

  const NO_ADDRESS: Address := ToBe(0, 20)

  function AsTransaction(items: seq<Item>): (t: Option<Transaction>)
    ensures t.Some? ==> t.value.transactionType == 2 && t.value.signature.Some?
  {
    if |items| != 12 || !items[7].Str? || !items[8].List? then None
    else
      WordSizes();
      var chainId :- AsUint(items[0], 8);
      var nonce :- AsUint(items[1], 8);
      var maxPriorityFeePerGas :- AsUint(items[2], 16);
      var maxFeePerGas :- AsUint(items[3], 16);
      var gasLimit :- AsUint(items[4], 8);
      var to :- AsTo(items[5]);
      var value :- AsUint(items[6], 16);
      var accessList :- AsEntries(items[8].items);
      var yParity :- AsUint(items[9], 8);
      var r :- AsUint(items[10], 32);
      var s :- AsUint(items[11], 32);
      if yParity > 1 then None
      else Some(Transaction(chainId, 2, nonce, NO_ADDRESS, to, value, gasLimit, maxFeePerGas, maxPriorityFeePerGas,
                            items[7].bytes, accessList, Some(Signature(yParity == 1, ToBe(r, 32), ToBe(s, 32))), None))
  }

  function DecodeSigned(b: seq<byte>): Option<Transaction> {
    if |b| == 0 || b[0] != 2 then None
    else
      var (item, rest) :- Decode(b[1..]);
      if item.List? && rest == [] then AsTransaction(item.items) else None
  }

  lemma {:induction false} KeysBack(keys: seq<Hash256>)
    ensures AsKeys(KeyItems(keys)) == Some(keys)
  {
    if |keys| > 0 {
      KeysBack(keys[1..]);
      assert KeyItems(keys)[1..] == KeyItems(keys[1..]);
      assert keys == [keys[0]] + keys[1..];
    }
  }

  lemma {:induction false} EntriesBack(entries: seq<AccessListItem>)
    ensures AsEntries(EntryItems(entries)) == Some(entries)
  {
    if |entries| > 0 {
      KeysBack(entries[0].storageKeys);
      EntriesBack(entries[1..]);
      assert EntryItems(entries)[1..] == EntryItems(entries[1..]);
      assert entries == [entries[0]] + entries[1..];
    }
  }

  lemma TransactionItemsBack(t: Transaction)
    requires t.transactionType == 2 && t.signature.Some?
    ensures AsTransaction(SignedItems(t)) == Some(t.(from := NO_ADDRESS, externalHash := None))
  {
    hide MinBe, ToBe, BeNat, Pow;
    var sig := t.signature.value;
    WordSizes();
    AsUintBack(t.chainId, 8);
    AsUintBack(t.nonce, 8);
    AsUintBack(t.maxPriorityFeePerGas, 16);
    AsUintBack(t.maxFeePerGas, 16);
    AsUintBack(t.gasLimit, 8);
    AsUintBack(t.value, 16);
    EntriesBack(t.accessList);
    AsUintBack(if sig.yParity then 1 else 0, 8);
    BeNatBound(sig.r);
    BeNatBound(sig.s);
    AsUintBack(BeNat(sig.r), 32);
    AsUintBack(BeNat(sig.s), 32);
    ToBeBeNat(sig.r);
    ToBeBeNat(sig.s);
  }

  /** Every encoded field comes back from the wire bytes. The sender and the
      external hash are not on the wire. */
  lemma SignedRoundTrip(t: Transaction)
    requires SignedBytes(t).Ok? && Fits(List(SignedItems(t)))
    ensures DecodeSigned(SignedBytes(t).bytes) == Some(t.(from := NO_ADDRESS, externalHash := None))
  {
    SignedEncode(t);
    var body := Encode(List(SignedItems(t)));
    RoundTrip(List(SignedItems(t)), []);
    assert body + [] == body && ([2] + body)[1..] == body;
    TransactionItemsBack(t);
  }

  ghost predicate NumberItem(i: Item, n: nat) {
    i.Str? && BeNat(i.bytes) == n && (|i.bytes| > 0 ==> i.bytes[0] != 0)
  }

  lemma MinBeIsNumber(n: nat)
    ensures NumberItem(Str(MinBe(n)), n)
  {
    MinBeValue(n);
  }

  /** The twelve items of a signed transaction in the order of EIP-1559, numbers without
      leading zeros. */
  ghost predicate InOrder(f: seq<Item>, t: Transaction)
    requires t.signature.Some?
  {
    |f| == 12 &&
    NumberItem(f[0], t.chainId) && NumberItem(f[1], t.nonce) && NumberItem(f[2], t.maxPriorityFeePerGas) &&
    NumberItem(f[3], t.maxFeePerGas) && NumberItem(f[4], t.gasLimit) &&
    f[5] == Str(if t.to.Some? then t.to.value else []) && NumberItem(f[6], t.value) && f[7] == Str(t.payload) &&
    f[8].List? && AsEntries(f[8].items) == Some(t.accessList) &&
    NumberItem(f[9], if t.signature.value.yParity then 1 else 0) &&
    NumberItem(f[10], BeNat(t.signature.value.r)) && NumberItem(f[11], BeNat(t.signature.value.s))
  }

  lemma ItemsInOrder(t: Transaction)
    requires t.signature.Some?
    ensures InOrder(SignedItems(t), t)
  {
    hide MinBe, NumberItem, AsEntries, EntryItems, BeNat;
    EntriesBack(t.accessList);
    MinBeIsNumber(t.chainId);
    MinBeIsNumber(t.nonce);
    MinBeIsNumber(t.maxPriorityFeePerGas);
    MinBeIsNumber(t.maxFeePerGas);
    MinBeIsNumber(t.gasLimit);
    MinBeIsNumber(t.value);
    MinBeIsNumber(if t.signature.value.yParity then 1 else 0);
    MinBeIsNumber(BeNat(t.signature.value.r));
    MinBeIsNumber(BeNat(t.signature.value.s));
  }

  /** The signed form is the type byte and one list of those items. */
  lemma SignedLayout(t: Transaction)
    requires SignedBytes(t).Ok? && Fits(List(SignedItems(t)))
    ensures |SignedBytes(t).bytes| > 0 && SignedBytes(t).bytes[0] == 2 && t.transactionType == 2
    ensures var r := Decode(SignedBytes(t).bytes[1..]);
      r.Some? && r.value.1 == [] && r.value.0.List? && InOrder(r.value.0.items, t)
  {
    hide SignedItems, InOrder, Encode, Decode;
    SignedEncode(t);
    var body := Encode(List(SignedItems(t)));
    RoundTrip(List(SignedItems(t)), []);
    assert body + [] == body && ([2] + body)[1..] == body;
    ItemsInOrder(t);
  }

  lemma {:induction false} KeysOnly(items: seq<Item>)
    requires AsKeys(items).Some?
    ensures KeyItems(AsKeys(items).value) == items
  {
    if |items| > 0 {
      KeysOnly(items[1..]);
      assert AsKeys(items).value[1..] == AsKeys(items[1..]).value;
      assert items == [items[0]] + items[1..];
    }
  }

  lemma {:induction false} EntriesOnly(items: seq<Item>)
    requires AsEntries(items).Some?
    ensures EntryItems(AsEntries(items).value) == items
  {
    if |items| > 0 {
      KeysOnly(items[0].items[1].items);
      EntriesOnly(items[1..]);
      assert AsEntries(items).value[1..] == AsEntries(items[1..]).value;
      assert items[0].items == [items[0].items[0], items[0].items[1]];
      assert items == [items[0]] + items[1..];
    }
  }

  lemma TransactionItemsOnly(items: seq<Item>)
    requires AsTransaction(items).Some?
    ensures SignedItems(AsTransaction(items).value) == items
  {
    hide MinBe, ToBe, BeNat, Pow;
    var t := AsTransaction(items).value;
    EntriesOnly(items[8].items);
    BeNatToBe(AsUint(items[10], 32).value, 32);
    BeNatToBe(AsUint(items[11], 32).value, 32);
    assert t.signature.value.yParity == (AsUint(items[9], 8).value == 1);
  }

  /** The wire form is unique: bytes that decode to `t` are the bytes of `t`. */
  lemma SignedCanonical(b: seq<byte>)
    requires DecodeSigned(b).Some?
    ensures SignedBytes(DecodeSigned(b).value) == Ok(b)
  {
    hide AsTransaction, SignedBytes, SignedItems;
    OnlyCanonical(b[1..]);
    var (item, rest) := Decode(b[1..]).value;
    TransactionItemsOnly(item.items);
    SignedEncode(DecodeSigned(b).value);
    assert Encode(item) + [] == Encode(item);
    assert b == [2] + b[1..];
  }

  lemma SigningEncode(t: Transaction)
    requires t.transactionType == 2
    ensures SigningPayload(t) == Ok([2] + Encode(List(UnsignedItems(t))))
  {
    hide UnsignedFields, UnsignedItems;
    UnsignedEncode(t);
    ListOfFields(UnsignedItems(t), UnsignedFields(t));
  }

  /** The fields that a signature is made over. */
  function Signed(t: Transaction): Transaction {
    t.(from := NO_ADDRESS, signature := None, externalHash := None)
  }

  /** Two transactions have the same payload to sign exactly when all fields on the
      wire but the signature are equal. */
  lemma SigningPayloadBinds(t: Transaction, t': Transaction)
    requires t.transactionType == 2 && t'.transactionType == 2
    requires Fits(List(UnsignedItems(t))) && Fits(List(UnsignedItems(t')))
    ensures SigningPayload(t) == SigningPayload(t') <==> Signed(t) == Signed(t')
  {
    hide UnsignedItems, Encode, Decode;
    var i, i' := List(UnsignedItems(t)), List(UnsignedItems(t'));
    SigningEncode(t);
    SigningEncode(t');
    RoundTrip(i, []);
    RoundTrip(i', []);
    assert SigningPayload(t).bytes[1..] == Encode(i) && SigningPayload(t').bytes[1..] == Encode(i');
    SameUnsignedItems(t, t');
  }

  lemma SameUnsignedItems(t: Transaction, t': Transaction)
    requires t.transactionType == 2 && t'.transactionType == 2
    ensures UnsignedItems(t) == UnsignedItems(t') <==> Signed(t) == Signed(t')
  {
    hide AsTransaction, UnsignedItems, MinBe;
    var word: Hash256 := ZERO_HASH;
    var u, u' :=
      t.(signature := Some(Signature(false, word, word))), t'.(signature := Some(Signature(false, word, word)));
    UnsignedItemsIgnore(t, u);
    UnsignedItemsIgnore(t', u');
    UnsignedItemsIgnore(t, Signed(t));
    UnsignedItemsIgnore(t', Signed(t'));
    TransactionItemsBack(u);
    TransactionItemsBack(u');
    if UnsignedItems(t) == UnsignedItems(t') {
      assert u.(from := NO_ADDRESS, externalHash := None) == u'.(from := NO_ADDRESS, externalHash := None);
    }
  }

  lemma UnsignedItemsIgnore(t: Transaction, u: Transaction)
    requires Signed(t) == Signed(u)
    ensures UnsignedItems(t) == UnsignedItems(u)
  {
    hide MinBe, EntryItems;
    var s := Signed(t);
    assert t.to == s.to == u.to && t.payload == s.payload == u.payload && t.accessList == s.accessList == u.accessList;
    assert t.chainId == s.chainId == u.chainId && t.nonce == s.nonce == u.nonce && t.value == s.value == u.value;
    assert t.gasLimit == s.gasLimit == u.gasLimit && t.maxFeePerGas == s.maxFeePerGas == u.maxFeePerGas;
  }
}
