/** The byte-array long division, multiplication and carry addition behind the
    proof-of-work target scaling. */
module TargetArithmetic {
  import opened Bytes

  const MAX_TARGET: Hash256 := seq(32, _ => 255)

  /** What both scaling routines are for: multiply by a fraction, round down,
      and stop at the largest 256-bit number. */
  function Scaled(target: nat, numerator: nat, denominator: nat): nat
    requires denominator > 0
  {
    Min(U256_MAX, target * numerator / denominator)
  }

  lemma MaxTargetValue()
    ensures BeNat(MAX_TARGET) == U256_MAX
  {
    WordSizes();
    MaxPrefix(32);
    assert MAX_TARGET[..32] == MAX_TARGET;
  }

  lemma {:induction false} MaxPrefix(k: nat)
    requires k <= 32
    ensures BeNat(MAX_TARGET[..k]) + 1 == Pow(256, k)
  {
    if k > 0 {
      MaxPrefix(k - 1);
      assert MAX_TARGET[..k][..k - 1] == MAX_TARGET[..k - 1];
    }
  }

  method DivideHashWithRemainder(hash: Hash256, divisor: u64) returns (quotient: Hash256, remainder: u64)
    requires divisor > 0
    ensures remainder < divisor
    ensures BeNat(hash) == BeNat(quotient) * divisor + remainder
  {
    var out := new byte[32](_ => 0);
    var rest: u128 := 0;
    for i := 0 to 32
      invariant rest < divisor
      invariant BeNat(hash[..i]) == BeNat(out[..i]) * divisor + rest
    {
      var value: u128 := rest * 256 + hash[i];
      ghost var before := out[..i];
      QuotientDigit(rest, hash[i], divisor);
      out[i] := (value / divisor) % 256;
      assert hash[..i + 1][..i] == hash[..i];
      assert out[..i + 1][..i] == before;
      LongDivisionStep(BeNat(hash[..i]), BeNat(before), rest, hash[i], divisor);
      rest := value % divisor;
    }
    assert out[..] == out[..32] && hash[..32] == hash;
    quotient, remainder := out[..], rest;
  }

  lemma QuotientDigit(rest: nat, digit: byte, divisor: nat)
    requires rest < divisor
    ensures 0 <= (rest * 256 + digit) / divisor < 256
  {
    DivGalois(rest * 256 + digit, divisor, 256);
  }

  lemma LongDivisionStep(prefix: nat, q: nat, rest: nat, digit: byte, divisor: nat)
    requires 0 < divisor && prefix == q * divisor + rest
    ensures prefix * 256 + digit
         == (q * 256 + (rest * 256 + digit) / divisor) * divisor + (rest * 256 + digit) % divisor
  {
    var d := (rest * 256 + digit) / divisor;
    assert (q * 256 + d) * divisor == q * divisor * 256 + d * divisor;
  }

  method MultiplyHash(hash: Hash256, multiplier: u64) returns (product: Hash256)
    ensures BeNat(product) == Min(U256_MAX, BeNat(hash) * multiplier)
  {
    hide BeNat, Pow;
    var out := new byte[32](i requires 0 <= i < 32 => hash[i]);
    var carry: u128 := 0;
    NoDigits(out[32..], hash[32..]);
    for i := 32 downto 0
      invariant carry <= multiplier
      invariant forall k :: 0 <= k < i ==> out[k] == hash[k]
      invariant BeNat(out[i..]) + carry * Pow(256, 32 - i) == BeNat(hash[i..]) * multiplier
    {
      CarryStaysSmall(out[i], multiplier, carry);
      var value: u128 := out[i] * multiplier + carry;
      ghost var before := out[i + 1..];
      MultiplyDigit(before, hash[i + 1..], hash[i], multiplier, carry, value % 256, value / 256);
      out[i] := value % 256;
      assert out[i + 1..] == before;
      assert out[i..] == [value % 256] + before && hash[i..] == [hash[i]] + hash[i + 1..];
      carry := value / 256;
    }
    assert out[0..] == out[..] && hash[0..] == hash;
    SaturateOnCarry(out[..], carry);
    if carry > 0 {
      product := MAX_TARGET;
    } else {
      product := out[..];
    }
  }

  lemma NoDigits(a: seq<byte>, b: seq<byte>)
    requires |a| == |b| == 0
    ensures BeNat(a) == BeNat(b) == 0 && Pow(256, 0) == 1
  {
  }

  lemma LeadingDigit(digit: byte, tail: seq<byte>)
    ensures BeNat([digit] + tail) == digit * Pow(256, |tail|) + BeNat(tail) &&
      Pow(256, |tail| + 1) == Pow(256, |tail|) * 256
  {
    BeNatFirst([digit] + tail);
    assert ([digit] + tail)[1..] == tail;
  }

  /** One digit of a product: `digit'` stays, `carry'` goes on. */
  lemma MultiplyDigit(low: seq<byte>, tail: seq<byte>, digit: byte, multiplier: nat, carry: nat, digit': byte,
    carry': nat)
    requires |low| == |tail| && BeNat(low) + carry * Pow(256, |low|) == BeNat(tail) * multiplier
    requires digit' + 256 * carry' == digit * multiplier + carry
    ensures BeNat([digit'] + low) + carry' * Pow(256, |low| + 1) == BeNat([digit] + tail) * multiplier
  {
    hide BeNat, Pow;
    LeadingDigit(digit', low);
    LeadingDigit(digit, tail);
    MultiplyStep(digit, multiplier, carry, digit', carry', Pow(256, |low|), BeNat(low), BeNat(tail));
  }

  lemma MultiplyStep(digit: nat, multiplier: nat, carry: nat, digit': nat, carry': nat, p: nat, low: nat, tail: nat)
    requires low + carry * p == tail * multiplier && digit' + 256 * carry' == digit * multiplier + carry
    ensures digit' * p + low + carry' * (p * 256) == (digit * p + tail) * multiplier
  {
    calc {
      digit' * p + low + carry' * (p * 256);
      (digit' + 256 * carry') * p + low;
      digit * multiplier * p + carry * p + low;
      (digit * p + tail) * multiplier;
    }
  }

  /** One digit of a sum. */
  lemma AddDigit(low: seq<byte>, tail: seq<byte>, digit: byte, carry: nat, addend: nat, digit': byte, carry': nat)
    requires |low| == |tail| && BeNat(low) + carry * Pow(256, |low|) == BeNat(tail) + addend
    requires digit' + 256 * carry' == digit + carry
    ensures BeNat([digit'] + low) + carry' * Pow(256, |low| + 1) == BeNat([digit] + tail) + addend
  {
    hide BeNat, Pow;
    LeadingDigit(digit', low);
    LeadingDigit(digit, tail);
    AddStep(digit, carry, digit', carry', Pow(256, |low|));
  }

  lemma AddStep(digit: nat, carry: nat, digit': nat, carry': nat, p: nat)
    requires digit' + 256 * carry' == digit + carry
    ensures digit' * p + carry' * (p * 256) == digit * p + carry * p
  {
    assert (digit' + 256 * carry') * p == (digit + carry) * p;
  }

  /** A leftover carry means the exact result needs more than 32 bytes. */
  lemma SaturateOnCarry(low: Hash256, carry: nat)
    ensures carry > 0 ==> BeNat(MAX_TARGET) == Min(U256_MAX, BeNat(low) + carry * Pow(256, 32))
    ensures carry == 0 ==> BeNat(low) == Min(U256_MAX, BeNat(low) + carry * Pow(256, 32))
  {
    WordSizes();
    BeNatBound(low);
    MaxTargetValue();
    MulLe(1, carry, Pow(256, 32));
  }

  lemma CarryStaysSmall(digit: byte, multiplier: u64, carry: nat)
    requires carry <= multiplier
    ensures 0 <= digit * multiplier + carry <= 256 * multiplier <= U128_MAX
    ensures (digit * multiplier + carry) / 256 <= multiplier
  {
    MulLe(digit, 255, multiplier);
    MulLe(0, digit, multiplier);
  }

  /** The carry loop both scaling routines end with. */
  method AddCarry(hash: Hash256, addend: u128) returns (sum: Hash256)
    ensures BeNat(sum) == Min(U256_MAX, BeNat(hash) + addend)
  {
    hide BeNat, Pow;
    var out := new byte[32](i requires 0 <= i < 32 => hash[i]);
    var carry: u128 := addend;
    NoDigits(out[32..], hash[32..]);
    for i := 32 downto 0
      invariant forall k :: 0 <= k < i ==> out[k] == hash[k]
      invariant BeNat(out[i..]) + carry * Pow(256, 32 - i) == BeNat(hash[i..]) + addend
    {
      var value: u128 := out[i] + carry % 256;
      ghost var before := out[i + 1..];
      AddDigit(before, hash[i + 1..], hash[i], carry, addend, value % 256, carry / 256 + value / 256);
      out[i] := value % 256;
      assert out[i + 1..] == before;
      assert out[i..] == [value % 256] + before && hash[i..] == [hash[i]] + hash[i + 1..];
      carry := carry / 256 + value / 256;
    }
    assert out[0..] == out[..] && hash[0..] == hash;
    SaturateOnCarry(out[..], carry);
    if carry > 0 {
      sum := MAX_TARGET;
    } else {
      sum := out[..];
    }
  }

  /** Scaling the quotient and the remainder separately loses nothing, even when
      the quotient's product has already saturated, and every product fits. */
  lemma SplitScaling(target: nat, numerator: u64, denominator: u64, q: nat, r: u64)
    requires 0 < denominator && r < denominator && target == q * denominator + r
    ensures 0 <= r * numerator <= U128_MAX
    ensures 0 <= r * numerator / denominator <= numerator
    ensures Min(U256_MAX, Min(U256_MAX, q * numerator) + r * numerator / denominator)
         == Scaled(target, numerator, denominator)
  {
    ProductFits(r, numerator);
    var s := r * numerator;
    Distribute(target, numerator, denominator, q, r);
    DivideSum(q * numerator, s, denominator);
    MulLe(r, denominator, numerator);
    DivGalois(s, denominator, 0);
    DivGalois(s, denominator, numerator + 1);
  }

  lemma Distribute(target: nat, numerator: nat, denominator: nat, q: nat, r: nat)
    requires target == q * denominator + r
    ensures target * numerator == q * numerator * denominator + r * numerator
  {
    assert (q * denominator + r) * numerator == q * denominator * numerator + r * numerator;
    assert q * denominator * numerator == q * numerator * denominator;
  }

  lemma DivideSum(k: nat, s: nat, d: nat)
    requires d > 0
    ensures (k * d + s) / d == k + s / d
  {
    assert k * d + s == (k + s / d) * d + s % d;
    DivUnique(k * d + s, d, k + s / d, s % d);
  }

  method ScaleTargetFraction(target: Hash256, numerator: u64, denominator: u64) returns (scaled: Hash256)
    requires denominator > 0
    ensures BeNat(scaled) == Scaled(BeNat(target), numerator, denominator)
  {
    var quotient, remainder := DivideHashWithRemainder(target, denominator);
    var out := MultiplyHash(quotient, numerator);
    SplitScaling(BeNat(target), numerator, denominator, BeNat(quotient), remainder);
    var product: u128 := remainder * numerator;
    var carry: u128 := product / denominator;
    scaled := AddCarry(out, carry);
  }

  method ScaleTarget(target: Hash256, numerator: u64, denominator: u64) returns (scaled: Hash256)
    ensures denominator == 0 ==> scaled == MAX_TARGET
    ensures denominator > 0 ==> BeNat(scaled) == Scaled(BeNat(target), numerator, denominator)
  {
    if denominator == 0 {
      return MAX_TARGET;
    }
    var quotient, remainder := DivideHashWithRemainder(target, denominator);
    var out := MultiplyHash(quotient, numerator);
    SplitScaling(BeNat(target), numerator, denominator, BeNat(quotient), remainder);
    var product: u128 := remainder * numerator;
    var carry: u64 := product / denominator;
    scaled := AddCarry(out, carry);
  }

  lemma ProductFits(a: u64, b: u64)
    ensures 0 <= a * b <= U128_MAX
  {
    MulLe(a, U64_MAX, b);
    MulLe(b, U64_MAX, U64_MAX);
  }

  predicate SatisfiesPow(hash: Hash256, target: Hash256) {
    hash == target || LexLess(hash, target)
  }

  lemma SatisfiesPowIsNumeric(hash: Hash256, target: Hash256)
    ensures SatisfiesPow(hash, target) <==> BeNat(hash) <= BeNat(target)
  {
    LexIsNumeric(hash, target);
  }
}
