/** Machine integers, fixed-width byte strings and their big-endian value. */
module Bytes {

  type byte = x: int | 0 <= x < 256
  type u64 = x: int | 0 <= x < 0x1_0000_0000_0000_0000
  type u128 = x: int | 0 <= x < 0x1_0000_0000_0000_0000_0000_0000_0000_0000
  const U64_MAX: u64 := 0xFFFF_FFFF_FFFF_FFFF
  const U128_MAX: u128 := 0xFFFF_FFFF_FFFF_FFFF_FFFF_FFFF_FFFF_FFFF
  const U256_MAX: nat :=
    0xFFFF_FFFF_FFFF_FFFF_FFFF_FFFF_FFFF_FFFF_FFFF_FFFF_FFFF_FFFF_FFFF_FFFF_FFFF_FFFF

  type Hash256 = s: seq<byte> | |s| == 32 witness seq(32, _ => 0)
  type Address = s: seq<byte> | |s| == 20 witness seq(20, _ => 0)
  const ZERO_HASH: Hash256 := ToBe(0, 32)

  datatype Option<+T> = None | Some(value: T) {
    predicate IsFailure() {
      None?
    }

    function PropagateFailure<U>(): Option<U>
      requires None?
    {
      None
    }

    function Extract(): T
      requires Some?
    {
      value
    }
  }

  function Min(a: int, b: int): int {
    if a <= b then a else b
  }

  function Pow(b: nat, k: nat): nat {
    if k == 0 then 1 else Pow(b, k - 1) * b
  }

  /** Value of a byte string read most significant byte first. */
  function BeNat(s: seq<byte>): nat {
    if |s| == 0 then 0 else BeNat(s[..|s| - 1]) * 256 + s[|s| - 1]
  }

  /** The `width` low-order bytes of `n`, most significant first: `to_be_bytes`
      of an unsigned integer that is `width` bytes wide. */
  function ToBe(n: nat, width: nat): (s: seq<byte>)
    ensures |s| == width
  {
    if width == 0 then [] else ToBe(n / 256, width - 1) + [n % 256]
  }

  /** Lexicographic order, which is how Rust compares byte arrays. */
  predicate LexLess(a: seq<byte>, b: seq<byte>)
    requires |a| == |b|
  {
    |a| > 0 && (a[0] < b[0] || (a[0] == b[0] && LexLess(a[1..], b[1..])))
  }

  lemma MulLe(a: int, b: int, c: nat)
    ensures a <= b ==> a * c <= b * c
  {
    if a <= b { assert 0 <= (b - a) * c == b * c - a * c; }
  }

  lemma DivUnique(n: int, d: nat, q: int, r: nat)
    requires r < d && n == q * d + r
    ensures n / d == q && n % d == r
  {
    MulLe(n / d + 1, q, d);
    MulLe(q + 1, n / d, d);
  }

  /** `n / d` is the largest number whose product with `d` is at most `n`. */
  lemma DivGalois(n: int, d: nat, k: int)
    requires d > 0
    ensures k <= n / d <==> k * d <= n
  {
    MulLe(n / d + 1, k, d);
    MulLe(k, n / d, d);
  }

  lemma {:induction false} PowAdd(b: nat, j: nat, k: nat)
    ensures Pow(b, j + k) == Pow(b, j) * Pow(b, k)
  {
    if k > 0 {
      PowAdd(b, j, k - 1);
      assert Pow(b, j + k) == Pow(b, j) * Pow(b, k - 1) * b;
    }
  }

  /** One more step of a compound upper bound: `x * m^n <= start * k^n`. */
  lemma CompoundAtMost(x': nat, x: nat, m: nat, k: nat, mn: nat, kn: nat, start: nat)
    requires m * x' <= k * x && x * mn <= start * kn
    ensures x' * (mn * m) <= start * (kn * k)
  {
    MulLe(m * x', k * x, mn);
    MulLe(x * mn, start * kn, k);
    assert x' * (mn * m) == m * x' * mn && k * x * mn == x * mn * k && start * (kn * k) == start * kn * k;
  }

  /** One more step of a compound lower bound: `start * k^n <= x * m^n`. */
  lemma CompoundAtLeast(x': nat, x: nat, m: nat, k: nat, mn: nat, kn: nat, start: nat)
    requires k * x <= m * x' && start * kn <= x * mn
    ensures start * (kn * k) <= x' * (mn * m)
  {
    MulLe(k * x, m * x', mn);
    MulLe(start * kn, x * mn, k);
    assert x' * (mn * m) == m * x' * mn && k * x * mn == x * mn * k && start * (kn * k) == start * kn * k;
  }

  lemma {:induction false} BeNatBound(s: seq<byte>)
    ensures BeNat(s) < Pow(256, |s|)
  {
    if |s| > 0 { BeNatBound(s[..|s| - 1]); }
  }

  lemma {:induction false} BeNatConcat(a: seq<byte>, b: seq<byte>)
    ensures BeNat(a + b) == BeNat(a) * Pow(256, |b|) + BeNat(b)
  {
    if |b| == 0 {
      assert a + b == a;
    } else {
      var c := b[..|b| - 1];
      assert (a + b)[..|a + b| - 1] == a + c;
      BeNatConcat(a, c);
      calc {
        BeNat(a + b);
        (BeNat(a) * Pow(256, |c|) + BeNat(c)) * 256 + b[|b| - 1];
        BeNat(a) * Pow(256, |c|) * 256 + BeNat(b);
        BeNat(a) * (Pow(256, |c|) * 256) + BeNat(b);
      }
    }
  }

  /** Splits off the first byte, the view a loop running from the back needs. */
  lemma BeNatFirst(s: seq<byte>)
    requires |s| > 0
    ensures BeNat(s) == s[0] * Pow(256, |s| - 1) + BeNat(s[1..])
  {
    assert s == s[..1] + s[1..];
    BeNatConcat(s[..1], s[1..]);
    assert s[..1][..0] == [];
    assert BeNat(s[..1]) == s[0];
  }

  lemma {:induction false} BeNatToBe(n: nat, width: nat)
    requires n < Pow(256, width)
    ensures BeNat(ToBe(n, width)) == n
  {
    if width > 0 {
      assert n / 256 < Pow(256, width - 1);
      BeNatToBe(n / 256, width - 1);
      assert ToBe(n, width)[..width - 1] == ToBe(n / 256, width - 1);
    }
  }

  /** Bytes that do not fit are cut off at the top. */
  lemma {:induction false} BeNatTruncates(n: nat, width: nat)
    ensures Pow(256, width) > 0 && BeNat(ToBe(n, width)) == n % Pow(256, width)
  {
    if width > 0 {
      var p := Pow(256, width - 1);
      BeNatTruncates(n / 256, width - 1);
      assert ToBe(n, width)[..width - 1] == ToBe(n / 256, width - 1);
      OneMoreByte(n / 256, n % 256, p);
    }
  }

  lemma OneMoreByte(high: nat, low: byte, p: nat)
    requires p > 0
    ensures (256 * high + low) % (p * 256) == high % p * 256 + low
  {
    var q, r := high / p, high % p;
    DivGalois(high, p, 0);
    assert q * p * 256 == q * (p * 256);
    DivUnique(256 * high + low, p * 256, q, r * 256 + low);
  }

  lemma {:induction false} ToBeBeNat(s: seq<byte>)
    ensures ToBe(BeNat(s), |s|) == s
  {
    if |s| > 0 {
      ToBeBeNat(s[..|s| - 1]);
      assert BeNat(s) / 256 == BeNat(s[..|s| - 1]);
      assert s == s[..|s| - 1] + [s[|s| - 1]];
    }
  }

  lemma LeadingDigitDominates(x: nat, y: nat, p: nat, low: nat)
    requires x < y && low < p
    ensures x * p + low < y * p
  {
    assert (x + 1) * p <= y * p;
  }

  /** Comparing byte arrays lexicographically compares the numbers they spell. */
  lemma {:induction false} LexIsNumeric(a: seq<byte>, b: seq<byte>)
    requires |a| == |b|
    ensures LexLess(a, b) <==> BeNat(a) < BeNat(b)
    ensures a == b <==> BeNat(a) == BeNat(b)
  {
    if |a| > 0 {
      BeNatFirst(a);
      BeNatFirst(b);
      BeNatBound(a[1..]);
      BeNatBound(b[1..]);
      var p := Pow(256, |a| - 1);
      if a[0] < b[0] {
        LeadingDigitDominates(a[0], b[0], p, BeNat(a[1..]));
      } else if b[0] < a[0] {
        LeadingDigitDominates(b[0], a[0], p, BeNat(b[1..]));
      } else {
        LexIsNumeric(a[1..], b[1..]);
        assert a == [a[0]] + a[1..] && b == [b[0]] + b[1..];
      }
    }
  }

  lemma WordSizes()
    ensures Pow(256, 8) == U64_MAX + 1
    ensures Pow(256, 16) == U128_MAX + 1
    ensures Pow(256, 32) == U256_MAX + 1
  {
    PowAdd(256, 16, 16);
  }
}
