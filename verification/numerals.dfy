/** Decimal and lower-hexadecimal numerals, as Rust's formatter writes and its parser reads them. */
module Numerals {
  import opened Bytes

  /** The bytes of an ASCII literal. */
  function Ascii(s: string): (b: seq<u8>)
    requires forall i :: 0 <= i < |s| ==> s[i] < 128 as char
    ensures |b| == |s| && forall i :: 0 <= i < |s| ==> b[i] == s[i] as int
  {
    seq(|s|, i requires 0 <= i < |s| => s[i] as int)
  }

  predicate Radix(radix: nat) { radix == 10 || radix == 16 }

  function DigitByte(d: nat): u8
    requires d < 16
  {
    if d < 10 then 48 + d else 87 + d
  }

  function DigitValue(b: u8): nat {
    if 48 <= b <= 57 then b - 48 else if 97 <= b <= 102 then b - 87 else 16
  }

  predicate IsDigit(b: u8, radix: nat) { DigitValue(b) < radix }

  predicate AllDigits(s: seq<u8>, radix: nat) { forall i :: 0 <= i < |s| ==> IsDigit(s[i], radix) }

  /** The numeral of `n` without leading zeros. */
  function Digits(n: nat, radix: nat): (s: seq<u8>)
    requires Radix(radix)
    ensures s != []
  {
    if n < radix then [DigitByte(n)] else Digits(n / radix, radix) + [DigitByte(n % radix)]
  }

  /** The value of a digit string, leading zeros allowed. */
  function Value(s: seq<u8>, radix: nat): nat {
    if s == [] then 0 else Value(s[..|s| - 1], radix) * radix + DigitValue(s[|s| - 1])
  }

  lemma {:induction false} ValueOfDigits(n: nat, radix: nat)
    requires Radix(radix)
    ensures AllDigits(Digits(n, radix), radix)
    ensures Value(Digits(n, radix), radix) == n
  {
    var s := Digits(n, radix);
    if n < radix {
      assert s[..0] == [];
      assert Value(s[..0], radix) == 0;
    } else {
      ValueOfDigits(n / radix, radix);
      assert s[..|s| - 1] == Digits(n / radix, radix);
      if radix == 10 {
        assert n == n / 10 * 10 + n % 10;
      } else {
        assert n == n / 16 * 16 + n % 16;
      }
    }
  }

  lemma DigitsInjective(m: nat, n: nat, radix: nat)
    requires Radix(radix) && Digits(m, radix) == Digits(n, radix)
    ensures m == n
  {
    ValueOfDigits(m, radix);
    ValueOfDigits(n, radix);
  }

  /** The longest run of digits `s` starts with. */
  function DigitRun(s: seq<u8>, radix: nat): (n: nat)
    ensures n <= |s|
    ensures AllDigits(s[..n], radix)
    ensures n < |s| ==> !IsDigit(s[n], radix)
  {
    if s == [] || !IsDigit(s[0], radix) then 0
    else
      var n := 1 + DigitRun(s[1..], radix);
      assert forall i :: 1 <= i < n ==> s[i] == s[1..][..n - 1][i - 1];
      n
  }

  lemma {:induction false} DigitRunStops(digits: seq<u8>, rest: seq<u8>, radix: nat)
    requires AllDigits(digits, radix)
    requires rest != [] ==> !IsDigit(rest[0], radix)
    ensures DigitRun(digits + rest, radix) == |digits|
  {
    if digits == [] {
      assert digits + rest == rest;
    } else {
      assert (digits + rest)[1..] == digits[1..] + rest;
      DigitRunStops(digits[1..], rest, radix);
    }
  }

  /** Exactly `width` decimal digits: the low `width` digits of `n`. */
  function Fixed(n: nat, width: nat): (s: seq<u8>)
    ensures |s| == width
  {
    if width == 0 then [] else Fixed(n / 10, width - 1) + [DigitByte(n % 10)]
  }

  function Pow10(k: nat): (p: nat)
    ensures p >= 1
  {
    if k == 0 then 1 else 10 * Pow10(k - 1)
  }

  lemma {:induction false} FixedRoundTrip(n: nat, width: nat)
    requires n < Pow10(width)
    ensures AllDigits(Fixed(n, width), 10) && Value(Fixed(n, width), 10) == n
  {
    if width > 0 {
      FixedRoundTrip(n / 10, width - 1);
      var s := Fixed(n, width);
      assert s[..|s| - 1] == Fixed(n / 10, width - 1);
    }
  }

  lemma {:induction false} FixedOfValue(s: seq<u8>)
    requires AllDigits(s, 10)
    ensures Value(s, 10) < Pow10(|s|)
    ensures Fixed(Value(s, 10), |s|) == s
  {
    if s != [] {
      FixedOfValue(s[..|s| - 1]);
    }
  }

  /** `u64::from_str`: an optional plus sign, then digits, in range. */
  function ParseU64(s: seq<u8>): (n: Option<nat>)
    ensures n.Some? ==> n.value <= U64_MAX
  {
    var digits := if s != [] && s[0] == 43 then s[1..] else s;
    if digits == [] || !AllDigits(digits, 10) || Value(digits, 10) > U64_MAX then None else Some(Value(digits, 10))
  }

  lemma ParseOfDigits(n: nat)
    requires n <= U64_MAX
    ensures ParseU64(Digits(n, 10)) == Some(n)
  {
    ValueOfDigits(n, 10);
    assert IsDigit(Digits(n, 10)[0], 10);
  }

  /** The digits are the lower-case ASCII ones. */
  lemma DigitText(d: nat)
    requires d < 16
    ensures DigitByte(d) == Ascii("0123456789abcdef")[d]
  {
  }
}
