/** Decimal numerals of natural numbers. */
module Decimal {
  import opened Wrappers

  function DigitChar(d: nat): char
    requires d < 10
  {
    ('0' as int + d) as char
  }

  predicate IsDigit(c: char) { '0' <= c <= '9' }

  predicate AllDigits(s: string) { forall i :: 0 <= i < |s| ==> IsDigit(s[i]) }

  /** `n.to_string()`. */
  function ToString(n: nat): (s: string)
    ensures s != [] && AllDigits(s)
  {
    if n < 10 then [DigitChar(n)] else ToString(n / 10) + [DigitChar(n % 10)]
  }

  /** The number a row of digits stands for. */
  function Value(s: string): nat
    requires AllDigits(s)
  {
    if s == [] then 0
    else
      assert AllDigits(s[..|s| - 1]);
      assert IsDigit(s[|s| - 1]);
      10 * Value(s[..|s| - 1]) + (s[|s| - 1] as int - '0' as int)
  }

  lemma {:induction false} ValueOfToString(n: nat)
    ensures Value(ToString(n)) == n
  {
    var s := ToString(n);
    if n < 10 {
      assert s[..0] == [];
    } else {
      ValueOfToString(n / 10);
      assert s[..|s| - 1] == ToString(n / 10);
    }
  }

  lemma {:induction false} LeadingZero(s: string)
    requires AllDigits(s)
    ensures AllDigits("0" + s) && Value("0" + s) == Value(s)
  {
    var z := "0" + s;
    assert z[..|z| - 1] == if s == "" then "" else "0" + s[..|s| - 1];
    if s == "" {
    } else {
      LeadingZero(s[..|s| - 1]);
    }
  }

  lemma ToStringInjective(m: nat, n: nat)
    requires ToString(m) == ToString(n)
    ensures m == n
  {
    ValueOfToString(m);
    ValueOfToString(n);
  }

  /** `parse::<usize>()`: an optional plus sign, then digits, of a value below 2^64. */
  function ParseUsize(s: string): Option<u64> {
    var digits := if s != [] && s[0] == '+' then s[1..] else s;
    if digits == [] || !AllDigits(digits) || Value(digits) >= TWO64 then None else Some(Value(digits))
  }

  lemma ParseOfToString(n: u64)
    ensures ParseUsize(ToString(n)) == Some(n)
  {
    ValueOfToString(n);
    assert IsDigit(ToString(n)[0]);
  }

  /** A count is digits, perhaps behind a plus sign; anything else, and any number from 2^64 on, is refused. */
  lemma ParsedText(s: string, n: nat)
    ensures ParseUsize(s) == Some(n) <==>
      n < TWO64 && exists digits ::
        (s == digits || s == "+" + digits) && digits != [] && AllDigits(digits) && Value(digits) == n
  {
    hide Value, TWO64;
    var digits := if s != [] && s[0] == '+' then s[1..] else s;
    assert s == digits || s == "+" + digits;
    assert !IsDigit('+');
    forall other | (s == other || s == "+" + other) && other != [] && AllDigits(other) ensures other == digits {
      if s == other {
        assert IsDigit(s[0]);
      } else {
        assert ("+" + other)[1..] == other;
      }
    }
  }

  function Pow10(k: nat): nat { if k == 0 then 1 else 10 * Pow10(k - 1) }

  /** Numbers below 10^k have at most k digits. */
  lemma {:induction false} ToStringLength(n: nat, k: nat)
    requires n < Pow10(k) && k > 0
    ensures |ToString(n)| <= k
  {
    if n < 10 {
    } else {
      ToStringLength(n / 10, k - 1);
    }
  }

  /** A 64-bit number has at most 20 digits. */
  lemma WordLength(n: u64)
    ensures |ToString(n)| <= 20
  {
    assert Pow10(5) == 100_000;
    assert Pow10(10) == 100_000 * Pow10(5);
    assert Pow10(15) == 100_000 * Pow10(10);
    assert Pow10(20) == 100_000 * Pow10(15);
    ToStringLength(n, 20);
  }

  /** Numbers below 1000 have at most three digits. */
  lemma ToStringShort(n: nat)
    requires n < 1000
    ensures |ToString(n)| <= 3
  {
    if n >= 10 {
      var m := n / 10;
      if m >= 10 {
        assert m / 10 < 10 && |ToString(m / 10)| == 1;
      }
      assert |ToString(m)| <= 2;
    }
  }

  /** The digits a text starts with. */
  function LeadingDigits(s: string): string {
    if s == [] || !IsDigit(s[0]) then [] else [s[0]] + LeadingDigits(s[1..])
  }

  lemma {:induction false} LeadingDigitsOf(a: string, rest: string)
    requires AllDigits(a) && (rest == [] || !IsDigit(rest[0]))
    ensures LeadingDigits(a + rest) == a
  {
    if a == [] {
      assert a + rest == rest;
    } else {
      assert (a + rest)[0] == a[0] && (a + rest)[1..] == a[1..] + rest;
      LeadingDigitsOf(a[1..], rest);
    }
  }

  /** A numeral ends at the first character that is not a digit: texts that start with two numerals,
      each followed by `c`, start with the same numeral. */
  lemma NumeralPrefix(a: string, b: string, c: char, t: string)
    requires AllDigits(a) && AllDigits(b) && !IsDigit(c)
    requires a + [c] <= t && b + [c] <= t
    ensures a == b
  {
    assert t == a + ([c] + t[|a| + 1..]);
    assert t == b + ([c] + t[|b| + 1..]);
    LeadingDigitsOf(a, [c] + t[|a| + 1..]);
    LeadingDigitsOf(b, [c] + t[|b| + 1..]);
  }
}
