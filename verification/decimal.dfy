/** Decimal rendering of integers (`String(n)`, `n.toString()`) and reading decimal digits back (`Number(s)`). */
module Decimal {
  import opened Strings

  function DigitChar(d: nat): (c: char)
    requires d < 10
    ensures IsDigit(c)
  {
    ('0' as int + d) as char
  }

  function DigitValue(c: char): (d: nat)
    requires IsDigit(c)
    ensures d < 10 && DigitChar(d) == c
  {
    c as int - '0' as int
  }

  predicate AllDigits(s: string) {
    forall i :: 0 <= i < |s| ==> IsDigit(s[i])
  }

  /** The decimal digits of `n`, most significant first, without leading zeros. */
  function NatToString(n: nat): (r: string)
    ensures |r| >= 1 && AllDigits(r)
    ensures r[0] == '0' ==> n == 0
  {
    if n < 10 then [DigitChar(n)] else NatToString(n / 10) + [DigitChar(n % 10)]
  }

  /** The number a string of decimal digits denotes. */
  function ParseDigits(s: string): nat
    requires AllDigits(s)
  {
    if s == [] then 0 else 10 * ParseDigits(s[..|s| - 1]) + DigitValue(s[|s| - 1])
  }

  lemma {:induction false} ParseNatToString(n: nat)
    ensures ParseDigits(NatToString(n)) == n
  {
    var r := NatToString(n);
    if n >= 10 {
      var q := NatToString(n / 10);
      assert r[..|r| - 1] == q;
      ParseNatToString(n / 10);
    }
  }

  /** Digits without a leading zero denote a positive number. */
  lemma {:induction false} LeadingDigitPositive(d: string)
    requires d != [] && AllDigits(d) && d[0] != '0'
    ensures ParseDigits(d) > 0
    decreases |d|
  {
    if |d| > 1 {
      var init := d[..|d| - 1];
      assert init[0] == d[0];
      LeadingDigitPositive(init);
    } else {
      assert d[..0] == [];
    }
  }

  /** Digits without a leading zero are the decimal writing of the number they denote. */
  lemma {:induction false} CanonicalDigits(d: string)
    requires d != [] && AllDigits(d) && d[0] != '0'
    ensures NatToString(ParseDigits(d)) == d
    decreases |d|
  {
    var n := ParseDigits(d);
    var init, last := d[..|d| - 1], d[|d| - 1];
    if |d| == 1 {
      assert init == [] && ParseDigits(init) == 0;
      assert n == DigitValue(last) < 10;
      assert d == [last];
    } else {
      assert init[0] == d[0];
      LeadingDigitPositive(init);
      CanonicalDigits(init);
      var p := ParseDigits(init);
      assert n == 10 * p + DigitValue(last) && p >= 1;
      assert n / 10 == p && n % 10 == DigitValue(last);
      assert d == init + [last];
    }
  }

  /** `String(i)` for an integer, with a leading `-` when negative. */
  function IntToString(i: int): string {
    if i < 0 then "-" + NatToString(-i) else NatToString(i)
  }

  /** Length of the run of decimal digits at the start of `s`. */
  function DigitRun(s: string): (k: nat)
    ensures k <= |s| && AllDigits(s[..k])
    ensures k < |s| ==> !IsDigit(s[k])
  {
    if s != [] && IsDigit(s[0]) then
      var k := 1 + DigitRun(s[1..]);
      assert forall i :: 1 <= i < k ==> s[..k][i] == s[1..][..k - 1][i - 1];
      k
    else 0
  }

  lemma {:induction false} DigitRunOfDigits(digits: string, rest: string)
    requires AllDigits(digits)
    requires rest == [] || !IsDigit(rest[0])
    ensures DigitRun(digits + rest) == |digits|
    decreases |digits|
  {
    if digits == [] {
      assert digits + rest == rest;
    } else {
      assert (digits + rest)[1..] == digits[1..] + rest;
      assert (digits + rest)[0] == digits[0];
      DigitRunOfDigits(digits[1..], rest);
    }
  }
}
