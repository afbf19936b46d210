/**
 * Durations between two month-precision dates (`parseLooseDate`,
 * `calcDuration`): `"YYYY-MM"` strings, `"present"`, and a natural-language
 * fallback, then the month difference rendered as years and months.
 *
 * Dates are `(year, month)` pairs with the month counted from 0, as
 * `getFullYear()` and `getMonth()` report them. The current date and the
 * natural-language parser `new Date(s)` are parameters: `natural(s)` is
 * `None` when that parse is invalid.
 */
module Duration {
  import opened Wrappers
  import opened Strings
  import opened Decimal
  import opened Seqs

  datatype YearMonth = YearMonth(year: int, month: int)

  predicate ValidMonth(d: YearMonth) {
    0 <= d.month < 12
  }

  /** `new Date(y, m, 1)`: two-digit years mean 19xx, and months outside 0..11 roll into the year. */
  function MakeMonthDate(y: int, m: int): (d: YearMonth)
    ensures ValidMonth(d)
    ensures d.year * 12 + d.month == (if 0 <= y <= 99 then 1900 + y else y) * 12 + m
  {
    var fullYear := if 0 <= y <= 99 then 1900 + y else y;
    YearMonth(fullYear + m / 12, m % 12)
  }

  /** `/^(\d{4})-(\d{2})$/`: four digits, a dash, two digits, nothing else. */
  predicate IsYearMonthForm(s: string) {
    |s| == 7 && AllDigits(s[..4]) && s[4] == '-' && AllDigits(s[5..])
  }

  /** `!s || s.toLowerCase() === "present"`. */
  predicate MeansNow(s: string) {
    s == "" || ToLower(s) == "present"
  }

  /**
   * `parseLooseDate`: now, a `YYYY-MM` month, the natural parse, or now again.
   * `now` and `natural` stand for `new Date()` and `new Date(s)`; their months
   * are not required to lie in 0..11, as `getMonth()` would give, because only
   * differences of absolute month numbers are taken from the result.
   */
  function ParseLooseDate(s: string, now: YearMonth, natural: string -> Option<YearMonth>): (d: YearMonth)
    ensures MeansNow(s) ==> d == now
    ensures !MeansNow(s) && IsYearMonthForm(s) ==>
      d == MakeMonthDate(ParseDigits(s[..4]), ParseDigits(s[5..]) - 1)
    ensures !MeansNow(s) && !IsYearMonthForm(s) ==> d == natural(s).GetOr(now)
  {
    if MeansNow(s) then now
    else if IsYearMonthForm(s) then MakeMonthDate(ParseDigits(s[..4]), ParseDigits(s[5..]) - 1)
    else match natural(s)
      case Some(d) => d
      case None => now
  }

  /** The two-digit month field of a `YYYY-MM` string. */
  function TwoDigits(n: nat): (r: string)
    requires n < 100
    ensures |r| == 2 && AllDigits(r) && ParseDigits(r) == n
  {
    var r := [DigitChar(n / 10), DigitChar(n % 10)];
    assert r[..1] == [DigitChar(n / 10)] && r[..1][..0] == [];
    assert DigitValue(r[0]) == n / 10 && DigitValue(r[1]) == n % 10;
    assert ParseDigits(r[..1]) == n / 10;
    r
  }

  /** A four-digit year written as `YYYY-MM` reads back as that year and month. */
  lemma ParseYearMonth(y: nat, m: nat, now: YearMonth, natural: string -> Option<YearMonth>)
    requires 1000 <= y <= 9999 && 1 <= m <= 12
    ensures !MeansNow(NatToString(y) + "-" + TwoDigits(m))
    ensures ParseLooseDate(NatToString(y) + "-" + TwoDigits(m), now, natural) == YearMonth(y, m - 1)
  {
    var s := NatToString(y) + "-" + TwoDigits(m);
    YearMonthFields(y, m);
    StartsWithDigit(s);
    assert MakeMonthDate(y, m - 1) == YearMonth(y, m - 1);
  }

  lemma YearMonthFields(y: nat, m: nat)
    requires 1000 <= y <= 9999 && 1 <= m <= 12
    ensures var s := NatToString(y) + "-" + TwoDigits(m);
      && IsYearMonthForm(s) && ParseDigits(s[..4]) == y && ParseDigits(s[5..]) == m && IsDigit(s[0])
  {
    var ys := NatToString(y);
    FourDigits(y);
    var s := ys + "-" + TwoDigits(m);
    assert s[..4] == ys && s[5..] == TwoDigits(m) && s[4] == '-' && s[0] == ys[0];
    ParseNatToString(y);
  }

  /** A string that starts with a digit is neither empty nor `"present"` in any case. */
  lemma StartsWithDigit(s: string)
    requires s != [] && IsDigit(s[0])
    ensures !MeansNow(s)
  {
    assert ToLower(s)[0] == s[0] != "present"[0];
  }

  lemma FourDigits(y: nat)
    requires 1000 <= y <= 9999
    ensures |NatToString(y)| == 4
  {
    assert NatToString(y) == NatToString(y / 10) + [DigitChar(y % 10)];
    assert NatToString(y / 10) == NatToString(y / 100) + [DigitChar((y / 10) % 10)];
    assert NatToString(y / 100) == NatToString(y / 1000) + [DigitChar((y / 100) % 10)];
  }

  /** `(e.getFullYear() - s.getFullYear()) * 12 + (e.getMonth() - s.getMonth())`. */
  function MonthsBetween(s: YearMonth, e: YearMonth): (months: int)
    ensures months == (e.year * 12 + e.month) - (s.year * 12 + s.month)
  {
    (e.year - s.year) * 12 + (e.month - s.month)
  }

  /** The unit after a year count: plural only above one year. */
  function YearUnit(years: nat): string {
    if years > 1 then " yrs" else " yr"
  }

  /** The duration label: `"<y> yr[s] <rem> mo"`, `"<y> yr[s]"`, `"<rem> mo"`, or `"0 mo"`. */
  function FormatDuration(months: int): (r: string)
    ensures months <= 0 ==> r == "0 mo"
  {
    if months <= 0 then "0 mo" else Label(months / 12, months % 12)
  }

  /** A positive duration's label reads back as its month count, so no two durations share a label. */
  lemma FormatReadsBack(months: int)
    requires months > 0
    ensures ReadDuration(FormatDuration(months)) == Some(months)
  {
    var years, rem := months / 12, months % 12;
    assert 12 * years + rem == months;
    assert FormatDuration(months) == Label(years, rem);
    ReadFormatted(years, rem);
  }

  /** The label of a positive duration of `years` years and `rem` months. */
  function Label(years: nat, rem: nat): string {
    if years > 0 && rem > 0 then NatToString(years) + YearUnit(years) + (" " + (NatToString(rem) + " mo"))
    else if years > 0 then NatToString(years) + YearUnit(years)
    else NatToString(rem) + " mo"
  }

  /** Reads `"<rem> mo"` with `0 < rem < 12`, written without a leading zero. */
  function ReadMonthCount(t: string): Option<nat> {
    var k := DigitRun(t);
    if k > 0 && t[0] != '0' && t[k..] == " mo" && 0 < ParseDigits(t[..k]) < 12 then Some(ParseDigits(t[..k])) else None
  }

  /**
   * Reads a duration label back into months. It accepts only the canonical
   * shapes: counts written in decimal without a leading zero, a year count
   * followed by `" yr"` exactly when it is 1, a month count below 12 and never
   * pluralised, and at least one non-zero part.
   */
  function ReadDuration(s: string): Option<int> {
    if ReadMonthCount(s).Some? then Some(ReadMonthCount(s).value) else ReadYearCount(s)
  }

  /** A year count and its unit, then nothing or a space and a month count. */
  function ReadYearCount(s: string): Option<int> {
    var k := DigitRun(s);
    var n := ParseDigits(s[..k]);
    if k > 0 && s[0] != '0' && n > 0 && StartsWith(s[k..], YearUnit(n)) then ReadAfterYears(n, s[k..][|YearUnit(n)|..])
    else None
  }

  function ReadAfterYears(years: nat, after: string): Option<int> {
    if after == "" then Some(12 * years)
    else if after[0] == ' ' && ReadMonthCount(after[1..]).Some? then Some(12 * years + ReadMonthCount(after[1..]).value)
    else None
  }

  /** A padded count is not a label: `"01 yr"` and `"02 mo"` are rejected. */
  lemma PaddedCountsRejected()
    ensures ReadDuration("01 yr").None?
    ensures ReadDuration("02 mo").None?
  {
    assert ReadMonthCount("01 yr").None?;
  }

  /** Every label the formatter builds reads back as its month count. */
  lemma ReadFormatted(years: nat, rem: nat)
    requires rem < 12 && (years > 0 || rem > 0)
    ensures ReadDuration(Label(years, rem)) == Some(12 * years + rem)
  {
    if years > 0 && rem > 0 {
      LabelYearsAndMonths(years, rem);
    } else if years > 0 {
      assert rem == 0 && 12 * years + rem == 12 * years;
      LabelYears(years);
    } else {
      assert years == 0 && 12 * years + rem == rem;
      LabelMonths(rem);
    }
  }

  lemma LabelYearsAndMonths(years: nat, rem: nat)
    requires years > 0 && 0 < rem < 12
    ensures ReadDuration(Label(years, rem)) == Some(12 * years + rem)
  {
    ReadYearsAndMonths(years, rem);
  }

  lemma LabelYears(years: nat)
    requires years > 0
    ensures ReadDuration(Label(years, 0)) == Some(12 * years)
  {
    ReadYears(years, "");
    assert NatToString(years) + YearUnit(years) + "" == NatToString(years) + YearUnit(years);
  }

  lemma LabelMonths(rem: nat)
    requires 0 < rem < 12
    ensures ReadDuration(Label(0, rem)) == Some(rem)
  {
    ReadMonths(rem);
  }

  lemma ReadMonths(rem: nat)
    requires 0 < rem < 12
    ensures ReadMonthCount(NatToString(rem) + " mo") == Some(rem)
    ensures ReadDuration(NatToString(rem) + " mo") == Some(rem)
  {
    var rs := NatToString(rem);
    var s := rs + " mo";
    ParseNatToString(rem);
    DigitRunOfDigits(rs, " mo");
    assert s[..|rs|] == rs && s[|rs|..] == " mo";
    assert s[0] == rs[0] != '0';
  }

  /** A label starting with a year count and its unit reads as those years plus what follows. */
  lemma ReadYears(years: nat, after: string)
    requires years > 0 && (after == "" || after[0] == ' ')
    ensures ReadDuration(NatToString(years) + YearUnit(years) + after) == ReadAfterYears(years, after)
  {
    var s := NatToString(years) + YearUnit(years) + after;
    var k := |NatToString(years)|;
    YearsPrefix(years, after);
    assert s[k..][..3] == " yr";
    NotMonthCount(s, k);
    assert s[k..][|YearUnit(years)|..] == after;
  }

  /** The digits of the year count come first, then its unit and the rest. */
  lemma YearsPrefix(years: nat, after: string)
    requires years > 0
    ensures var s := NatToString(years) + YearUnit(years) + after; var k := |NatToString(years)|;
      DigitRun(s) == k && AllDigits(s[..k]) && ParseDigits(s[..k]) == years && s[k..] == YearUnit(years) + after && s[0] != '0'
  {
    var ys := NatToString(years);
    var tail := YearUnit(years) + after;
    var s := ys + tail;
    assert s == NatToString(years) + YearUnit(years) + after;
    ParseNatToString(years);
    DigitRunOfDigits(ys, tail);
    assert s[..|ys|] == ys && s[|ys|..] == tail;
    assert s[0] == ys[0] != '0';
  }

  lemma NotMonthCount(s: string, k: nat)
    requires DigitRun(s) == k && k + 3 <= |s| && s[k..][..3] == " yr"
    ensures ReadMonthCount(s).None?
  {
    assert s[k..] != " mo" by {
      assert s[k..][1] == s[k..][..3][1] == 'y';
    }
  }

  lemma ReadYearsAndMonths(years: nat, rem: nat)
    requires years > 0 && 0 < rem < 12
    ensures ReadDuration(NatToString(years) + YearUnit(years) + (" " + (NatToString(rem) + " mo"))) == Some(12 * years + rem)
  {
    var t := NatToString(rem) + " mo";
    ReadMonths(rem);
    ReadYears(years, " " + t);
    AfterYearsMonths(years, t, rem);
  }

  lemma AfterYearsMonths(years: nat, t: string, rem: nat)
    requires ReadMonthCount(t) == Some(rem)
    ensures ReadAfterYears(years, " " + t) == Some(12 * years + rem)
  {
    assert (" " + t)[1..] == t;
  }

  /** A month count the reader accepts is written as the formatter writes it. */
  lemma MonthCountCanonical(t: string)
    requires ReadMonthCount(t).Some?
    ensures t == NatToString(ReadMonthCount(t).value) + " mo"
  {
    var k := DigitRun(t);
    CanonicalDigits(t[..k]);
    assert t == t[..k] + t[k..];
  }

  /**
   * The converse of `FormatReadsBack`: a string the reader accepts is the
   * label of the positive count it reads as, so the label is the only
   * writing of a duration.
   */
  lemma OnlyLabelsRead(s: string)
    requires ReadDuration(s).Some?
    ensures ReadDuration(s).value > 0 && s == FormatDuration(ReadDuration(s).value)
  {
    if ReadMonthCount(s).Some? {
      MonthsOnlyLabel(s);
    } else {
      YearsOnlyLabel(s);
    }
  }

  lemma MonthsOnlyLabel(s: string)
    requires ReadMonthCount(s).Some?
    ensures ReadMonthCount(s).value > 0 && s == FormatDuration(ReadMonthCount(s).value)
  {
    var rem := ReadMonthCount(s).value;
    MonthCountCanonical(s);
    assert rem / 12 == 0 && rem % 12 == rem;
    assert FormatDuration(rem) == Label(0, rem);
  }

  lemma YearsOnlyLabel(s: string)
    requires ReadYearCount(s).Some?
    ensures ReadYearCount(s).value > 0 && s == FormatDuration(ReadYearCount(s).value)
  {
    var years, after := YearsSplit(s);
    if after == "" {
      YearsLabel(years);
    } else {
      AfterOnlyLabel(years, after);
    }
  }

  /** A label the year reader accepts is the canonical year count, its unit, and the rest. */
  lemma YearsSplit(s: string) returns (years: nat, after: string)
    requires ReadYearCount(s).Some?
    ensures years > 0 && s == NatToString(years) + YearUnit(years) + after
    ensures ReadYearCount(s) == ReadAfterYears(years, after)
  {
    var digits;
    digits, years, after := YearsFields(s);
    CanonicalDigits(digits);
  }

  lemma {:induction false} YearsFields(s: string) returns (digits: string, years: nat, after: string)
    requires ReadYearCount(s).Some?
    ensures digits != [] && AllDigits(digits) && digits[0] != '0' && years == ParseDigits(digits) > 0
    ensures s == digits + YearUnit(years) + after
    ensures ReadYearCount(s) == ReadAfterYears(years, after)
  {
    var k := DigitRun(s);
    digits := s[..k];
    years := ParseDigits(digits);
    var rest := s[k..];
    YearGuard(s, k, digits, years, rest);
    var unit := YearUnit(years);
    after := rest[|unit|..];
    PrefixRest(rest, unit);
    assert s == digits + rest;
    Associative(digits, unit, after);
  }

  lemma {:induction false} YearGuard(s: string, k: nat, digits: string, years: nat, rest: string)
    requires ReadYearCount(s).Some?
    requires k == DigitRun(s) && digits == s[..k] && rest == s[k..] && AllDigits(digits) && years == ParseDigits(digits)
    ensures k > 0 && digits[0] != '0' && years > 0 && StartsWith(rest, YearUnit(years))
    ensures ReadYearCount(s) == ReadAfterYears(years, rest[|YearUnit(years)|..])
  {
  }

  lemma PrefixRest(rest: string, unit: string)
    requires StartsWith(rest, unit)
    ensures rest == unit + rest[|unit|..]
  {
    assert rest == rest[..|unit|] + rest[|unit|..];
  }

  lemma {:induction false} AfterOnlyLabel(years: nat, after: string)
    requires years > 0 && after != "" && ReadAfterYears(years, after).Some?
    ensures ReadAfterYears(years, after).value > 0
    ensures NatToString(years) + YearUnit(years) + after == FormatDuration(ReadAfterYears(years, after).value)
  {
    var t := after[1..];
    var rem := ReadMonthCount(t).value;
    assert ReadAfterYears(years, after) == Some(12 * years + rem);
    MonthCountCanonical(t);
    assert after == " " + t == " " + (NatToString(rem) + " mo");
    YearsMonthsLabel(years, rem);
  }

  lemma YearsLabel(years: nat)
    requires years > 0
    ensures FormatDuration(12 * years) == NatToString(years) + YearUnit(years)
  {
    assert (12 * years) / 12 == years && (12 * years) % 12 == 0;
  }

  lemma YearsMonthsLabel(years: nat, rem: nat)
    requires years > 0 && 0 < rem < 12
    ensures FormatDuration(12 * years + rem) == NatToString(years) + YearUnit(years) + (" " + (NatToString(rem) + " mo"))
  {
    assert (12 * years + rem) / 12 == years && (12 * years + rem) % 12 == rem;
  }

  /** `calcDuration`: an empty or `"present"` end is now. */
  function CalcDuration(start: string, end: string, now: YearMonth, natural: string -> Option<YearMonth>): (r: string)
    ensures MeansNow(end) ==> r == FormatDuration(MonthsBetween(ParseLooseDate(start, now, natural), now))
  {
    var s := ParseLooseDate(start, now, natural);
    var e := if !MeansNow(end) then ParseLooseDate(end, now, natural) else now;
    FormatDuration(MonthsBetween(s, e))
  }

  /** Taking `"present"` as now in `calcDuration` agrees with what `parseLooseDate` does with it. */
  lemma EndIsParsed(start: string, end: string, now: YearMonth, natural: string -> Option<YearMonth>)
    ensures CalcDuration(start, end, now, natural)
      == FormatDuration(MonthsBetween(ParseLooseDate(start, now, natural), ParseLooseDate(end, now, natural)))
  {
  }

  /** From January 2023 to March 2024 is "1 yr 2 mo". */
  lemma ExampleDuration(now: YearMonth, natural: string -> Option<YearMonth>)
    ensures CalcDuration("2023-01", "2024-03", now, natural) == "1 yr 2 mo"
  {
    MonthText(2023, 1, "2023-01");
    MonthText(2024, 3, "2024-03");
    ParseYearMonth(2023, 1, now, natural);
    ParseYearMonth(2024, 3, now, natural);
    FourteenMonths();
  }

  lemma MonthText(y: nat, m: nat, s: string)
    requires 1000 <= y <= 9999 && 1 <= m <= 9
    requires |s| == 7 && s[4] == '-' && s[5] == '0' && s[6] == DigitChar(m) && s[..4] == NatToString(y)
    ensures s == NatToString(y) + "-" + TwoDigits(m)
  {
    FourDigits(y);
  }

  lemma FourteenMonths()
    ensures FormatDuration(14) == "1 yr 2 mo"
  {
    assert 14 / 12 == 1 && 14 % 12 == 2;
    assert FormatDuration(14) == Label(1, 2);
    OneYearTwoMonths();
  }

  lemma OneYearTwoMonths()
    ensures Label(1, 2) == "1 yr 2 mo"
  {
    assert NatToString(1) == "1" && NatToString(2) == "2";
    assert YearUnit(1) == " yr";
    assert "1" + " yr" + (" " + ("2" + " mo")) == "1 yr 2 mo";
  }
}
