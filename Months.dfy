/** Month keys, the strings the tracker groups records under:
    `` `${year}-${String(month).padStart(2, '0')}` ``, read back by
    `parseInt(key.split('-')[0])` and ordered by the default string sort. */
module Months {

  import opened Wrappers
  import opened Text
  import opened Drinks

  /** `String(year)`. */
  function YearText(y: int): string
  {
    if y < 0 then "-" + Digits(-y) else Digits(y)
  }

  /** `String(month).padStart(2, '0')`. */
  function MonthText(m: MonthNumber): string
  {
    var d := Digits(m);
    if |d| < 2 then "0" + d else d
  }

  /** The month key of a record's timestamp. */
  function MonthKey(t: Stamp): string
  {
    YearText(t.year) + "-" + MonthText(t.month)
  }

  /** `key.split('-')[0]`: everything before the first `-`. */
  function BeforeDash(s: string): (r: string)
    ensures r <= s
    ensures '-' !in r
    ensures |r| < |s| ==> s[|r|] == '-'
  {
    if s == [] || s[0] == '-' then [] else [s[0]] + BeforeDash(s[1..])
  }

  /** `parseInt(key.split('-')[0])`, `None` standing for `NaN`. */
  function KeyYear(key: string): Option<int>
  {
    ParseLeadingDigits(BeforeDash(key))
  }

  /** A month's two-digit text is its tens digit and its units digit. */
  lemma MonthTextDigits(m: MonthNumber)
    ensures MonthText(m) == [DigitChar(m / 10), DigitChar(m % 10)]
  {
    if m >= 10 {
      assert Digits(m) == Digits(m / 10) + [DigitChar(m % 10)];
    }
  }

  lemma {:induction false} BeforeDashConcat(a: string, b: string)
    requires '-' !in a
    ensures BeforeDash(a + "-" + b) == a
  {
    if a != [] {
      assert (a + "-" + b)[1..] == a[1..] + "-" + b;
      BeforeDashConcat(a[1..], b);
    }
  }

  lemma {:induction false} LeadingDigitsOfDigits(s: string)
    requires forall i :: 0 <= i < |s| ==> IsDigit(s[i])
    ensures LeadingDigitCount(s) == |s|
  {
    if s != [] {
      LeadingDigitsOfDigits(s[1..]);
    }
  }

  /** Reading the year back out of a month key gives the year for every
      year from 0 on; a negative year's key starts with `-`, so nothing
      precedes the first `-` and `parseInt` gives `NaN`. */
  lemma KeyYearOfMonthKey(t: Stamp)
    ensures t.year >= 0 ==> KeyYear(MonthKey(t)) == Some(t.year)
    ensures t.year < 0 ==> KeyYear(MonthKey(t)) == None
  {
    if t.year >= 0 {
      var y := Digits(t.year);
      assert '-' !in y;
      BeforeDashConcat(y, MonthText(t.month));
      LeadingDigitsOfDigits(y);
      DigitsRoundTrip(t.year);
      assert y[..|y|] == y;
    }
  }

  /** Month order is month-key order: for two-digit month texts the string
      order is the numeric order. */
  lemma MonthTextOrder(a: MonthNumber, b: MonthNumber)
    ensures StrLess(MonthText(a), MonthText(b)) <==> a < b
  {
    MonthTextDigits(a);
    MonthTextDigits(b);
    StrLessConcat([DigitChar(a / 10)], [DigitChar(a % 10)], [DigitChar(b / 10)], [DigitChar(b % 10)]);
    assert [DigitChar(a / 10), DigitChar(a % 10)] == [DigitChar(a / 10)] + [DigitChar(a % 10)];
    assert [DigitChar(b / 10), DigitChar(b % 10)] == [DigitChar(b / 10)] + [DigitChar(b % 10)];
  }

  /** For four-digit years, sorting month keys as strings sorts the months
      chronologically: key order is year order, then month order. */
  lemma MonthKeyChronological(a: Stamp, b: Stamp)
    requires 1000 <= a.year <= 9999 && 1000 <= b.year <= 9999
    ensures StrLess(MonthKey(a), MonthKey(b)) <==>
      a.year < b.year || (a.year == b.year && a.month < b.month)
  {
    var ya, yb := Digits(a.year), Digits(b.year);
    var ma, mb := MonthText(a.month), MonthText(b.month);
    FourDigits(a.year);
    FourDigits(b.year);
    assert MonthKey(a) == ya + ("-" + ma);
    assert MonthKey(b) == yb + ("-" + mb);
    StrLessConcat(ya, "-" + ma, yb, "-" + mb);
    DigitsOrder(a.year, b.year);
    DigitsInjective(a.year, b.year);
    StrLessConcat("-", ma, "-", mb);
    MonthTextOrder(a.month, b.month);
  }

  /** Different months of non-negative years have different keys. */
  lemma MonthKeyInjective(a: Stamp, b: Stamp)
    requires a.year >= 0 && b.year >= 0
    ensures MonthKey(a) == MonthKey(b) <==> a == b
  {
    if MonthKey(a) == MonthKey(b) {
      KeyYearOfMonthKey(a);
      KeyYearOfMonthKey(b);
      var ya := YearText(a.year);
      assert MonthKey(a)[|ya| + 1..] == MonthText(a.month);
      assert MonthKey(b)[|ya| + 1..] == MonthText(b.month);
      MonthTextOrder(a.month, b.month);
      MonthTextOrder(b.month, a.month);
      StrLessIrreflexive(MonthText(a.month));
    }
  }
}
