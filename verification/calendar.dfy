/**
 * Calendar dates as Python's `datetime.date` represents them: a proleptic
 * Gregorian day number (ordinal 1 is 0001-01-01) that must lie between
 * `date.min` and `date.max` (9999-12-31).  Moving a date outside that range
 * raises `OverflowError`; `AddDays` returns `None` there.  `IsoDate` is
 * `date.isoformat()`, and it is proved injective, so that file names and
 * URLs derived from a date identify the date.
 */
module Calendar {
  import opened Wrappers

  /** date.max.toordinal() */
  const MaxOrdinal: int := 3652059

  type Day = d: int | 1 <= d <= MaxOrdinal witness 1

  /** `d + timedelta(days = n)`, or None where Python raises OverflowError. */
  function AddDays(d: Day, n: int): (r: Option<Day>)
    ensures r.Some? <==> 1 <= d + n <= MaxOrdinal
    ensures r.Some? ==> r.value - d == n
  {
    if 1 <= d + n <= MaxOrdinal then Some(d + n) else None
  }

  // ---------------------------------------------------------------------
  // Civil (year, month, day) from an ordinal

  predicate IsLeap(y: int) {
    y % 4 == 0 && (y % 100 != 0 || y % 400 == 0)
  }

  function DaysInYear(y: int): int {
    if IsLeap(y) then 366 else 365
  }

  function DaysInMonth(y: int, m: int): int
    requires 1 <= m <= 12
  {
    if m == 2 then (if IsLeap(y) then 29 else 28)
    else if m == 4 || m == 6 || m == 9 || m == 11 then 30
    else 31
  }

  /** Days of year `y` that precede the first of month `m`. */
  function DaysBeforeMonth(y: int, m: int): int
    requires 1 <= m <= 12
  {
    var common :=
      if m == 1 then 0 else if m == 2 then 31 else if m == 3 then 59
      else if m == 4 then 90 else if m == 5 then 120 else if m == 6 then 151
      else if m == 7 then 181 else if m == 8 then 212 else if m == 9 then 243
      else if m == 10 then 273 else if m == 11 then 304 else 334;
    common + (if m > 2 && IsLeap(y) then 1 else 0)
  }

  lemma DaysBeforeNextMonth(y: int, m: int)
    requires 1 <= m < 12
    ensures DaysBeforeMonth(y, m + 1) == DaysBeforeMonth(y, m) + DaysInMonth(y, m)
  {
  }

  /** Days before 1 January of year `y`, counting from 1 January of year 1. */
  function DaysBeforeYear(y: int): int {
    var p := y - 1;
    365 * p + p / 4 - p / 100 + p / 400
  }

  lemma DaysBeforeNextYear(y: int)
    ensures DaysBeforeYear(y + 1) == DaysBeforeYear(y) + DaysInYear(y)
  {
    NextQuotient4(y);
    NextQuotient100(y);
    NextQuotient400(y);
  }

  lemma NextQuotient4(y: int)
    ensures y / 4 == (y - 1) / 4 + (if y % 4 == 0 then 1 else 0)
  {
  }

  lemma NextQuotient100(y: int)
    ensures y / 100 == (y - 1) / 100 + (if y % 100 == 0 then 1 else 0)
  {
  }

  lemma NextQuotient400(y: int)
    ensures y / 400 == (y - 1) / 400 + (if y % 400 == 0 then 1 else 0)
  {
  }

  datatype Civil = Civil(year: int, month: int, day: int)

  /** The date that is day `n` (counting from 1) of year `y`, from month `m` on. */
  function MonthDay(y: int, m: int, n: int): (c: Civil)
    requires 1 <= m <= 12
    requires 1 <= n <= DaysInYear(y) - DaysBeforeMonth(y, m)
    ensures c.year == y && m <= c.month <= 12
    ensures 1 <= c.day <= DaysInMonth(y, c.month)
    decreases 12 - m
  {
    if n <= DaysInMonth(y, m) then Civil(y, m, n)
    else
      DaysBeforeNextMonth(y, m);
      MonthDay(y, m + 1, n - DaysInMonth(y, m))
  }

  /** The date that is day `n` (counting from 1) counted from 1 January of year `y`. */
  function FromYear(y: int, n: int): (c: Civil)
    requires n >= 1
    ensures c.year >= y && 1 <= c.month <= 12
    ensures 1 <= c.day <= DaysInMonth(c.year, c.month)
    decreases n
  {
    if n > DaysInYear(y) then FromYear(y + 1, n - DaysInYear(y))
    else MonthDay(y, 1, n)
  }

  /** `date.fromordinal(d)` split into its fields: a valid civil date. */
  function ToCivil(d: Day): (c: Civil)
    ensures c.year >= 1 && 1 <= c.month <= 12 && 1 <= c.day <= 31
    ensures c.day <= DaysInMonth(c.year, c.month)
  {
    FromYear(1, d)
  }

  /** The ordinal of a civil date, as Python's `_ymd2ord` computes it. */
  function Ordinal(c: Civil): int
    requires 1 <= c.month <= 12
  {
    DaysBeforeYear(c.year) + DaysBeforeMonth(c.year, c.month) + c.day
  }

  lemma {:induction false} MonthDayOrdinal(y: int, m: int, n: int)
    requires 1 <= m <= 12
    requires 1 <= n <= DaysInYear(y) - DaysBeforeMonth(y, m)
    ensures DaysBeforeMonth(y, MonthDay(y, m, n).month) + MonthDay(y, m, n).day == DaysBeforeMonth(y, m) + n
    decreases 12 - m
  {
    if n > DaysInMonth(y, m) {
      DaysBeforeNextMonth(y, m);
      MonthDayOrdinal(y, m + 1, n - DaysInMonth(y, m));
    }
  }

  lemma {:induction false} FromYearOrdinal(y: int, n: int)
    requires n >= 1
    ensures Ordinal(FromYear(y, n)) == DaysBeforeYear(y) + n
    decreases n
  {
    if n > DaysInYear(y) {
      DaysBeforeNextYear(y);
      FromYearOrdinal(y + 1, n - DaysInYear(y));
    } else {
      MonthDayOrdinal(y, 1, n);
    }
  }

  /** `date.fromordinal` and `_ymd2ord` are inverse: the civil date maps back to its ordinal. */
  lemma ToCivilOrdinal(d: Day)
    ensures Ordinal(ToCivil(d)) == d
  {
    FromYearOrdinal(1, d);
  }

  /** Different ordinals are different civil dates. */
  lemma ToCivilInjective(a: Day, b: Day)
    requires ToCivil(a) == ToCivil(b)
    ensures a == b
  {
    ToCivilOrdinal(a);
    ToCivilOrdinal(b);
  }

  // ---------------------------------------------------------------------
  // Decimal rendering, as Python's "%d", "%02d" and "%04d" do it

  predicate IsDigit(c: char) {
    '0' <= c <= '9'
  }

  predicate AllDigits(s: string) {
    forall i :: 0 <= i < |s| ==> IsDigit(s[i])
  }

  function DigitChar(n: int): (c: char)
    requires 0 <= n < 10
    ensures IsDigit(c)
  {
    ((n + '0' as int) as char)
  }

  /** The decimal digits of `n`, without leading zeros. */
  function Digits(n: nat): (s: string)
    ensures 1 <= |s| && AllDigits(s)
  {
    if n < 10 then [DigitChar(n)] else Digits(n / 10) + [DigitChar(n % 10)]
  }

  /** `s` with zeros prepended until it is at least `width` long. */
  function ZeroPad(s: string, width: nat): (r: string)
    ensures |r| == if |s| >= width then |s| else width
    ensures AllDigits(s) ==> AllDigits(r)
    decreases width - |s|
  {
    if |s| >= width then s else ZeroPad(['0'] + s, width)
  }

  /** The number a string of decimal digits denotes (leading zeros allowed). */
  function Value(s: string): nat
    requires AllDigits(s)
  {
    if s == [] then 0 else Value(s[..|s| - 1]) * 10 + (s[|s| - 1] as int - '0' as int)
  }

  lemma {:induction false} ValueOfDigits(n: nat)
    ensures Value(Digits(n)) == n
  {
    if n >= 10 {
      var s := Digits(n);
      assert s[..|s| - 1] == Digits(n / 10);
      ValueOfDigits(n / 10);
    }
  }

  lemma {:induction false} LeadingZero(s: string)
    requires AllDigits(s)
    ensures AllDigits(['0'] + s) && Value(['0'] + s) == Value(s)
    decreases |s|
  {
    var t := ['0'] + s;
    if s != [] {
      assert t[..|t| - 1] == ['0'] + s[..|s| - 1];
      LeadingZero(s[..|s| - 1]);
    }
  }

  lemma {:induction false} ValueOfZeroPad(s: string, width: nat)
    requires AllDigits(s)
    ensures Value(ZeroPad(s, width)) == Value(s)
    decreases width - |s|
  {
    if |s| < width {
      LeadingZero(s);
      ValueOfZeroPad(['0'] + s, width);
    }
  }

  /** Rendering a number zero-padded to a width loses nothing. */
  lemma PaddedNumberInjective(a: nat, b: nat, width: nat)
    requires ZeroPad(Digits(a), width) == ZeroPad(Digits(b), width)
    ensures a == b
  {
    ValueOfZeroPad(Digits(a), width);
    ValueOfZeroPad(Digits(b), width);
    ValueOfDigits(a);
    ValueOfDigits(b);
  }

  lemma TwoDigitsWide(n: nat)
    requires n < 100
    ensures |ZeroPad(Digits(n), 2)| == 2
  {
    if n >= 10 {
      assert |Digits(n / 10)| == 1;
    }
  }

  /** Numbers below 10, 100, 1000 and 10000 have at most 1, 2, 3 and 4 digits. */
  lemma {:induction false} FewDigits(n: nat)
    ensures n < 10 ==> |Digits(n)| == 1
    ensures n < 100 ==> |Digits(n)| <= 2
    ensures n < 1000 ==> |Digits(n)| <= 3
    ensures n < 10000 ==> |Digits(n)| <= 4
  {
    if n >= 10 {
      FewDigits(n / 10);
    }
  }

  /** No year from 10000 on starts before `date.max`. */
  lemma LateYear(y: int)
    requires y >= 10000
    ensures DaysBeforeYear(y) >= MaxOrdinal
  {
  }

  /** Every date up to `date.max` lies in a year of at most four digits. */
  lemma YearBound(d: Day)
    ensures ToCivil(d).year <= 9999
  {
    var c := ToCivil(d);
    ToCivilOrdinal(d);
    if c.year >= 10000 {
      LateYear(c.year);
      assert false;
    }
  }

  // ---------------------------------------------------------------------
  // ISO 8601 rendering

  /** `date.isoformat()`: "%04d-%02d-%02d" of year, month and day. */
  function IsoDate(d: Day): (s: string)
    ensures |s| >= 10
    ensures forall i :: 0 <= i < |s| ==> IsDigit(s[i]) || s[i] == '-'
  {
    var c := ToCivil(d);
    TwoDigitsWide(c.month);
    TwoDigitsWide(c.day);
    ZeroPad(Digits(c.year), 4) + "-" + ZeroPad(Digits(c.month), 2) + "-" + ZeroPad(Digits(c.day), 2)
  }

  /**
   * The ISO rendering is "YYYY-MM-DD": four digits spelling the year, a dash,
   * two digits spelling the month, a dash and two digits spelling the day.
   */
  lemma IsoDateValues(d: Day)
    ensures var s, c := IsoDate(d), ToCivil(d);
            && |s| == 10 && s[4] == '-' && s[7] == '-'
            && AllDigits(s[..4]) && AllDigits(s[5..7]) && AllDigits(s[8..])
            && Value(s[..4]) == c.year && Value(s[5..7]) == c.month && Value(s[8..]) == c.day
  {
    var s, c := IsoDate(d), ToCivil(d);
    YearBound(d);
    FewDigits(c.year);
    TwoDigitsWide(c.month);
    TwoDigitsWide(c.day);
    var y, m, dd := ZeroPad(Digits(c.year), 4), ZeroPad(Digits(c.month), 2), ZeroPad(Digits(c.day), 2);
    assert s == y + "-" + m + "-" + dd;
    assert s[..4] == y && s[5..7] == m && s[8..] == dd;
    ValueOfZeroPad(Digits(c.year), 4);
    ValueOfZeroPad(Digits(c.month), 2);
    ValueOfZeroPad(Digits(c.day), 2);
    ValueOfDigits(c.year);
    ValueOfDigits(c.month);
    ValueOfDigits(c.day);
  }

  /** Two different dates never share an ISO rendering. */
  lemma IsoDateInjective(a: Day, b: Day)
    requires IsoDate(a) == IsoDate(b)
    ensures a == b
  {
    IsoDateFields(a, b);
    ToCivilInjective(a, b);
  }

  /** The ISO rendering determines the year, the month and the day. */
  lemma IsoDateFields(a: Day, b: Day)
    requires IsoDate(a) == IsoDate(b)
    ensures ToCivil(a) == ToCivil(b)
  {
    var ca, cb := ToCivil(a), ToCivil(b);
    var ya, yb := ZeroPad(Digits(ca.year), 4), ZeroPad(Digits(cb.year), 4);
    var ma, mb := ZeroPad(Digits(ca.month), 2), ZeroPad(Digits(cb.month), 2);
    var da, db := ZeroPad(Digits(ca.day), 2), ZeroPad(Digits(cb.day), 2);
    TwoDigitsWide(ca.month);
    TwoDigitsWide(ca.day);
    TwoDigitsWide(cb.month);
    TwoDigitsWide(cb.day);
    var s := IsoDate(a);
    assert s == ya + "-" + ma + "-" + da;
    assert s == yb + "-" + mb + "-" + db;
    assert |ya| == |yb|;
    var n := |ya|;
    assert ya == s[..n] == yb;
    assert ma == s[n + 1..n + 3] == mb;
    assert da == s[n + 4..] == db;
    PaddedNumberInjective(ca.year, cb.year, 4);
    PaddedNumberInjective(ca.month, cb.month, 2);
    PaddedNumberInjective(ca.day, cb.day, 2);
  }
}
