/**
 * Calendar arithmetic behind the monthly partitions of sensor_readings.
 *
 * A month is identified by its month index, year * 12 + (month - 1), so that
 * consecutive calendar months have consecutive indices.  Instants are
 * `timestamp(0) without time zone` values: whole seconds counted from
 * 1970-01-01 00:00:00 in the proleptic Gregorian calendar.
 */
module Calendar {

  const SecondsPerDay := 86400

  function YearOf(m: int): int { m / 12 }

  function MonthOfYear(m: int): (mo: int)
    ensures 1 <= mo <= 12
  {
    m % 12 + 1
  }

  function MonthIndex(year: int, month: int): (m: int)
    requires 1 <= month <= 12
    ensures YearOf(m) == year && MonthOfYear(m) == month
  {
    year * 12 + month - 1
  }

  predicate IsLeapYear(y: int) {
    y % 4 == 0 && (y % 100 != 0 || y % 400 == 0)
  }

  /** Number of days of month m. */
  function DaysIn(m: int): (d: int)
    ensures 28 <= d <= 31
  {
    var mo := MonthOfYear(m);
    if mo == 2 then (if IsLeapYear(YearOf(m)) then 29 else 28)
    else if mo == 4 || mo == 6 || mo == 9 || mo == 11 then 30
    else 31
  }

  /** The month of 1970-01-01 00:00:00, instant 0. */
  const EpochMonth := 1970 * 12

  /**
   * The first instant (00:00:00 on day 1) of month m, in seconds since
   * 1970-01-01 00:00:00: month lengths summed from January 1970 forwards or backwards.
   */
  function MonthStart(m: int): int
    decreases if m < EpochMonth then EpochMonth - m else m - EpochMonth
  {
    if m == EpochMonth then 0
    else if m > EpochMonth then MonthStart(m - 1) + SecondsPerDay * DaysIn(m - 1)
    else MonthStart(m + 1) - SecondsPerDay * DaysIn(m)
  }

  /** Consecutive month starts are exactly one month length apart. */
  lemma MonthStartStep(m: int)
    ensures MonthStart(m + 1) == MonthStart(m) + SecondsPerDay * DaysIn(m)
  {
  }

  /** Month starts are strictly increasing. */
  lemma {:induction false} MonthStartMonotone(a: int, b: int)
    requires a < b
    ensures MonthStart(a) < MonthStart(b)
    decreases b - a
  {
    MonthStartStep(a);
    if a + 1 < b {
      MonthStartMonotone(a + 1, b);
    }
  }

  /** Comparing two month starts is comparing the months. */
  lemma MonthStartOrder(a: int, b: int)
    ensures MonthStart(a) < MonthStart(b) <==> a < b
    ensures MonthStart(a) <= MonthStart(b) <==> a <= b
  {
    if a < b {
      MonthStartMonotone(a, b);
    } else if b < a {
      MonthStartMonotone(b, a);
    }
  }

  /** Every instant lies in exactly one month: between lo's start and hi's start there is a month that holds it. */
  lemma {:induction false} MonthContaining(t: int, lo: int, hi: int) returns (m: int)
    requires MonthStart(lo) <= t < MonthStart(hi)
    ensures lo <= m < hi && MonthStart(m) <= t < MonthStart(m + 1)
    decreases hi - lo
  {
    MonthStartOrder(lo, hi);
    if t < MonthStart(lo + 1) {
      m := lo;
    } else {
      m := MonthContaining(t, lo + 1, hi);
    }
  }

  /** A calendar date as Carbon holds it, reduced to what the partition names and bounds read: its month and day. */
  datatype Date = Date(month: int, day: int)

  predicate ValidDate(d: Date) {
    1 <= d.day <= DaysIn(d.month)
  }

  /**
   * Carbon's addMonths(n) with month overflow, Carbon's default: the day is kept,
   * and a day past the end of the target month rolls over into the month after
   * (January 31 plus one month is March 3, or March 2 in a leap year).
   * Carbon's subYear() is AddMonths(d, -12) by the same rule (February 29 minus a year is March 1).
   */
  function AddMonths(d: Date, n: int): (r: Date)
    requires ValidDate(d)
    ensures ValidDate(r)
    ensures r.month == d.month + n <==> d.day <= DaysIn(d.month + n)
    ensures r.month == d.month + n || r.month == d.month + n + 1
    ensures d.day <= DaysIn(d.month + n) ==> r == Date(d.month + n, d.day)
    ensures d.day > DaysIn(d.month + n) ==> r == Date(d.month + n + 1, d.day - DaysIn(d.month + n))
    ensures d.day <= 28 ==> r == Date(d.month + n, d.day)
  {
    var target := d.month + n;
    if d.day <= DaysIn(target) then Date(target, d.day)
    else Date(target + 1, d.day - DaysIn(target))
  }

  function Digit(n: int): char
    requires 0 <= n <= 9
  {
    (48 + n) as char
  }

  predicate IsDigit(c: char) {
    '0' <= c <= '9'
  }

  /** The decimal digits of n, with leading zeros up to w digits (PHP's zero-padded formats). */
  function Padded(n: nat, w: nat): string
    decreases n + w
  {
    if n < 10 && w <= 1 then [Digit(n)]
    else Padded(n / 10, if w > 0 then w - 1 else 0) + [Digit(n % 10)]
  }

  /** The number a string of decimal digits spells. */
  function DigitsValue(s: string): int {
    if s == [] then 0 else 10 * DigitsValue(s[..|s| - 1]) + (s[|s| - 1] as int - 48)
  }

  /** Padded text consists of digits and spells n back. */
  lemma {:induction false} PaddedValue(n: nat, w: nat)
    ensures |Padded(n, w)| > 0 && forall i :: 0 <= i < |Padded(n, w)| ==> IsDigit(Padded(n, w)[i])
    ensures DigitsValue(Padded(n, w)) == n
    decreases n + w
  {
    if !(n < 10 && w <= 1) {
      var p := Padded(n / 10, if w > 0 then w - 1 else 0);
      PaddedValue(n / 10, if w > 0 then w - 1 else 0);
      assert (p + [Digit(n % 10)])[..|p|] == p;
    }
  }

  /** Equal zero-padded texts stand for equal numbers. */
  lemma PaddedInjective(a: nat, b: nat, w: nat, w': nat)
    requires Padded(a, w) == Padded(b, w')
    ensures a == b
  {
    PaddedValue(a, w);
    PaddedValue(b, w');
  }

  /** Months 1..12 take exactly two characters. */
  lemma PaddedMonthLength(mo: int)
    requires 1 <= mo <= 12
    ensures |Padded(mo, 2)| == 2
  {
    if mo < 10 {
      assert Padded(mo, 2) == Padded(0, 1) + [Digit(mo)];
    } else {
      assert Padded(mo, 2) == Padded(1, 1) + [Digit(mo % 10)];
    }
  }

  /** PHP date format character 'Y': at least four digits, '-' before years before year 0. */
  function YearText(y: int): string {
    if y < 0 then "-" + Padded(-y, 4) else Padded(y, 4)
  }

  /** PHP date format 'Y_m' of any date in month m: the year, an underscore, the two-digit month. */
  function FormatYm(m: int): string {
    YearText(YearOf(m)) + "_" + Padded(MonthOfYear(m), 2)
  }

  /** The year text opens with '-' exactly for years before year 0. */
  lemma YearTextSign(y: int)
    ensures |YearText(y)| > 0 && (YearText(y)[0] == '-' <==> y < 0)
  {
    if y >= 0 {
      PaddedValue(y, 4);
      assert IsDigit(YearText(y)[0]);
    }
  }

  lemma YearTextInjective(a: int, b: int)
    requires YearText(a) == YearText(b)
    ensures a == b
  {
    YearTextSign(a);
    YearTextSign(b);
    assert (a < 0) == (b < 0);
    if a < 0 {
      assert YearText(a)[1..] == Padded(-a, 4);
      assert YearText(b)[1..] == Padded(-b, 4);
      PaddedInjective(-a, -b, 4, 4);
    } else {
      PaddedInjective(a, b, 4, 4);
    }
  }

  /** The 'Y_m' text determines the month. */
  lemma FormatYmInjective(a: int, b: int)
    ensures FormatYm(a) == FormatYm(b) <==> a == b
  {
    if FormatYm(a) == FormatYm(b) {
      var ya, yb := YearText(YearOf(a)), YearText(YearOf(b));
      var ma, mb := Padded(MonthOfYear(a), 2), Padded(MonthOfYear(b), 2);
      PaddedMonthLength(MonthOfYear(a));
      PaddedMonthLength(MonthOfYear(b));
      assert FormatYm(a) == ya + "_" + ma;
      assert FormatYm(b) == yb + "_" + mb;
      assert |ya| == |yb|;
      assert ya == FormatYm(a)[..|ya|] == FormatYm(b)[..|yb|] == yb;
      assert ma == FormatYm(a)[|ya| + 1..] == FormatYm(b)[|yb| + 1..] == mb;
      YearTextInjective(YearOf(a), YearOf(b));
      PaddedInjective(MonthOfYear(a), MonthOfYear(b), 2, 2);
      assert a == 12 * YearOf(a) + (MonthOfYear(a) - 1);
      assert b == 12 * YearOf(b) + (MonthOfYear(b) - 1);
    }
  }
}
