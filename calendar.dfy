/**
 * Proleptic Gregorian dates as Python's `datetime` numbers them: day 1 is
 * 0001-01-01, `weekday()` is `(ordinal + 6) % 7` with Monday = 0, and
 * subtracting `timedelta(days=1)` steps the ordinal back by one.
 */
module Calendar {

  datatype Date = Date(year: int, month: int, day: int)

  const MaxYear := 9999
  const Saturday := 5
  const Sunday := 6

  predicate IsLeap(y: int) {
    y % 4 == 0 && (y % 100 != 0 || y % 400 == 0)
  }

  function DaysInYear(y: int): int {
    if IsLeap(y) then 366 else 365
  }

  function DaysInMonth(y: int, m: int): int
    requires 1 <= m <= 12
  {
    if m == 2 then (if IsLeap(y) then 29 else 28)
    else if m == 4 || m == 6 || m == 9 || m == 11 then 30
    else 31
  }

  /** A date `datetime` can represent. */
  predicate Valid(d: Date) {
    1 <= d.year <= MaxYear && 1 <= d.month <= 12 && 1 <= d.day <= DaysInMonth(d.year, d.month)
  }

  /** Days in the years before `y`, in Python's closed form. */
  function DaysBeforeYear(y: int): int
    requires y >= 1
  {
    var p := y - 1;
    p * 365 + p / 4 - p / 100 + p / 400
  }

  /** Days in the months of year `y` before month `m`. */
  function DaysBeforeMonth(y: int, m: int): int
    requires 1 <= m <= 12
  {
    [0, 31, 59, 90, 120, 151, 181, 212, 243, 273, 304, 334][m - 1]
      + (if m > 2 && IsLeap(y) then 1 else 0)
  }

  /** `date.toordinal()`. */
  function Ordinal(d: Date): int
    requires Valid(d)
  {
    DaysBeforeYear(d.year) + DaysBeforeMonth(d.year, d.month) + d.day
  }

  /** `date.weekday()`: Monday is 0 and Sunday is 6. */
  function Weekday(d: Date): (r: int)
    requires Valid(d)
    ensures 0 <= r <= Sunday
  {
    (Ordinal(d) + 6) % 7
  }

  lemma DaysBeforeYearStep(y: int)
    requires y >= 2
    ensures DaysBeforeYear(y) == DaysBeforeYear(y - 1) + DaysInYear(y - 1)
  {
    var p := y - 1;
    DivStep(p, 4);
    DivStep(p, 100);
    DivStep(p, 400);
    Divisibility(p);
    assert DaysBeforeYear(y) - DaysBeforeYear(y - 1)
      == 365 + (p / 4 - (p - 1) / 4) - (p / 100 - (p - 1) / 100) + (p / 400 - (p - 1) / 400);
  }

  /** A multiple of 400 is one of 100, and a multiple of 100 is one of 4. */
  lemma Divisibility(p: int)
    ensures p % 400 == 0 ==> p % 100 == 0
    ensures p % 100 == 0 ==> p % 4 == 0
  {
    if p % 400 == 0 {
      Multiple400(p);
    }
    if p % 100 == 0 {
      Multiple100(p);
    }
  }

  lemma Multiple400(p: int)
    requires p % 400 == 0
    ensures p % 100 == 0
  {
    var a := p / 400;
    assert p == 100 * (4 * a);
  }

  lemma Multiple100(p: int)
    requires p % 100 == 0
    ensures p % 4 == 0
  {
    var a := p / 100;
    assert p == 4 * (25 * a);
  }

  /** Going from `p - 1` to `p` adds one to `p / d` exactly when `d` divides `p`. */
  lemma DivStep(p: int, d: int)
    requires p >= 1 && (d == 4 || d == 100 || d == 400)
    ensures p / d - (p - 1) / d == (if p % d == 0 then 1 else 0)
  {
    if d == 4 {
      assert p / 4 - (p - 1) / 4 == (if p % 4 == 0 then 1 else 0);
    } else if d == 100 {
      assert p / 100 - (p - 1) / 100 == (if p % 100 == 0 then 1 else 0);
    } else {
      assert p / 400 - (p - 1) / 400 == (if p % 400 == 0 then 1 else 0);
    }
  }

  lemma OrdinalPositive(d: Date)
    requires Valid(d)
    ensures Ordinal(d) >= 1
    ensures Ordinal(d) == 1 <==> d == Date(1, 1, 1)
  {
    YearStart(d.year);
    assert DaysBeforeMonth(d.year, d.month) >= 0;
    assert d.month >= 2 ==> DaysBeforeMonth(d.year, d.month) >= 31;
  }

  /** No year starts before day 0, and every year after the first starts a full year in. */
  lemma YearStart(y: int)
    requires y >= 1
    ensures DaysBeforeYear(y) >= 0
    ensures y >= 2 ==> DaysBeforeYear(y) >= 365
  {
    var p := y - 1;
    var q := p / 100;
    assert q * 100 <= p;
    assert (25 * q) * 4 <= p;
    assert p / 4 >= 25 * q;
  }

  /** The day before `d`; Python raises on the day before 0001-01-01. */
  function PrevDay(d: Date): (r: Date)
    requires Valid(d) && Ordinal(d) > 1
    ensures Valid(r) && Ordinal(r) == Ordinal(d) - 1
  {
    OrdinalPositive(d);
    if d.day > 1 then Date(d.year, d.month, d.day - 1)
    else if d.month > 1 then
      Date(d.year, d.month - 1, DaysInMonth(d.year, d.month - 1))
    else
      DaysBeforeYearStep(d.year);
      Date(d.year - 1, 12, 31)
  }

  /**
   * The weekend roll-back: a Saturday moves back one day and a Sunday two,
   * so the result is always a Monday-to-Friday date at most two days back.
   */
  function AdjustWeekend(today: Date): (r: Date)
    requires Valid(today)
    ensures Valid(r) && Weekday(r) < Saturday
    ensures Weekday(today) < Saturday ==> r == today
    ensures Weekday(today) == Saturday ==> Ordinal(r) == Ordinal(today) - 1
    ensures Weekday(today) == Sunday ==> Ordinal(r) == Ordinal(today) - 2
    ensures Ordinal(today) - 2 <= Ordinal(r) <= Ordinal(today)
  {
    var wd := Weekday(today);
    if wd == Saturday then
      SaturdayBack(today);
      PrevDay(today)
    else if wd == Sunday then
      SundayBack(today);
      PrevDay(PrevDay(today))
    else today
  }

  /** The day before a Saturday exists and is a Friday. */
  lemma SaturdayBack(d: Date)
    requires Valid(d) && Weekday(d) == Saturday
    ensures Ordinal(d) > 1 && Weekday(PrevDay(d)) == 4
  {
    WeekdayBack(Ordinal(d), 1);
  }

  /** The two days before a Sunday exist, and the second is a Friday. */
  lemma SundayBack(d: Date)
    requires Valid(d) && Weekday(d) == Sunday
    ensures Ordinal(d) > 2 && Ordinal(PrevDay(d)) > 1
    ensures Ordinal(PrevDay(PrevDay(d))) == Ordinal(d) - 2 && Weekday(PrevDay(PrevDay(d))) == 4
  {
    WeekdayBack(Ordinal(d), 2);
  }

  /** Stepping back `k` days from a weekend day `(o + 6) % 7` lands on a Friday. */
  lemma WeekdayBack(o: int, k: int)
    requires o >= 1 && (k == 1 || k == 2)
    requires (o + 6) % 7 == 4 + k
    ensures o >= 5 + k && (o - k + 6) % 7 == 4
  {
  }
}
