/** Gregorian dates of day counts, and the two orders Elixir knows for them: by time, and the term
    order of `Date` structs, which compares the fields day, month and year in that order. */
module Calendar {

  datatype Date = Date(year: int, month: int, day: int)

  /** By time: year, then month, then day. */
  predicate Earlier(a: Date, b: Date) {
    || a.year < b.year
    || (a.year == b.year && a.month < b.month)
    || (a.year == b.year && a.month == b.month && a.day < b.day)
  }

  /** As terms: day, then month, then year. */
  predicate StructLt(a: Date, b: Date) {
    || a.day < b.day
    || (a.day == b.day && a.month < b.month)
    || (a.day == b.day && a.month == b.month && a.year < b.year)
  }

  const DAYS_PER_ERA := 146_097

  /** Days before year `y` of a 400-year era, years beginning in March. */
  function YearStart(y: nat): int {
    365 * y + y / 4 - y / 100 + y / 400
  }

  lemma YearLength(y: nat)
    ensures 365 <= YearStart(y + 1) - YearStart(y) <= 366
  {
    FourthYear(y);
    CenturyYear(y);
    EraYear(y);
    LeapYears(y + 1);
  }

  lemma FourthYear(y: nat)
    ensures (y + 1) / 4 == y / 4 + if (y + 1) % 4 == 0 then 1 else 0
  {
  }

  lemma CenturyYear(y: nat)
    ensures (y + 1) / 100 == y / 100 + if (y + 1) % 100 == 0 then 1 else 0
  {
  }

  lemma EraYear(y: nat)
    ensures (y + 1) / 400 == y / 400 + if (y + 1) % 400 == 0 then 1 else 0
  {
  }

  lemma LeapYears(y: nat)
    ensures y % 400 == 0 ==> y % 100 == 0
    ensures y % 100 == 0 ==> y % 4 == 0
  {
    if y % 400 == 0 {
      assert y == 100 * (4 * (y / 400));
    }
    if y % 100 == 0 {
      assert y == 4 * (25 * (y / 100));
    }
  }

  lemma {:induction false} YearsGrow(x: nat, y: nat)
    ensures x <= y ==> YearStart(x) <= YearStart(y)
    decreases y - x
  {
    if x < y {
      YearLength(x);
      YearsGrow(x + 1, y);
    }
  }

  /** The year, from `y` on, that a day of the era falls in. */
  function YearFrom(day: int, y: nat): (r: nat)
    requires YearStart(y) <= day
    ensures YearStart(r) <= day < YearStart(r + 1)
    decreases day - YearStart(y)
  {
    YearLength(y);
    if day < YearStart(y + 1) then y else YearFrom(day, y + 1)
  }

  lemma OnlyYear(day: int, y: nat)
    requires YearStart(y) <= day < YearStart(y + 1)
    ensures YearFrom(day, 0) == y
  {
    var r := YearFrom(day, 0);
    YearsGrow(r + 1, y);
    YearsGrow(y + 1, r);
  }

  /** Year and month counted from March (March is 0) and the day within the month, from 1. */
  function MarchOf(era: int, day: int): Date
    requires 0 <= day
  {
    var year := YearFrom(day, 0);
    var dayOfYear := day - YearStart(year);
    var month := (5 * dayOfYear + 2) / 153;
    Date(year + 400 * era, month, dayOfYear - (153 * month + 2) / 5 + 1)
  }

  function March(days: int): Date {
    var z := days + 719_468;
    MarchOf(z / DAYS_PER_ERA, z % DAYS_PER_ERA)
  }

  /** The Gregorian date of a day count from 1970-01-01. */
  function Civil(days: int): Date {
    var d := March(days);
    if d.month < 10 then Date(d.year, d.month + 3, d.day) else Date(d.year + 1, d.month - 9, d.day)
  }

  lemma MonthOfDay(dayOfYear: int)
    requires 0 <= dayOfYear <= 365
    ensures var m := (5 * dayOfYear + 2) / 153;
      0 <= m <= 11 && (153 * m + 2) / 5 <= dayOfYear < (153 * (m + 1) + 2) / 5 <= (153 * m + 2) / 5 + 31
  {
  }

  lemma MonthsGrow(a: int, b: int)
    requires 0 <= a < b <= 365
    ensures (5 * a + 2) / 153 <= (5 * b + 2) / 153
  {
  }

  lemma YearOfEra(day: int)
    requires 0 <= day < DAYS_PER_ERA
    ensures YearFrom(day, 0) < 400 && 0 <= day - YearStart(YearFrom(day, 0)) <= 365
  {
    var y := YearFrom(day, 0);
    YearLength(y);
    YearsGrow(400, y);
  }

  /** Every date is a date: month 1 to 12 and day 1 to 31. */
  lemma CivilIsADate(days: int)
    ensures 0 <= March(days).month <= 11 && 1 <= Civil(days).month <= 12 && 1 <= Civil(days).day <= 31
  {
    var day := (days + 719_468) % DAYS_PER_ERA;
    YearOfEra(day);
    MonthOfDay(day - YearStart(YearFrom(day, 0)));
  }

  lemma SameEra(x: int, y: int)
    requires 0 <= x < y < DAYS_PER_ERA
    ensures YearFrom(x, 0) <= YearFrom(y, 0)
  {
    YearsGrow(YearFrom(y, 0) + 1, YearFrom(x, 0));
  }

  lemma WithinEra(era: int, i: int, j: int)
    requires 0 <= i < j < DAYS_PER_ERA
    ensures Earlier(MarchOf(era, i), MarchOf(era, j))
  {
    YearOfEra(i);
    YearOfEra(j);
    SameEra(i, j);
    if YearFrom(i, 0) == YearFrom(j, 0) {
      MonthsGrow(i - YearStart(YearFrom(i, 0)), j - YearStart(YearFrom(j, 0)));
    }
  }

  lemma AcrossEras(d: int, i: int, e: int, j: int)
    requires d < e && 0 <= i < DAYS_PER_ERA && 0 <= j < DAYS_PER_ERA
    ensures Earlier(MarchOf(d, i), MarchOf(e, j))
  {
    YearOfEra(i);
  }

  /** The era a day count falls in, and the day of that era. */
  lemma EraOf(days: int) returns (era: int, day: int)
    ensures 0 <= day < 146_097 && days + 719_468 == 146_097 * era + day
    ensures March(days) == MarchOf(era, day)
  {
    var z := days + 719_468;
    era, day := z / DAYS_PER_ERA, z % DAYS_PER_ERA;
  }

  lemma MarchOrder(a: int, b: int)
    requires a < b
    ensures Earlier(March(a), March(b))
  {
    var d, i := EraOf(a);
    var e, j := EraOf(b);
    if d == e {
      WithinEra(d, i, j);
    } else {
      AcrossEras(d, i, e, j);
    }
  }

  lemma CivilStep(a: int, b: int)
    requires a < b
    ensures Earlier(Civil(a), Civil(b))
  {
    MarchOrder(a, b);
    CivilIsADate(a);
    CivilIsADate(b);
  }

  /** Day counts are ordered as their dates are in time. */
  lemma CivilOrder(a: int, b: int)
    ensures a < b <==> Earlier(Civil(a), Civil(b))
    ensures a == b <==> Civil(a) == Civil(b)
  {
    if a < b {
      CivilStep(a, b);
    } else if b < a {
      CivilStep(b, a);
    }
  }

  lemma KnownDates()
    ensures Civil(0) == Date(1970, 1, 1)
    ensures Civil(20_468) == Date(2026, 1, 15)
    ensures Civil(20_485) == Date(2026, 2, 1)
  {
    assert 719_468 / DAYS_PER_ERA == 4 && 719_468 % DAYS_PER_ERA == 135_080;
    assert YearStart(369) == 134_774 && YearStart(370) == 135_139;
    OnlyYear(135_080, 369);
    assert 739_936 / DAYS_PER_ERA == 5 && 739_936 % DAYS_PER_ERA == 9_451;
    assert 739_953 / DAYS_PER_ERA == 5 && 739_953 % DAYS_PER_ERA == 9_468;
    assert YearStart(25) == 9_131 && YearStart(26) == 9_496;
    OnlyYear(9_451, 25);
    OnlyYear(9_468, 25);
  }
}
