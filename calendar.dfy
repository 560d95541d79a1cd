/** The proleptic Gregorian calendar behind chrono's `DateTime::year()`,
    `DateTime::month()` and `Utc.ymd(..).and_hms(..)`, for instants from
    1970-01-01T00:00:00Z on. */
module Calendar {
  import opened Common

  predicate IsLeap(y: int) {
    (y % 4 == 0 && y % 100 != 0) || y % 400 == 0
  }

  function DaysInYear(y: int): int {
    if IsLeap(y) then 366 else 365
  }

  function DaysInMonth(y: int, m: int): int
    requires 1 <= m <= 12
  {
    if m == 2 then (if IsLeap(y) then 29 else 28)
    else if m == 4 || m == 6 || m == 9 || m == 11 then 30
    else 31
  }

  /** Leap years among 1 ..= n. */
  function LeapsUpTo(n: nat): int {
    n / 4 - n / 100 + n / 400
  }

  /** Days from 1970-01-01 to y-01-01. */
  function DaysBeforeYear(y: int): int
    requires y >= 1970
  {
    365 * (y - 1970) + LeapsUpTo(y - 1) - LeapsUpTo(1969)
  }

  /** Days from the first of January of `y` to the first of month `m`. */
  function DaysBeforeMonth(y: int, m: int): int
    requires 1 <= m <= 12
  {
    [0, 31, 59, 90, 120, 151, 181, 212, 243, 273, 304, 334][m - 1]
      + (if m > 2 && IsLeap(y) then 1 else 0)
  }

  lemma DaysBeforeYearStep(y: int)
    requires y >= 1970
    ensures DaysBeforeYear(y + 1) == DaysBeforeYear(y) + DaysInYear(y)
  {
    assert y / 4 - (y - 1) / 4 == (if y % 4 == 0 then 1 else 0);
    assert y / 100 - (y - 1) / 100 == (if y % 100 == 0 then 1 else 0);
    assert y / 400 - (y - 1) / 400 == (if y % 400 == 0 then 1 else 0);
  }

  lemma DaysBeforeMonthStep(y: int, m: int)
    requires 1 <= m <= 12
    ensures m < 12 ==> DaysBeforeMonth(y, m + 1) == DaysBeforeMonth(y, m) + DaysInMonth(y, m)
    ensures m == 12 ==> DaysBeforeMonth(y, m) + DaysInMonth(y, m) == DaysInYear(y)
  {
  }

  lemma {:induction false} DaysBeforeYearMonotone(a: int, b: int)
    requires 1970 <= a <= b
    ensures DaysBeforeYear(a) + 365 * (b - a) <= DaysBeforeYear(b) <= DaysBeforeYear(a) + 366 * (b - a)
    decreases b - a
  {
    if a < b {
      DaysBeforeYearMonotone(a, b - 1);
      DaysBeforeYearStep(b - 1);
    }
  }

  /** The year holding day number `d`, searched upwards from `y`. */
  function YearFrom(d: nat, y: int): (r: int)
    requires y >= 1970 && DaysBeforeYear(y) <= d
    ensures r >= y
    decreases d - DaysBeforeYear(y)
  {
    DaysBeforeYearStep(y);
    if d < DaysBeforeYear(y + 1) then y else YearFrom(d, y + 1)
  }

  /** The year found holds day `d`. */
  lemma {:induction false} YearFromHolds(d: nat, y: int)
    requires y >= 1970 && DaysBeforeYear(y) <= d
    ensures DaysBeforeYear(YearFrom(d, y)) <= d < DaysBeforeYear(YearFrom(d, y) + 1)
    decreases d - DaysBeforeYear(y)
  {
    DaysBeforeYearStep(y);
    if d >= DaysBeforeYear(y + 1) {
      YearFromHolds(d, y + 1);
    }
  }

  /** The month of year `y` holding day `o` of that year, searched upwards from `m`. */
  function MonthFrom(y: int, o: nat, m: int): (r: int)
    requires 1 <= m <= 12
    requires DaysBeforeMonth(y, m) <= o < DaysInYear(y)
    ensures m <= r <= 12
    decreases 12 - m
  {
    DaysBeforeMonthStep(y, m);
    if m == 12 || o < DaysBeforeMonth(y, m + 1) then m else MonthFrom(y, o, m + 1)
  }

  /** The month found holds day `o` of the year. */
  lemma {:induction false} MonthFromHolds(y: int, o: nat, m: int)
    requires 1 <= m <= 12
    requires DaysBeforeMonth(y, m) <= o < DaysInYear(y)
    ensures DaysBeforeMonth(y, MonthFrom(y, o, m)) <= o < DaysBeforeMonth(y, MonthFrom(y, o, m)) + DaysInMonth(y, MonthFrom(y, o, m))
    decreases 12 - m
  {
    DaysBeforeMonthStep(y, m);
    if m < 12 && o >= DaysBeforeMonth(y, m + 1) {
      MonthFromHolds(y, o, m + 1);
    }
  }

  function DayNumber(t: Instant): nat
    requires t >= 0
  {
    t / 86_400_000_000
  }

  /** `dt.year()`. */
  function Year(t: Instant): (y: int)
    requires t >= 0
    ensures y >= 1970
  {
    var d := DayNumber(t);
    DaysBeforeYearMonotone(1970, 1970 + d / 366);
    YearFrom(d, 1970 + d / 366)
  }

  /** The year of an instant holds its day number. */
  lemma YearHolds(t: Instant)
    requires t >= 0
    ensures DaysBeforeYear(Year(t)) <= DayNumber(t) < DaysBeforeYear(Year(t) + 1)
  {
    var d := DayNumber(t);
    DaysBeforeYearMonotone(1970, 1970 + d / 366);
    YearFromHolds(d, 1970 + d / 366);
  }

  function DayOfYear(t: Instant): (o: nat)
    requires t >= 0
  {
    YearHolds(t);
    DayNumber(t) - DaysBeforeYear(Year(t))
  }

  /** The day of the year falls within the year. */
  lemma DayOfYearBound(t: Instant)
    requires t >= 0
    ensures DayOfYear(t) < DaysInYear(Year(t))
  {
    YearHolds(t);
    DaysBeforeYearStep(Year(t));
  }

  /** `dt.month()`, from 1 to 12. */
  function Month(t: Instant): (m: int)
    requires t >= 0
    ensures 1 <= m <= 12
  {
    DayOfYearBound(t);
    MonthFrom(Year(t), DayOfYear(t), 1)
  }

  /** The month of an instant holds its day of the year. */
  lemma MonthHolds(t: Instant)
    requires t >= 0
    ensures DaysBeforeMonth(Year(t), Month(t)) <= DayOfYear(t) < DaysBeforeMonth(Year(t), Month(t)) + DaysInMonth(Year(t), Month(t))
  {
    DayOfYearBound(t);
    MonthFromHolds(Year(t), DayOfYear(t), 1);
  }

  /** `Utc.ymd(y, m, 1).and_hms(0, 0, 0)`. */
  function MonthStart(y: int, m: int): (t: Instant)
    requires y >= 1970 && 1 <= m <= 12
    ensures t >= 0
  {
    (DaysBeforeYear(y) + DaysBeforeMonth(y, m)) * 86_400_000_000
  }

  predicate ValidCivil(y: int, m: int, d: int, h: int, mi: int, s: int) {
    y >= 1970 && 1 <= m <= 12 && 1 <= d <= DaysInMonth(y, m)
    && 0 <= h < 24 && 0 <= mi < 60 && 0 <= s < 60
  }

  /** `Utc.ymd(y, m, d).and_hms(h, mi, s)`. */
  function CivilInstant(y: int, m: int, d: int, h: int, mi: int, s: int): (t: Instant)
    requires ValidCivil(y, m, d, h, mi, s)
    ensures t >= 0
  {
    MonthStart(y, m) + Days(d - 1) + Hours(h) + Minutes(mi) + Seconds(s)
  }

  /** The year of an instant is the one whose days hold its day number. */
  lemma YearOfDay(t: Instant, y: int)
    requires t >= 0 && y >= 1970
    requires DaysBeforeYear(y) <= DayNumber(t) < DaysBeforeYear(y + 1)
    ensures Year(t) == y
  {
    YearHolds(t);
    YearUnique(DayNumber(t), Year(t), y);
  }

  /** Years do not overlap. */
  lemma YearUnique(d: int, a: int, b: int)
    requires a >= 1970 && b >= 1970
    requires DaysBeforeYear(a) <= d < DaysBeforeYear(a + 1)
    requires DaysBeforeYear(b) <= d < DaysBeforeYear(b + 1)
    ensures a == b
  {
    if a < b {
      DaysBeforeYearMonotone(a + 1, b);
    } else if a > b {
      DaysBeforeYearMonotone(b + 1, a);
    }
  }

  /** The month of an instant is the one whose days hold its day of the year. */
  lemma MonthOfDay(t: Instant, m: int)
    requires t >= 0 && 1 <= m <= 12
    requires DaysBeforeMonth(Year(t), m) <= DayOfYear(t) < DaysBeforeMonth(Year(t), m) + DaysInMonth(Year(t), m)
    ensures Month(t) == m
  {
    DayOfYearBound(t);
    MonthUnique(Year(t), DayOfYear(t), 1, m);
  }

  lemma DayInYear(y: int, m: int, d: int)
    requires 1 <= m <= 12 && 1 <= d <= DaysInMonth(y, m)
    ensures DaysBeforeMonth(y, m) + d - 1 < DaysInYear(y)
  {
    DaysBeforeMonthStep(y, m);
    if m < 12 {
      DaysBeforeMonthMonotone(y, m + 1, 12);
      DaysBeforeMonthStep(y, 12);
    }
  }

  /** Year and month read back the fields an instant was built from. */
  lemma {:induction false} CivilFields(y: int, m: int, d: int, h: int, mi: int, s: int)
    requires ValidCivil(y, m, d, h, mi, s)
    ensures Year(CivilInstant(y, m, d, h, mi, s)) == y
    ensures Month(CivilInstant(y, m, d, h, mi, s)) == m
  {
    var t := CivilInstant(y, m, d, h, mi, s);
    var dn := DaysBeforeYear(y) + DaysBeforeMonth(y, m) + d - 1;
    var rem := Hours(h) + Minutes(mi) + Seconds(s);
    assert t == dn * 86_400_000_000 + rem;
    DivUnique(t, 86_400_000_000, dn);
    DayInYear(y, m, d);
    DaysBeforeYearStep(y);
    YearOfDay(t, y);
    MonthOfDay(t, m);
  }

  lemma {:induction false} MonthUnique(y: int, o: nat, m0: int, m: int)
    requires 1 <= m0 <= m <= 12
    requires DaysBeforeMonth(y, m0) <= o < DaysInYear(y)
    requires DaysBeforeMonth(y, m) <= o < DaysBeforeMonth(y, m) + DaysInMonth(y, m)
    ensures MonthFrom(y, o, m0) == m
    decreases 12 - m0
  {
    DaysBeforeMonthStep(y, m0);
    if m0 < m {
      assert DaysBeforeMonth(y, m0 + 1) <= DaysBeforeMonth(y, m) by {
        DaysBeforeMonthMonotone(y, m0 + 1, m);
      }
      MonthUnique(y, o, m0 + 1, m);
    }
  }

  lemma {:induction false} DaysBeforeMonthMonotone(y: int, a: int, b: int)
    requires 1 <= a <= b <= 12
    ensures DaysBeforeMonth(y, a) <= DaysBeforeMonth(y, b)
    decreases b - a
  {
    if a < b {
      DaysBeforeMonthStep(y, b - 1);
      DaysBeforeMonthMonotone(y, a, b - 1);
    }
  }

  /** `next_month_datetime` (src/utilities.rs): midnight on the first of the following month. */
  function NextMonthDatetime(t: Instant): (r: Instant)
    requires t >= 0
    ensures r >= 0
  {
    var nextMonth := Month(t) + 1;
    if nextMonth > 12 then MonthStart(Year(t) + 1, 1) else MonthStart(Year(t), nextMonth)
  }

  /** `trunc_month_datetime` (src/utilities.rs): midnight on the first of the month. */
  function TruncMonthDatetime(t: Instant): (r: Instant)
    requires t >= 0
    ensures r >= 0
  {
    MonthStart(Year(t), Month(t))
  }

  /** The month holding `t` runs from its truncation (inclusive) to the next month (exclusive). */
  lemma MonthBounds(t: Instant)
    requires t >= 0
    ensures TruncMonthDatetime(t) <= t < NextMonthDatetime(t)
  {
    var y, m, o := Year(t), Month(t), DayOfYear(t);
    var dn := DayNumber(t);
    YearHolds(t);
    MonthHolds(t);
    assert dn * 86_400_000_000 <= t < (dn + 1) * 86_400_000_000;
    assert DaysBeforeMonth(y, m) <= o < DaysBeforeMonth(y, m) + DaysInMonth(y, m);
    DaysBeforeMonthStep(y, m);
    DaysBeforeYearStep(y);
    var firstDay := DaysBeforeYear(y) + DaysBeforeMonth(y, m);
    assert firstDay <= dn;
    var nextDay := DaysBeforeYear(y) + DaysBeforeMonth(y, m) + DaysInMonth(y, m);
    assert dn + 1 <= nextDay;
    assert NextMonthDatetime(t) == nextDay * 86_400_000_000;
    assert firstDay * 86_400_000_000 <= dn * 86_400_000_000;
    assert (dn + 1) * 86_400_000_000 <= nextDay * 86_400_000_000;
  }

  lemma NextMonthAfter(t: Instant)
    requires t >= 0
    ensures t < NextMonthDatetime(t)
  {
    MonthBounds(t);
  }

  /** The first of a month is followed by the first of the next month. */
  lemma NextOfMonthStart(y: int, m: int)
    requires y >= 1970 && 1 <= m <= 12
    ensures m < 12 ==> NextMonthDatetime(MonthStart(y, m)) == MonthStart(y, m + 1)
    ensures m == 12 ==> NextMonthDatetime(MonthStart(y, m)) == MonthStart(y + 1, 1)
  {
    CivilFields(y, m, 1, 0, 0, 0);
    assert CivilInstant(y, m, 1, 0, 0, 0) == MonthStart(y, m);
  }

  /** The month after any instant of month `m` of year `y` starts on the first of the next month. */
  lemma NextMonthOfCivil(y: int, m: int, d: int, h: int, mi: int, s: int)
    requires ValidCivil(y, m, d, h, mi, s)
    ensures m < 12 ==> NextMonthDatetime(CivilInstant(y, m, d, h, mi, s)) == MonthStart(y, m + 1)
    ensures m == 12 ==> NextMonthDatetime(CivilInstant(y, m, d, h, mi, s)) == MonthStart(y + 1, 1)
  {
    CivilFields(y, m, d, h, mi, s);
  }

  /** Within a year, later months start no earlier. */
  lemma MonthStartMonotone(y: int, a: int, b: int)
    requires y >= 1970 && 1 <= a <= b <= 12
    ensures MonthStart(y, a) <= MonthStart(y, b)
  {
    DaysBeforeMonthMonotone(y, a, b);
    var da, db := DaysBeforeYear(y) + DaysBeforeMonth(y, a), DaysBeforeYear(y) + DaysBeforeMonth(y, b);
    assert da <= db;
    assert da * 86_400_000_000 <= db * 86_400_000_000;
  }

  /** Months start later as the calendar advances. */
  lemma MonthStartIncreasing(y: int, m: int)
    requires y >= 1970 && 1 <= m <= 12
    ensures m < 12 ==> MonthStart(y, m) < MonthStart(y, m + 1)
    ensures m == 12 ==> MonthStart(y, m) < MonthStart(y + 1, 1)
  {
    DaysBeforeMonthStep(y, m);
    DaysBeforeYearStep(y);
  }
}
