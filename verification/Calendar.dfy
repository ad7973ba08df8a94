/**
 The proleptic Gregorian calendar of ECMA-262: day, year, month and date from time (sections 21.4.1.3
 to 21.4.1.12), and back.  Year and month are found by passing over whole years and months; that they
 are the last ones to start no later than the day is proved.
 */
module Calendar {
  const MS_PER_DAY := 24 * 60 * 60 * 1000

  /** Largest absolute time value of a valid `Date` (section 21.4.1.1). */
  const MAX_TIME := 8_640_000_000_000_000

  /** The time value of a valid `Date`: milliseconds since 1970-01-01T00:00:00Z. */
  type Instant = t: int | -MAX_TIME <= t <= MAX_TIME witness 0

  /** The days that hold valid instants. */
  type DayNumber = d: int | -100_000_000 <= d <= 100_000_000 witness 0

  function Day(t: int): int {
    t / MS_PER_DAY
  }

  predicate Leap(y: int) {
    y % 4 == 0 && (y % 100 != 0 || y % 400 == 0)
  }

  function DaysInYear(y: int): nat {
    if Leap(y) then 366 else 365
  }

  /** Number of the first day of year `y`. */
  function DayFromYear(y: int): int {
    365 * (y - 1970) + (y - 1969) / 4 - (y - 1901) / 100 + (y - 1601) / 400
  }

  lemma Fourth(y: int)
    ensures (y - 1968) / 4 == (y - 1969) / 4 + (if y % 4 == 0 then 1 else 0)
  {
  }

  lemma Century(y: int)
    ensures (y - 1900) / 100 == (y - 1901) / 100 + (if y % 100 == 0 then 1 else 0)
  {
  }

  lemma FourthCentury(y: int)
    ensures (y - 1600) / 400 == (y - 1601) / 400 + (if y % 400 == 0 then 1 else 0)
  {
  }

  lemma HundredDivides(q: int)
    ensures (400 * q) % 100 == 0
  {
    assert 400 * q == 100 * (4 * q);
  }

  lemma FourDivides(q: int)
    ensures (100 * q) % 4 == 0
  {
    assert 100 * q == 4 * (25 * q);
  }

  lemma LeapFactors(y: int)
    ensures y % 400 == 0 ==> y % 100 == 0
    ensures y % 100 == 0 ==> y % 4 == 0
  {
    if y % 400 == 0 {
      HundredDivides(y / 400);
    }
    if y % 100 == 0 {
      FourDivides(y / 100);
    }
  }

  lemma NextYear(y: int)
    ensures DayFromYear(y + 1) == DayFromYear(y) + DaysInYear(y)
  {
    Fourth(y);
    Century(y);
    FourthCentury(y);
    LeapFactors(y);
  }

  lemma {:induction false} YearsAscend(y: int, z: int)
    requires y <= z
    ensures DayFromYear(y) + 365 * (z - y) <= DayFromYear(z)
    decreases z - y
  {
    if y < z {
      YearsAscend(y, z - 1);
      NextYear(z - 1);
    }
  }

  // ---------------------------------------------------------------- the year of a day

  /** The year that holds the earliest valid instant, and its first day. */
  const FIRST_YEAR := -271_821
  const FIRST_DAY := -100_000_109

  /** Passes over whole years: the year that is `rest` days after the start of year `y`, and the day within it. */
  function YearWalk(y: int, rest: nat): (int, nat)
    decreases rest
  {
    if rest < DaysInYear(y) then (y, rest) else YearWalk(y + 1, rest - DaysInYear(y))
  }

  lemma {:induction false} YearWalkKeepsDay(y: int, rest: nat)
    ensures var (r, d) := YearWalk(y, rest);
            DayFromYear(r) + d == DayFromYear(y) + rest && d < DaysInYear(r)
    decreases rest
  {
    if rest >= DaysInYear(y) {
      NextYear(y);
      YearWalkKeepsDay(y + 1, rest - DaysInYear(y));
    }
  }

  function YearAndDay(day: DayNumber): (int, nat) {
    YearWalk(FIRST_YEAR, day - FIRST_DAY)
  }

  /** YearFromTime: the last year that starts no later than the day, and the days since then. */
  lemma YearBrackets(day: DayNumber)
    ensures var (y, d) := YearAndDay(day); DayFromYear(y) + d == day && d < DaysInYear(y)
  {
    assert DayFromYear(FIRST_YEAR) == FIRST_DAY;
    YearWalkKeepsDay(FIRST_YEAR, day - FIRST_DAY);
  }

  /** A day lies in exactly one year. */
  lemma YearUnique(day: DayNumber, y: int)
    requires DayFromYear(y) <= day < DayFromYear(y) + DaysInYear(y)
    ensures YearAndDay(day) == (y, day - DayFromYear(y))
  {
    YearBrackets(day);
    hide YearAndDay, DayFromYear, DaysInYear;
    var r := YearAndDay(day).0;
    NextYear(r);
    NextYear(y);
    if r < y {
      YearsAscend(r + 1, y);
    } else if y < r {
      YearsAscend(y + 1, r);
    }
  }

  // ---------------------------------------------------------------- the month of a day

  /** Months count from 0, for January. */
  function DaysInMonth(m: nat, leap: bool): (r: nat)
    ensures 28 <= r <= 31
  {
    if m == 1 then (if leap then 29 else 28) else if m == 3 || m == 5 || m == 8 || m == 10 then 30 else 31
  }

  /** Days of a year before month `m`; 12 is the end of the year. */
  function DaysBeforeMonth(m: nat, leap: bool): nat {
    if m == 0 then 0 else DaysBeforeMonth(m - 1, leap) + DaysInMonth(m - 1, leap)
  }

  lemma YearIsTwelveMonths(y: int)
    ensures DaysBeforeMonth(12, Leap(y)) == DaysInYear(y)
  {
    MonthStarts(Leap(y));
  }

  lemma {:induction false} MonthsAscend(m: nat, n: nat, leap: bool)
    requires m <= n
    ensures DaysBeforeMonth(m, leap) <= DaysBeforeMonth(n, leap)
    decreases n
  {
    if m < n {
      MonthsAscend(m, n - 1, leap);
    }
  }

  /** Passes over whole months: the month that is `rest` days after the start of month `m`, and the day within it. */
  function MonthWalk(m: nat, rest: nat, leap: bool): (nat, nat)
    decreases rest
  {
    if rest < DaysInMonth(m, leap) then (m, rest) else MonthWalk(m + 1, rest - DaysInMonth(m, leap), leap)
  }

  /** MonthFromTime: the last month that starts no later than the day of the year. */
  lemma {:induction false} MonthBrackets(m: nat, rest: nat, leap: bool)
    ensures var (r, d) := MonthWalk(m, rest, leap);
            DaysBeforeMonth(r, leap) + d == DaysBeforeMonth(m, leap) + rest && d < DaysInMonth(r, leap)
    decreases rest
  {
    if rest >= DaysInMonth(m, leap) {
      MonthBrackets(m + 1, rest - DaysInMonth(m, leap), leap);
    }
  }

  /** A day of the year lies in exactly one month. */
  lemma MonthUnique(d: nat, m: nat, leap: bool)
    requires DaysBeforeMonth(m, leap) <= d < DaysBeforeMonth(m + 1, leap)
    ensures MonthWalk(0, d, leap) == (m, d - DaysBeforeMonth(m, leap))
  {
    MonthBrackets(0, d, leap);
    var r := MonthWalk(0, d, leap).0;
    if r < m {
      MonthsAscend(r + 1, m, leap);
    } else if m < r {
      MonthsAscend(m + 1, r, leap);
    }
  }

  // ---------------------------------------------------------------- dates

  /** A calendar date: any year, month 0..11, day of the month from 1. */
  datatype Civil = Civil(year: int, month: nat, date: nat) {
    predicate Valid() {
      month < 12 && 1 <= date <= DaysInMonth(month, Leap(year))
    }
  }

  function CivilOfDay(day: DayNumber): Civil {
    var (y, d) := YearAndDay(day);
    var (m, e) := MonthWalk(0, d, Leap(y));
    Civil(y, m, e + 1)
  }

  /** MakeDay (section 21.4.1.28) on a valid date. */
  function DayOfCivil(c: Civil): int {
    DayFromYear(c.year) + DaysBeforeMonth(c.month, Leap(c.year)) + c.date - 1
  }

  /** Every day has a valid date, and is the day of that date. */
  lemma DayCivilDay(day: DayNumber)
    ensures CivilOfDay(day).Valid() && DayOfCivil(CivilOfDay(day)) == day
  {
    YearBrackets(day);
    hide YearAndDay, DayFromYear, DaysInYear, DaysBeforeMonth, MonthWalk, Leap;
    var (y, d) := YearAndDay(day);
    var leap := Leap(y);
    MonthBrackets(0, d, leap);
    MonthsStart(leap);
    YearIsTwelveMonths(y);
    if MonthWalk(0, d, leap).0 >= 12 {
      MonthsAscend(12, MonthWalk(0, d, leap).0, leap);
    }
  }

  lemma MonthsStart(leap: bool)
    ensures DaysBeforeMonth(0, leap) == 0
    ensures forall m: nat :: DaysBeforeMonth(m + 1, leap) == DaysBeforeMonth(m, leap) + DaysInMonth(m, leap)
  {
  }

  /** A date is within its year and month. */
  lemma DateInYear(c: Civil)
    requires c.Valid()
    ensures DaysBeforeMonth(c.month, Leap(c.year)) + c.date <= DaysBeforeMonth(c.month + 1, Leap(c.year))
    ensures DaysBeforeMonth(c.month + 1, Leap(c.year)) <= DaysInYear(c.year)
  {
    MonthsAscend(c.month + 1, 12, Leap(c.year));
    YearIsTwelveMonths(c.year);
  }

  /** A calendar date is recovered from its day number. */
  lemma CivilDayCivil(c: Civil)
    requires c.Valid() && -100_000_000 <= DayOfCivil(c) <= 100_000_000
    ensures CivilOfDay(DayOfCivil(c)) == c
  {
    DateInYear(c);
    hide YearAndDay, DayFromYear, DaysInYear, DaysBeforeMonth, DaysInMonth, MonthWalk, Leap;
    var within := DaysBeforeMonth(c.month, Leap(c.year)) + c.date - 1;
    MonthUnique(within, c.month, Leap(c.year));
    YearUnique(DayOfCivil(c), c.year);
  }

  // ---------------------------------------------------------------- an independent form

  /** The first days of the months, as section 21.4.1.4 lists them. */
  lemma MonthStarts(leap: bool)
    ensures var l := if leap then 1 else 0;
            DaysBeforeMonth(0, leap) == 0 && DaysBeforeMonth(1, leap) == 31 && DaysBeforeMonth(2, leap) == 59 + l
            && DaysBeforeMonth(3, leap) == 90 + l && DaysBeforeMonth(4, leap) == 120 + l
            && DaysBeforeMonth(5, leap) == 151 + l && DaysBeforeMonth(6, leap) == 181 + l
            && DaysBeforeMonth(7, leap) == 212 + l && DaysBeforeMonth(8, leap) == 243 + l
            && DaysBeforeMonth(9, leap) == 273 + l && DaysBeforeMonth(10, leap) == 304 + l
            && DaysBeforeMonth(11, leap) == 334 + l && DaysBeforeMonth(12, leap) == 365 + l
  {
    assert DaysBeforeMonth(2, leap) == DaysBeforeMonth(1, leap) + DaysInMonth(1, leap);
    assert DaysBeforeMonth(4, leap) == DaysBeforeMonth(3, leap) + DaysInMonth(3, leap);
    assert DaysBeforeMonth(6, leap) == DaysBeforeMonth(5, leap) + DaysInMonth(5, leap);
    assert DaysBeforeMonth(8, leap) == DaysBeforeMonth(7, leap) + DaysInMonth(7, leap);
    assert DaysBeforeMonth(10, leap) == DaysBeforeMonth(9, leap) + DaysInMonth(9, leap);
    assert DaysBeforeMonth(12, leap) == DaysBeforeMonth(11, leap) + DaysInMonth(11, leap);
  }

  /** Day numbers of years, from the proleptic year 0. */
  lemma YearStart(y: int)
    ensures DayFromYear(y) == 365 * y + (y - 1) / 4 - (y - 1) / 100 + (y - 1) / 400 - 719_527
  {
    assert (y - 1969) / 4 == (y - 1) / 4 - 492;
    assert (y - 1901) / 100 == (y - 1) / 100 - 19;
    assert (y - 1601) / 400 == (y - 1) / 400 - 4;
  }

  lemma LeapDay(y: int)
    ensures y / 4 - y / 100 + y / 400 == (y - 1) / 4 - (y - 1) / 100 + (y - 1) / 400 + (if Leap(y) then 1 else 0)
  {
    assert (y - 1968) / 4 == y / 4 - 492 && (y - 1969) / 4 == (y - 1) / 4 - 492;
    assert (y - 1900) / 100 == y / 100 - 19 && (y - 1901) / 100 == (y - 1) / 100 - 19;
    assert (y - 1600) / 400 == y / 400 - 4 && (y - 1601) / 400 == (y - 1) / 400 - 4;
    Fourth(y);
    Century(y);
    FourthCentury(y);
    LeapFactors(y);
  }

  /**
   The day number of a date in closed form: years that begin in March, so that the leap day comes
   last, and the months after it in the pattern of 153 days for every five.
   */
  lemma DayOfCivilClosed(c: Civil)
    requires c.Valid()
    ensures var y := if c.month < 2 then c.year - 1 else c.year;
            DayOfCivil(c)
            == 365 * y + y / 4 - y / 100 + y / 400 + (153 * ((c.month + 10) % 12) + 2) / 5 + c.date - 1 - 719_468
  {
    MonthStarts(Leap(c.year));
    YearStart(c.year);
    LeapDay(c.year);
    MarchMonths(c.month);
    hide DaysBeforeMonth, DaysInMonth, DayFromYear, Leap;
  }

  lemma MarchMonths(m: nat)
    requires m < 12
    ensures (153 * ((m + 10) % 12) + 2) / 5
            == if m == 0 then 306 else if m == 1 then 337 else if m == 2 then 0 else if m == 3 then 31
               else if m == 4 then 61 else if m == 5 then 92 else if m == 6 then 122 else if m == 7 then 153
               else if m == 8 then 184 else if m == 9 then 214 else if m == 10 then 245 else 275
  {
  }

  /** The epoch, and a day after a leap day. */
  lemma KnownDays()
    ensures DayOfCivil(Civil(1970, 0, 1)) == 0 && CivilOfDay(0) == Civil(1970, 0, 1)
    ensures DayOfCivil(Civil(2024, 2, 1)) == 19_783 && CivilOfDay(19_783) == Civil(2024, 2, 1)
    ensures MS_PER_DAY == 86_400_000
  {
    DayOfCivilClosed(Civil(1970, 0, 1));
    DayOfCivilClosed(Civil(2024, 2, 1));
    CivilDayCivil(Civil(1970, 0, 1));
    CivilDayCivil(Civil(2024, 2, 1));
    hide DayOfCivil, CivilOfDay;
  }

  predicate CivilLt(a: Civil, b: Civil) {
    a.year < b.year || (a.year == b.year && (a.month < b.month || (a.month == b.month && a.date < b.date)))
  }

  lemma EarlierDateEarlierDay(a: Civil, b: Civil)
    requires a.Valid() && b.Valid() && CivilLt(a, b)
    ensures DayOfCivil(a) < DayOfCivil(b)
  {
    DateInYear(a);
    hide DaysBeforeMonth, DaysInMonth, Leap, DayFromYear;
    NextYear(a.year);
    if a.year < b.year {
      YearsAscend(a.year + 1, b.year);
    } else if a.month < b.month {
      MonthsAscend(a.month + 1, b.month, Leap(a.year));
    }
  }

  /** Later days have later calendar dates, and conversely. */
  lemma CivilOrder(s: DayNumber, t: DayNumber)
    ensures CivilLt(CivilOfDay(s), CivilOfDay(t)) <==> s < t
  {
    var a, b := CivilOfDay(s), CivilOfDay(t);
    DayCivilDay(s);
    DayCivilDay(t);
    hide CivilOfDay, DayOfCivil;
    if CivilLt(a, b) {
      EarlierDateEarlierDay(a, b);
    } else if CivilLt(b, a) {
      EarlierDateEarlierDay(b, a);
    } else {
      assert a == b;
    }
  }
}
