/**
 `d.toISOString()` and the date strings `d.toISOString().slice(0, 10)` that pricing compares.

 Inside years 0 to 9999 the string is YYYY-MM-DD.  Outside, the year is written with a sign and six
 digits, so the slice ends after the month: the day of the month is lost and the order of the
 strings is no longer the order of the days.  `IsoOrder` says exactly for which pairs it still is.
 */
module IsoDates {
  import opened Numerals
  import opened Calendar

  function CivilOf(t: Instant): Civil {
    CivilOfDay(Day(t))
  }

  lemma CivilOfIsValid(t: Instant)
    ensures CivilOf(t).Valid()
  {
    DayCivilDay(Day(t));
  }

  function YearText(y: int): string {
    if 0 <= y <= 9999 then Padded(y, 4)
    else if y > 0 then "+" + Padded(y, 6)
    else "-" + Padded(-y, 6)
  }

  function MonthDayText(c: Civil): (s: string)
    ensures |s| == 6
  {
    "-" + Padded(c.month + 1, 2) + "-" + Padded(c.date, 2)
  }

  /** A field of the time of day: how many units make the next one up, how wide it is, what precedes it. */
  datatype TimeField = TimeField(radix: nat, width: nat, before: char)

  const TIME_FIELDS: seq<TimeField> :=
    [TimeField(24, 2, 'T'), TimeField(60, 2, ':'), TimeField(60, 2, ':'), TimeField(1000, 3, '.')]

  /** The last fields of `n` units, from the least significant one upwards. */
  function TimeText(n: nat, fields: seq<TimeField>): string
    requires forall i :: 0 <= i < |fields| ==> fields[i].radix > 0
    decreases |fields|
  {
    if fields == [] then ""
    else
      var f := fields[|fields| - 1];
      TimeText(n / f.radix, fields[..|fields| - 1]) + [f.before] + Padded(n % f.radix, f.width)
  }

  /** The time of day, as hours, minutes, seconds and milliseconds. */
  lemma TimeOfDay(n: nat)
    requires n < 86_400_000
    ensures TimeText(n, TIME_FIELDS)
            == "T" + Padded(n / 3_600_000, 2) + ":" + Padded(n / 60_000 % 60, 2) + ":" + Padded(n / 1000 % 60, 2)
               + "." + Padded(n % 1000, 3)
  {
    var s, m, h := n / 1000, n / 60_000, n / 3_600_000;
    assert s / 60 == m && m / 60 == h && h / 24 == 0 && h % 24 == h;
    hide Padded;
    var f := TIME_FIELDS;
    assert f[..4] == f && f[..3][..2] == f[..2] && f[..2][..1] == f[..1] && f[..1][..0] == [];
    assert TimeText(h, f[..1]) == "T" + Padded(h, 2);
    assert TimeText(m, f[..2]) == TimeText(h, f[..1]) + ":" + Padded(m % 60, 2);
    assert TimeText(s, f[..3]) == TimeText(m, f[..2]) + ":" + Padded(s % 60, 2);
    assert TimeText(n, f) == TimeText(s, f[..3]) + "." + Padded(n % 1000, 3);
  }

  /** `Date.prototype.toISOString` of a valid date. */
  function ToIsoString(t: Instant): (s: string)
    ensures |s| >= 10
  {
    YearText(CivilOf(t).year) + MonthDayText(CivilOf(t)) + TimeText(t % MS_PER_DAY, TIME_FIELDS) + "Z"
  }

  function IsoDateUtc(t: Instant): (s: string)
    ensures |s| == 10
  {
    ToIsoString(t)[..10]
  }

  /** The instants whose ISO year has four digits. */
  predicate FourDigitYear(t: Instant) {
    0 <= CivilOf(t).year <= 9999
  }

  function DateText(c: Civil): (s: string)
    requires 0 <= c.year <= 9999
    ensures |s| == 10
  {
    Padded(c.year, 4) + MonthDayText(c)
  }

  lemma YearHasSixDigits(t: Instant)
    ensures -999_999 <= CivilOf(t).year <= 999_999
  {
    var y := CivilOf(t).year;
    YearBrackets(Day(t));
    hide YearAndDay;
    assert DayFromYear(1_000_000) > 100_000_000 && DayFromYear(-999_999) < -100_000_366;
    if y >= 1_000_000 {
      YearsAscend(1_000_000, y);
    } else if y <= -1_000_000 {
      YearsAscend(y, -999_999);
    }
  }

  /** The slice keeps the whole date for a four-digit year, and only year and month otherwise. */
  lemma IsoDateShape(t: Instant)
    ensures FourDigitYear(t) ==> IsoDateUtc(t) == DateText(CivilOf(t))
    ensures !FourDigitYear(t) ==> IsoDateUtc(t) == YearText(CivilOf(t).year) + MonthDayText(CivilOf(t))[..3]
  {
    hide CivilOf, Padded;
    var c := CivilOf(t);
    var tail := TimeText(t % MS_PER_DAY, TIME_FIELDS) + "Z";
    if FourDigitYear(t) {
      assert ToIsoString(t) == DateText(c) + tail;
    } else {
      var y, md := YearText(c.year), MonthDayText(c);
      assert ToIsoString(t) == y + md[..3] + (md[3..] + tail);
    }
  }

  /** Between two days of four-digit years there are only such days. */
  lemma FourDigitsBetween(s: Instant, t: Instant, u: Instant)
    requires FourDigitYear(s) && FourDigitYear(u) && Day(s) <= Day(t) <= Day(u)
    ensures FourDigitYear(t)
  {
    CivilOrder(Day(t), Day(s));
    CivilOrder(Day(u), Day(t));
  }

  /** The string of a day depends on the day only. */
  lemma IsoDateOfDay(s: Instant, t: Instant)
    requires Day(s) == Day(t)
    ensures IsoDateUtc(s) == IsoDateUtc(t)
  {
    IsoDateShape(s);
    IsoDateShape(t);
  }

  lemma Pow10Values()
    ensures Pow10(2) == 100 && Pow10(4) == 10_000 && Pow10(6) == 1_000_000
  {
    assert Pow10(1) == 10;
    assert Pow10(3) == 1000;
    assert Pow10(5) == 100_000;
  }

  lemma StrLtSameHead(c: char, s: string, t: string)
    ensures StrLt([c] + s, [c] + t) <==> StrLt(s, t)
  {
    assert ([c] + s)[1..] == s && ([c] + t)[1..] == t;
  }

  lemma TwoDigitOrder(n: nat, m: nat)
    requires n < 100 && m < 100
    ensures StrLt("-" + Padded(n, 2), "-" + Padded(m, 2)) <==> n < m
    ensures "-" + Padded(n, 2) == "-" + Padded(m, 2) <==> n == m
  {
    Pow10Values();
    PaddedOrder(n, m, 2);
    StrLtSameHead('-', Padded(n, 2), Padded(m, 2));
    assert ("-" + Padded(n, 2))[1..] == Padded(n, 2) && ("-" + Padded(m, 2))[1..] == Padded(m, 2);
  }

  lemma MonthDayBlocks(c: Civil)
    ensures MonthDayText(c) == ("-" + Padded(c.month + 1, 2)) + ("-" + Padded(c.date, 2))
    ensures MonthDayText(c)[..3] == "-" + Padded(c.month + 1, 2)
  {
    hide Padded;
  }

  /** Month and day of month, as text, are ordered as numbers are. */
  lemma MonthDayOrder(a: Civil, b: Civil)
    requires a.Valid() && b.Valid()
    ensures StrLt(MonthDayText(a), MonthDayText(b)) <==>
            a.month < b.month || (a.month == b.month && a.date < b.date)
    ensures StrLt(MonthDayText(a)[..3], MonthDayText(b)[..3]) <==> a.month < b.month
    ensures MonthDayText(a)[..3] == MonthDayText(b)[..3] <==> a.month == b.month
  {
    var am, bm := "-" + Padded(a.month + 1, 2), "-" + Padded(b.month + 1, 2);
    var ad, bd := "-" + Padded(a.date, 2), "-" + Padded(b.date, 2);
    TwoDigitOrder(a.month + 1, b.month + 1);
    TwoDigitOrder(a.date, b.date);
    StrLtBlocks(am, ad, bm, bd);
    MonthDayBlocks(a);
    MonthDayBlocks(b);
    hide Padded, StrLt, MonthDayText, Leap;
  }

  lemma DateTextOrder(a: Civil, b: Civil)
    requires a.Valid() && b.Valid() && 0 <= a.year <= 9999 && 0 <= b.year <= 9999
    ensures StrLt(DateText(a), DateText(b)) <==> CivilLt(a, b)
  {
    Pow10Values();
    PaddedOrder(a.year, b.year, 4);
    StrLtBlocks(Padded(a.year, 4), MonthDayText(a), Padded(b.year, 4), MonthDayText(b));
    MonthDayOrder(a, b);
  }

  /** Extended years of one sign: ordered by the absolute value of the year, then by the month. */
  lemma ExtendedOrder(s: Instant, t: Instant)
    requires !FourDigitYear(s) && !FourDigitYear(t)
    requires CivilOf(s).year < 0 <==> CivilOf(t).year < 0
    ensures var y, z := CivilOf(s).year, CivilOf(t).year;
            StrLt(IsoDateUtc(s), IsoDateUtc(t)) <==>
            (if y < 0 then z < y else y < z) || (y == z && CivilOf(s).month < CivilOf(t).month)
  {
    hide CivilOf, IsoDateUtc;
    var a, b := CivilOf(s), CivilOf(t);
    CivilOfIsValid(s);
    CivilOfIsValid(t);
    YearHasSixDigits(s);
    YearHasSixDigits(t);
    Pow10Values();
    IsoDateShape(s);
    IsoDateShape(t);
    var n: nat, m: nat := if a.year < 0 then -a.year else a.year, if b.year < 0 then -b.year else b.year;
    PaddedOrder(n, m, 6);
    MonthDayOrder(a, b);
    StrLtBlocks(YearText(a.year), MonthDayText(a)[..3], YearText(b.year), MonthDayText(b)[..3]);
    StrLtSameHead(YearText(a.year)[0], Padded(n, 6), Padded(m, 6));
    assert YearText(a.year)[1..] == Padded(n, 6) && YearText(b.year)[1..] == Padded(m, 6);
  }

  /** Four-digit years sort after every extended year, and '+' sorts before '-'. */
  lemma LeadingSignOrder(s: Instant, t: Instant)
    requires !FourDigitYear(s)
    requires FourDigitYear(t) || (CivilOf(s).year > 0 > CivilOf(t).year)
    ensures StrLt(IsoDateUtc(s), IsoDateUtc(t)) && StrLe(IsoDateUtc(s), IsoDateUtc(t))
    ensures !StrLe(IsoDateUtc(t), IsoDateUtc(s))
  {
    IsoDateShape(s);
    IsoDateShape(t);
    assert IsoDateUtc(s)[0] == YearText(CivilOf(s).year)[0];
    if FourDigitYear(t) {
      assert IsoDateUtc(t)[0] == Padded(CivilOf(t).year, 4)[0];
      assert IsDigit(IsoDateUtc(t)[0]);
    } else {
      assert IsoDateUtc(t)[0] == YearText(CivilOf(t).year)[0];
    }
  }

  /** Decided from year, month and date alone: whether the order of two date strings can be trusted. */
  predicate Comparable(s: Civil, t: Civil) {
    if s.year > 9999 || t.year > 9999 then
      s.year > 9999 && t.year > 9999 && !(s.year == t.year && s.month == t.month && t.date < s.date)
    else if s.year < 0 && t.year < 0 then
      s.year == t.year && !(s.month == t.month && t.date < s.date)
    else
      true
  }

  /** For all valid dates: the string order is the order of the days exactly on comparable pairs. */
  lemma IsoOrder(s: Instant, t: Instant)
    ensures (StrLe(IsoDateUtc(s), IsoDateUtc(t)) <==> Day(s) <= Day(t)) <==> Comparable(CivilOf(s), CivilOf(t))
  {
    var a, b := CivilOf(s), CivilOf(t);
    CivilOrder(Day(t), Day(s));
    CivilOfIsValid(s);
    CivilOfIsValid(t);
    hide CivilOf, IsoDateUtc;
    if FourDigitYear(s) && FourDigitYear(t) {
      IsoDateShape(s);
      IsoDateShape(t);
      DateTextOrder(b, a);
    } else if !FourDigitYear(s) && (FourDigitYear(t) || a.year > 0 > b.year) {
      LeadingSignOrder(s, t);
    } else if !FourDigitYear(t) && (FourDigitYear(s) || b.year > 0 > a.year) {
      LeadingSignOrder(t, s);
    } else {
      ExtendedOrder(t, s);
    }
  }

  /** The case the program relies on: any two dates in years 0 to 9999. */
  lemma IsoOrderFourDigits(s: Instant, t: Instant)
    requires FourDigitYear(s) && FourDigitYear(t)
    ensures StrLe(IsoDateUtc(s), IsoDateUtc(t)) <==> Day(s) <= Day(t)
  {
    IsoOrder(s, t);
  }

  /** Every day after year 9999 compares as earlier than every day of years 0 to 9999. */
  lemma IsoOrderBreaks(s: Instant, t: Instant)
    requires FourDigitYear(s) && CivilOf(t).year > 9999
    ensures Day(s) < Day(t) && !StrLe(IsoDateUtc(s), IsoDateUtc(t))
  {
    CivilOrder(Day(s), Day(t));
    LeadingSignOrder(t, s);
  }

  /** Such as the first day of year 10000 and the day before it. */
  lemma IsoOrderBreaksAtYear10000()
    ensures var t: Instant := DayFromYear(10_000) * MS_PER_DAY;
            var s: Instant := t - MS_PER_DAY;
            Day(s) < Day(t) && !StrLe(IsoDateUtc(s), IsoDateUtc(t))
  {
    var t: Instant := DayFromYear(10_000) * MS_PER_DAY;
    var s: Instant := t - MS_PER_DAY;
    NextYear(9999);
    YearUnique(Day(t), 10_000);
    YearUnique(Day(s), 9999);
    LeadingSignOrder(t, s);
  }

  /** Year, month and day fields, as text, that name a day of the calendar, and the date that they name. */
  predicate IsDateFields(y: string, m: string, d: string) {
    AllDigits(y) && AllDigits(m) && AllDigits(d) && DigitsValue(m) >= 1
    && Civil(DigitsValue(y), DigitsValue(m) - 1, DigitsValue(d)).Valid()
  }

  function DateOfFields(y: string, m: string, d: string): Civil
    requires IsDateFields(y, m, d)
  {
    Civil(DigitsValue(y), DigitsValue(m) - 1, DigitsValue(d))
  }

  /** The date strings YYYY-MM-DD that name a day of the calendar. */
  predicate IsDateText(s: string) {
    |s| == 10 && s[4] == '-' && s[7] == '-' && IsDateFields(s[..4], s[5..7], s[8..])
  }

  /** `new Date(s + "T00:00:00.000Z")`: midnight UTC of the day that the string names. */
  function MidnightOf(s: string): int
    requires IsDateText(s)
  {
    DayOfCivil(DateOfFields(s[..4], s[5..7], s[8..])) * MS_PER_DAY
  }

  lemma DateTextFields(c: Civil)
    requires 0 <= c.year <= 9999
    ensures var s := DateText(c);
            s[..4] == Padded(c.year, 4) && s[4] == '-' && s[5..7] == Padded(c.month + 1, 2) && s[7] == '-'
            && s[8..] == Padded(c.date, 2)
  {
    hide Padded;
  }

  lemma FieldsRead(c: Civil)
    requires c.Valid() && 0 <= c.year <= 9999
    ensures var y, m, d := Padded(c.year, 4), Padded(c.month + 1, 2), Padded(c.date, 2);
            IsDateFields(y, m, d) && DateOfFields(y, m, d) == c
  {
    Pow10Values();
    PaddedValue(c.year, 4);
    PaddedValue(c.month + 1, 2);
    PaddedValue(c.date, 2);
    hide Pow10, Padded, DigitsValue, Leap;
  }

  /** A printed date reads back as the same date. */
  lemma DateTextParses(c: Civil)
    requires c.Valid() && 0 <= c.year <= 9999
    ensures IsDateText(DateText(c)) && MidnightOf(DateText(c)) == DayOfCivil(c) * MS_PER_DAY
  {
    FieldsRead(c);
    DateTextFields(c);
    hide IsDateFields, DateOfFields, Padded, AllDigits, DateText, DayOfCivil;
  }

  /** Printing an instant's date and reading it back keeps the day and drops the time of day. */
  lemma DateTextRoundTrip(t: Instant)
    requires FourDigitYear(t)
    ensures IsDateText(IsoDateUtc(t)) && MidnightOf(IsoDateUtc(t)) == Day(t) * MS_PER_DAY
  {
    CivilOfIsValid(t);
    IsoDateShape(t);
    DayCivilDay(Day(t));
    DateTextParses(CivilOf(t));
  }
}
