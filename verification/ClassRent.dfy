/**
 Seasonal rent: every 24-hour block of a rental is priced on the UTC date it starts on, by the
 covering season row of highest priority (then highest daily price), else by the class default.
 */
module ClassRent {
  import opened Wrappers
  import opened Numerals
  import opened Calendar
  import opened IsoDates
  import opened RentalDays
  import opened SeasonRates
  import opened RateTotals

  /** The window test of the program, on date strings. */
  function Covers(date: string): SeasonRow -> bool {
    (s: SeasonRow) => StrLe(IsoDateUtc(s.validFrom), date) && StrLe(date, IsoDateUtc(s.validTo))
  }

  /** For windows and days in years 0 to 9999 the string test is membership in an interval of days. */
  lemma CoversIsInterval(s: SeasonRow, t: Instant)
    requires FourDigitYear(s.validFrom) && FourDigitYear(s.validTo) && FourDigitYear(t)
    ensures Covers(IsoDateUtc(t))(s) <==> Day(s.validFrom) <= Day(t) <= Day(s.validTo)
  {
    IsoOrderFourDigits(s.validFrom, t);
    IsoOrderFourDigits(t, s.validTo);
  }

  const END_OF_TIME := 100_000_001

  /** The date strings of `n` consecutive days. */
  function Dates(first: DayNumber, n: nat): (dates: seq<string>)
    requires first + n <= END_OF_TIME
    ensures |dates| == n
  {
    seq(n, i requires 0 <= i < n => IsoDateUtc((first + i) * MS_PER_DAY))
  }

  /** The dates a rental is billed on: consecutive UTC days from the day of pickup. */
  function BilledDates(pickup: Instant, returnAt: Instant): seq<string> {
    Dates(Day(pickup), CountRentalDays24h(pickup, returnAt))
  }

  /** The price of each billed date. */
  function Rates(default: Rate, seasons: seq<SeasonRow>, dates: seq<string>): (rates: seq<Rate>)
    ensures |rates| == |dates|
  {
    seq(|dates|, i requires 0 <= i < |dates| => RateOf(default, seasons, Covers(dates[i])))
  }

  /** The rent of a rental, in terms of its billed dates only. */
  function Rent(default: Rate, seasons: seq<SeasonRow>, pickup: Instant, returnAt: Instant): Rate {
    var dates := BilledDates(pickup, returnAt);
    if dates == [] then None else Total(Rates(default, seasons, dates))
  }

  lemma DayShift(t: int, i: int)
    ensures Day(t + i * MS_PER_DAY) == Day(t) + i
  {
  }

  /** Block `i` starts on the `i`-th UTC day after the day of pickup. */
  lemma BlockDay(pickup: Instant, i: nat)
    requires pickup + i * MS_PER_DAY <= MAX_TIME
    ensures Day(pickup + i * MS_PER_DAY) == Day(pickup) + i <= 100_000_000
    ensures IsoDateUtc(pickup + i * MS_PER_DAY) == IsoDateUtc((Day(pickup) + i) * MS_PER_DAY)
  {
    hide IsoDateUtc;
    DayShift(pickup, i);
    DayShift(0, Day(pickup) + i);
    IsoDateOfDay(pickup + i * MS_PER_DAY, (Day(pickup) + i) * MS_PER_DAY);
  }

  /** The blocks before the return start on valid instants. */
  lemma BlockInRange(pickup: Instant, returnAt: Instant, i: nat)
    requires i < CountRentalDays24h(pickup, returnAt)
    ensures pickup + i * MS_PER_DAY < returnAt
  {
    assert i * MS_PER_DAY <= (CountRentalDays24h(pickup, returnAt) - 1) * MS_PER_DAY;
  }

  /** The price of the `i`-th block, as the program computes it, is the price of the `i`-th billed date. */
  lemma BlockRate(default: Rate, seasons: seq<SeasonRow>, pickup: Instant, returnAt: Instant, i: nat)
    requires i < CountRentalDays24h(pickup, returnAt)
    ensures pickup + i * MS_PER_DAY < returnAt
    ensures Rates(default, seasons, BilledDates(pickup, returnAt))[i]
            == RateOf(default, seasons, Covers(IsoDateUtc(pickup + i * MS_PER_DAY)))
  {
    hide IsoDateUtc, RateOf;
    BlockInRange(pickup, returnAt, i);
    BlockDay(pickup, i);
  }

  /** The loop body before the addition: filter, sort in place, take the head. */
  method PriceBlock(default: Rate, seasons: seq<SeasonRow>, date: string) returns (dayRate: Rate)
    ensures dayRate == RateOf(default, seasons, Covers(date))
  {
    var candidates := FilterCandidates(seasons, Covers(date));
    SortCandidates(candidates);
    assert candidates[..] == Sorted(Candidates(seasons, Covers(date)));
    dayRate := if candidates.Length > 0 then Some(candidates[0].dailyCents) else default;
  }

  method SumClassRentCents24h(
    defaultDailyCents: Rate, seasons: seq<SeasonRow>, pickup: Instant, returnAt: Instant)
    returns (rent: Rate)
    ensures rent == Rent(defaultDailyCents, seasons, pickup, returnAt)
  {
    hide IsoDateUtc, RateOf, Covers, CountRentalDays24h, Day;
    var numDays := CountRentalDays24h(pickup, returnAt);
    if numDays == 0 {
      return None;
    }
    ghost var rates := Rates(defaultDailyCents, seasons, BilledDates(pickup, returnAt));
    var total := 0;
    for i := 0 to numDays
      invariant Total(rates[..i]) == Some(total)
    {
      BlockRate(defaultDailyCents, seasons, pickup, returnAt, i);
      var t: Instant := pickup + i * MS_PER_DAY;
      var dayRate := PriceBlock(defaultDailyCents, seasons, IsoDateUtc(t));
      TotalNext(rates, i);
      if dayRate == None {
        TotalNullExactly(rates);
        return None;
      }
      total := total + dayRate.value;
    }
    assert rates[..numDays] == rates;
    return Some(total);
  }

  // ---------------------------------------------------------------- what the rent promises

  /** There is no rent exactly when the rental is empty or one of its days has no price. */
  lemma RentNullExactly(default: Rate, seasons: seq<SeasonRow>, pickup: Instant, returnAt: Instant)
    ensures Rent(default, seasons, pickup, returnAt) == None <==>
            returnAt <= pickup
            || exists date :: date in BilledDates(pickup, returnAt)
                              && RateOf(default, seasons, Covers(date)) == None
  {
    hide IsoDateUtc;
    var dates := BilledDates(pickup, returnAt);
    var rates := Rates(default, seasons, dates);
    TotalNullExactly(rates);
    if None in rates {
      var i :| 0 <= i < |rates| && rates[i] == None;
      assert dates[i] in dates;
    }
    if date :| date in dates && RateOf(default, seasons, Covers(date)) == None {
      var i :| 0 <= i < |dates| && dates[i] == date;
      assert rates[i] == None;
    }
  }

  /** The window test as it is meant: a day within an interval of days. */
  function DuringDay(day: int): SeasonRow -> bool {
    (s: SeasonRow) => Day(s.validFrom) <= day <= Day(s.validTo)
  }

  /** The rent with no strings: each day from the day of pickup priced by the intervals that contain it. */
  function RentByIntervals(default: Rate, seasons: seq<SeasonRow>, pickup: Instant, returnAt: Instant): Rate {
    var n := CountRentalDays24h(pickup, returnAt);
    if n == 0 then None else Total(seq(n, i requires 0 <= i < n => RateOf(default, seasons, DuringDay(Day(pickup) + i))))
  }

  predicate FourDigitWindows(seasons: seq<SeasonRow>) {
    forall i :: 0 <= i < |seasons| ==> FourDigitYear(seasons[i].validFrom) && FourDigitYear(seasons[i].validTo)
  }

  lemma RateByIntervals(default: Rate, seasons: seq<SeasonRow>, t: Instant)
    requires FourDigitWindows(seasons) && FourDigitYear(t)
    ensures RateOf(default, seasons, Covers(IsoDateUtc(t))) == RateOf(default, seasons, DuringDay(Day(t)))
  {
    hide IsoDateUtc, FourDigitYear, Sorted;
    forall i | 0 <= i < |seasons|
      ensures Covers(IsoDateUtc(t))(seasons[i]) == DuringDay(Day(t))(seasons[i])
    {
      CoversIsInterval(seasons[i], t);
    }
    SameCandidates(seasons, Covers(IsoDateUtc(t)), DuringDay(Day(t)));
  }

  /** In years 0 to 9999, comparing date strings prices every rental as comparing days would. */
  lemma RentIsByIntervals(default: Rate, seasons: seq<SeasonRow>, pickup: Instant, returnAt: Instant)
    requires FourDigitWindows(seasons) && FourDigitYear(pickup) && FourDigitYear(returnAt)
    ensures Rent(default, seasons, pickup, returnAt) == RentByIntervals(default, seasons, pickup, returnAt)
  {
    hide IsoDateUtc, FourDigitYear, FourDigitWindows, RateOf, Covers, DuringDay;
    var n := CountRentalDays24h(pickup, returnAt);
    var rates := Rates(default, seasons, BilledDates(pickup, returnAt));
    forall i: nat | i < n ensures rates[i] == RateOf(default, seasons, DuringDay(Day(pickup) + i)) {
      var t: Instant := (Day(pickup) + i) * MS_PER_DAY;
      BlockInRange(pickup, returnAt, i);
      FourDigitsBetween(pickup, t, returnAt);
      RateByIntervals(default, seasons, t);
    }
    assert rates == seq(n, i requires 0 <= i < n => RateOf(default, seasons, DuringDay(Day(pickup) + i)));
  }

  /** The time of day of the pickup matters only through the number of rental days. */
  lemma RentDependsOnDateAndCount(
    default: Rate, seasons: seq<SeasonRow>, p: Instant, r: Instant, p': Instant, r': Instant)
    requires FourDigitYear(p) && FourDigitYear(p') && IsoDateUtc(p) == IsoDateUtc(p')
    requires CountRentalDays24h(p, r) == CountRentalDays24h(p', r')
    ensures Rent(default, seasons, p, r) == Rent(default, seasons, p', r')
  {
    hide IsoDateUtc, FourDigitYear, RateOf, MidnightOf, IsDateText;
    DateTextRoundTrip(p);
    DateTextRoundTrip(p');
  }

  /** Splitting a rental at a whole number of days gives two rents that add up to the whole. */
  lemma SplitRent(default: Rate, seasons: seq<SeasonRow>, pickup: Instant, k: nat, returnAt: Instant)
    requires k > 0 && pickup + k * MS_PER_DAY < returnAt
    ensures var mid: Instant := pickup + k * MS_PER_DAY;
            Rent(default, seasons, pickup, returnAt)
            == Plus(Rent(default, seasons, pickup, mid), Rent(default, seasons, mid, returnAt))
  {
    hide IsoDateUtc, BilledDates, RateOf;
    var mid: Instant := pickup + k * MS_PER_DAY;
    var a, b := BilledDates(pickup, mid), BilledDates(mid, returnAt);
    BilledDatesSplit(pickup, k, returnAt);
    assert Rates(default, seasons, a + b) == Rates(default, seasons, a) + Rates(default, seasons, b);
    TotalSplits(Rates(default, seasons, a), Rates(default, seasons, b));
  }

  lemma BilledDatesSplit(pickup: Instant, k: nat, returnAt: Instant)
    requires k > 0 && pickup + k * MS_PER_DAY < returnAt
    ensures var mid: Instant := pickup + k * MS_PER_DAY;
            BilledDates(pickup, returnAt) == BilledDates(pickup, mid) + BilledDates(mid, returnAt)
            && BilledDates(pickup, mid) != [] && BilledDates(mid, returnAt) != []
  {
    hide IsoDateUtc;
    var mid: Instant := pickup + k * MS_PER_DAY;
    CountUnique(pickup, mid, k);
    CountUnique(pickup, returnAt, k + CountRentalDays24h(mid, returnAt));
    BlockDay(pickup, k);
  }

  /** The rent does not depend on the order in which the season rows are given. */
  lemma RentIgnoresOrder(
    default: Rate, a: seq<SeasonRow>, b: seq<SeasonRow>, pickup: Instant, returnAt: Instant)
    requires multiset(a) == multiset(b)
    ensures Rent(default, a, pickup, returnAt) == Rent(default, b, pickup, returnAt)
  {
    forall s ensures s in a <==> s in b {
      assert s in a <==> s in multiset(a);
      assert s in b <==> s in multiset(b);
    }
    var dates := BilledDates(pickup, returnAt);
    forall i | 0 <= i < |dates| ensures Rates(default, a, dates)[i] == Rates(default, b, dates)[i] {
      RateIgnoresOrder(default, a, b, Covers(dates[i]));
    }
    assert Rates(default, a, dates) == Rates(default, b, dates);
  }

  /** The prices after adding an overriding row: its own on the dates it covers, the previous ones elsewhere. */
  function Overridden(default: Rate, seasons: seq<SeasonRow>, row: SeasonRow, dates: seq<string>): (rates: seq<Rate>)
    ensures |rates| == |dates|
  {
    seq(|dates|, i requires 0 <= i < |dates| =>
      if Covers(dates[i])(row) then Some(row.dailyCents) else RateOf(default, seasons, Covers(dates[i])))
  }

  /**
   Adding a row whose priority exceeds all others changes a priced rent by exactly the sum, over the
   billed dates it covers, of its price less the previous one.
   */
  lemma OverrideChangesByGain(
    default: Rate, seasons: seq<SeasonRow>, row: SeasonRow, pickup: Instant, returnAt: Instant)
    requires forall s :: s in seasons ==> s.priority < row.priority
    requires Rent(default, seasons, pickup, returnAt).Some?
    ensures var dates := BilledDates(pickup, returnAt);
            Rent(default, seasons + [row], pickup, returnAt)
            == Some(Rent(default, seasons, pickup, returnAt).value
                    + Gain(Rates(default, seasons, dates), Overridden(default, seasons, row, dates)))
  {
    hide IsoDateUtc, BilledDates, RateOf, Covers, Total, Gain;
    var dates := BilledDates(pickup, returnAt);
    var after := Rates(default, seasons + [row], dates);
    forall i | 0 <= i < |dates| ensures after[i] == Overridden(default, seasons, row, dates)[i] {
      OverrideRate(default, seasons, row, Covers(dates[i]));
    }
    assert after == Overridden(default, seasons, row, dates);
    TotalGains(Rates(default, seasons, dates), after);
  }

  /** A priced rent lies between the rental days at the lowest and at the highest price used. */
  lemma RentBounds(
    default: Rate, seasons: seq<SeasonRow>, pickup: Instant, returnAt: Instant, lo: int, hi: int)
    requires Rent(default, seasons, pickup, returnAt).Some?
    requires Within(Rates(default, seasons, BilledDates(pickup, returnAt)), lo, hi)
    ensures CountRentalDays24h(pickup, returnAt) * lo
            <= Rent(default, seasons, pickup, returnAt).value
            <= CountRentalDays24h(pickup, returnAt) * hi
  {
    TotalBounds(Rates(default, seasons, BilledDates(pickup, returnAt)), lo, hi);
  }

  /** `b` is `a` with some daily prices raised; windows and priorities are the same. */
  predicate Dearer(a: seq<SeasonRow>, b: seq<SeasonRow>) {
    |a| == |b|
    && forall i :: 0 <= i < |a| ==>
         b[i].validFrom == a[i].validFrom && b[i].validTo == a[i].validTo
         && b[i].priority == a[i].priority && b[i].dailyCents >= a[i].dailyCents
  }

  /** Raising daily prices never lowers a rent, nor changes which rentals have one. */
  lemma RaisingPricesNeverLowersRent(
    a: seq<SeasonRow>, b: seq<SeasonRow>, d: Rate, d': Rate, pickup: Instant, returnAt: Instant)
    requires Dearer(a, b) && AtMost(d, d')
    ensures AtMost(Rent(d, a, pickup, returnAt), Rent(d', b, pickup, returnAt))
  {
    forall date ensures DearerOn(a, b, Covers(date)) {
      hide IsoDateUtc;
    }
    DearerRent(a, b, d, d', pickup, returnAt);
  }

  lemma DearerRent(a: seq<SeasonRow>, b: seq<SeasonRow>, d: Rate, d': Rate, pickup: Instant, returnAt: Instant)
    requires forall date :: DearerOn(a, b, Covers(date))
    requires AtMost(d, d')
    ensures AtMost(Rent(d, a, pickup, returnAt), Rent(d', b, pickup, returnAt))
  {
    hide IsoDateUtc, RateOf;
    var dates := BilledDates(pickup, returnAt);
    forall i | 0 <= i < |dates| ensures AtMost(Rates(d, a, dates)[i], Rates(d', b, dates)[i]) {
      RaisedRate(a, b, d, d', Covers(dates[i]));
    }
    TotalMonotone(Rates(d, a, dates), Rates(d', b, dates));
  }

  /** Windows may be cut down to midnight: rows that cover the same dates give the same rent. */
  lemma SameDatesSameRent(a: seq<SeasonRow>, b: seq<SeasonRow>, d: Rate, pickup: Instant, returnAt: Instant)
    requires |a| == |b|
    requires forall i :: 0 <= i < |a| ==>
               Day(a[i].validFrom) == Day(b[i].validFrom) && Day(a[i].validTo) == Day(b[i].validTo)
               && a[i].priority == b[i].priority && a[i].dailyCents == b[i].dailyCents
    ensures Rent(d, a, pickup, returnAt) == Rent(d, b, pickup, returnAt)
  {
    hide IsoDateUtc, Rent;
    forall date: string ensures DearerOn(a, b, Covers(date)) && DearerOn(b, a, Covers(date)) {
      forall i | 0 <= i < |a| ensures Covers(date)(a[i]) == Covers(date)(b[i]) {
        IsoDateOfDay(a[i].validFrom, b[i].validFrom);
        IsoDateOfDay(a[i].validTo, b[i].validTo);
      }
    }
    DearerRent(a, b, d, d, pickup, returnAt);
    DearerRent(b, a, d, d, pickup, returnAt);
  }
}
