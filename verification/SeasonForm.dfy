/**
 The season rows of the vehicle class form: how saved rows are loaded into text fields, and how the
 fields become the payload that replaces the saved rows.
 */
module SeasonForm {
  import opened Wrappers
  import opened Numerals
  import opened Text
  import opened Decimals
  import opened FormRows
  import opened Calendar
  import opened IsoDates
  import opened SeasonRates
  import opened ClassRent

  /** A row of the form: four text fields. */
  datatype Fields = Fields(validFrom: string, validTo: string, dailyCents: string, priority: string)

  datatype RateItem = RateItem(validFrom: string, validTo: string, dailyCents: int, priority: int)

  datatype FormError = Incomplete | DailyNonNeg | PriorityNonNeg | FromBeforeTo | SchemaIssue

  const EMPTY_SEASON := Fields("", "", "", "0")

  const MAX_RATES := 48

  // ---------------------------------------------------------------- loading

  function IsoToDateInput(s: string): string {
    if |s| >= 10 then s[..10] else s
  }

  /** The fields of a saved row, whose dates arrive as ISO strings. */
  function FieldsOf(r: SeasonRow): Fields {
    Fields(IsoToDateInput(ToIsoString(r.validFrom)), IsoToDateInput(ToIsoString(r.validTo)),
           IntText(r.dailyCents), IntText(r.priority))
  }

  function FieldsOfAll(rows: seq<SeasonRow>): (fields: seq<Fields>)
    ensures |fields| == |rows|
  {
    seq(|rows|, i requires 0 <= i < |rows| => FieldsOf(rows[i]))
  }

  function Load(rows: seq<SeasonRow>): seq<Fields> {
    if |rows| > 0 then FieldsOfAll(rows) else [EMPTY_SEASON]
  }

  // ---------------------------------------------------------------- saving

  predicate Blank(f: Fields) {
    Trim(f.validFrom) == "" && Trim(f.validTo) == "" && Trim(f.dailyCents) == ""
    && (Trim(f.priority) == "" || Trim(f.priority) == "0")
  }

  /** What the form makes of a row that is not blank. */
  function ReadFields(f: Fields): Result<RateItem, FormError> {
    var vf, vt, dc, pr := Trim(f.validFrom), Trim(f.validTo), Trim(f.dailyCents), Trim(f.priority);
    if vf == "" || vt == "" || dc == "" then Err(Incomplete)
    else
      var n := ParseInt(dc);
      if n == None || n.value < 0 then Err(DailyNonNeg)
      else
        var p := if pr == "" then Some(0) else ParseInt(pr);
        if p == None || p.value < 0 then Err(PriorityNonNeg)
        else if StrLt(vt, vf) then Err(FromBeforeTo)
        else Ok(RateItem(vf, vt, n.value, p.value))
  }

  /** The items of the rows in order, blank rows left out; the first row in error decides. */
  function ReadRows(rows: seq<Fields>): Result<seq<RateItem>, FormError> {
    ReadAll(rows, Blank, ReadFields)
  }

  /** The payload schema: at most 48 items, real dates in order, no negative numbers. */
  predicate SchemaAccepts(rates: seq<RateItem>) {
    |rates| <= MAX_RATES
    && forall i :: 0 <= i < |rates| ==>
         IsDateText(rates[i].validFrom) && IsDateText(rates[i].validTo)
         && StrLe(rates[i].validFrom, rates[i].validTo) && rates[i].dailyCents >= 0 && rates[i].priority >= 0
  }

  function Payload(rows: seq<Fields>): Result<seq<RateItem>, FormError> {
    var r := ReadRows(rows);
    if r.Ok? && !SchemaAccepts(r.value) then Err(SchemaIssue) else r
  }

  method BuildSeasonalRatesPayload(rows: seq<Fields>) returns (r: Result<seq<RateItem>, FormError>)
    ensures r == Payload(rows)
  {
    hide IsDateText, ParseInt, Trim, ReadFields, SchemaAccepts;
    var out: seq<RateItem> := [];
    for k := 0 to |rows|
      invariant ReadRows(rows[..k]) == Ok(out)
    {
      assert rows[..k + 1][..k] == rows[..k];
      var row := rows[k];
      var vf, vt, dc, pr := Trim(row.validFrom), Trim(row.validTo), Trim(row.dailyCents), Trim(row.priority);
      if vf == "" && vt == "" && dc == "" && (pr == "" || pr == "0") {
        continue;
      }
      var item := ReadFields(row);
      if item.Err? {
        ErrorDecides(rows, Blank, ReadFields, k + 1);
        return Err(item.error);
      }
      out := out + [item.value];
    }
    assert rows[..|rows|] == rows;
    if !SchemaAccepts(out) {
      return Err(SchemaIssue);
    }
    return Ok(out);
  }

  // ---------------------------------------------------------------- what saving accepts

  /** A row with nothing entered, or only white space, and no priority or the priority 0. */
  predicate EmptyRow(f: Fields) {
    AllSpace(f.validFrom) && AllSpace(f.validTo) && AllSpace(f.dailyCents)
    && (AllSpace(f.priority) || Trim(f.priority) == "0")
  }

  /** The text starts with a number that is not negative. */
  predicate IsAmount(s: string) {
    ParseInt(s).Some? && ParseInt(s).value >= 0
  }

  /** The item that a row stands for. */
  predicate ItemFrom(f: Fields, item: RateItem) {
    && !AllSpace(f.validFrom) && !AllSpace(f.validTo) && !AllSpace(f.dailyCents)
    && item.validFrom == Trim(f.validFrom) && item.validTo == Trim(f.validTo) && StrLe(item.validFrom, item.validTo)
    && ParseInt(Trim(f.dailyCents)) == Some(item.dailyCents) && item.dailyCents >= 0
    && (if AllSpace(f.priority) then item.priority == 0
        else ParseInt(Trim(f.priority)) == Some(item.priority) && item.priority >= 0)
  }

  /** The error of a row that is not empty: the first of these that applies. */
  predicate RowFails(f: Fields, e: FormError) {
    var missing := AllSpace(f.validFrom) || AllSpace(f.validTo) || AllSpace(f.dailyCents);
    var daily := IsAmount(Trim(f.dailyCents));
    var priority := AllSpace(f.priority) || IsAmount(Trim(f.priority));
    match e
    case Incomplete => missing
    case DailyNonNeg => !missing && !daily
    case PriorityNonNeg => !missing && daily && !priority
    case FromBeforeTo => !missing && daily && priority && StrLt(Trim(f.validTo), Trim(f.validFrom))
    case SchemaIssue => false
  }

  lemma BlankMeans(f: Fields)
    ensures Blank(f) <==> EmptyRow(f)
  {
    TrimBlank(f.validFrom);
    TrimBlank(f.validTo);
    TrimBlank(f.dailyCents);
    TrimBlank(f.priority);
    hide Trim, AllSpace;
  }

  lemma ReadFieldsMeans(f: Fields, item: RateItem, e: FormError)
    ensures ReadFields(f) == Ok(item) <==> ItemFrom(f, item)
    ensures ReadFields(f) == Err(e) <==> RowFails(f, e)
  {
    TrimBlank(f.validFrom);
    TrimBlank(f.validTo);
    TrimBlank(f.dailyCents);
    TrimBlank(f.priority);
    hide Trim, AllSpace, ParseInt, StrLt;
  }

  /** An empty row may stand anywhere among the others: saving gives what it gives without it. */
  lemma EmptyRowsDropOut(a: seq<Fields>, f: Fields, b: seq<Fields>)
    requires EmptyRow(f)
    ensures Payload(a + [f] + b) == Payload(a + b)
  {
    BlankMeans(f);
    BlankDropsOut(a, f, b, Blank, ReadFields);
    hide SchemaAccepts, ReadAll;
  }

  /**
   Saving succeeds with certain items exactly if they are those of the rows that are not empty, in
   order, at most 48, and all with real dates.
   */
  lemma PayloadExactly(rows: seq<Fields>, items: seq<RateItem>)
    ensures Payload(rows) == Ok(items) <==>
            Matches(rows, items, EmptyRow, ItemFrom) && |items| <= 48
            && forall i :: 0 <= i < |items| ==> IsDateText(items[i].validFrom) && IsDateText(items[i].validTo)
  {
    assert Reads(Blank, ReadFields, EmptyRow, ItemFrom) by {
      forall f ensures Blank(f) <==> EmptyRow(f) {
        BlankMeans(f);
      }
      forall f, item | !EmptyRow(f) ensures ItemFrom(f, item) <==> ReadFields(f) == Ok(item) {
        ReadFieldsMeans(f, item, Incomplete);
      }
    }
    ReadsExactly(rows, items, Blank, ReadFields, EmptyRow, ItemFrom);
    if Matches(rows, items, EmptyRow, ItemFrom) {
      forall i | 0 <= i < |items|
        ensures StrLe(items[i].validFrom, items[i].validTo) && items[i].dailyCents >= 0 && items[i].priority >= 0
      {
        var k := EveryItemHasRow(rows, items, EmptyRow, ItemFrom, i);
      }
    }
    hide IsDateText, StrLt, ReadAll, Matches, ItemFrom, EmptyRow, Blank, ReadFields;
  }

  /** Saving fails as the first row in error does, and otherwise only by the schema. */
  lemma PayloadFailsExactly(rows: seq<Fields>, e: FormError)
    requires e != SchemaIssue
    ensures Payload(rows) == Err(e) <==> exists k :: FirstError(rows, EmptyRow, RowFails, k, e)
  {
    forall f | f in rows ensures Blank(f) <==> EmptyRow(f) {
      BlankMeans(f);
    }
    forall f, e' | f in rows && !EmptyRow(f) ensures RowFails(f, e') <==> ReadFields(f) == Err(e') {
      ReadFieldsMeans(f, RateItem("", "", 0, 0), e');
    }
    FailsExactly(rows, Blank, ReadFields, EmptyRow, RowFails, e);
    hide SchemaAccepts, ReadAll, FirstError, ReadFields;
  }

  // ---------------------------------------------------------------- what the server stores

  lemma DayInRange(c: Civil)
    requires c.Valid() && 0 <= c.year <= 9999
    ensures -1_000_000 <= DayOfCivil(c) <= 3_000_000
  {
    DateInYear(c);
    hide DaysBeforeMonth, DaysInMonth, Leap;
    NextYear(c.year);
    YearsAscend(0, c.year);
    YearsAscend(c.year + 1, 10_000);
    assert DayFromYear(0) == -719_528 && DayFromYear(10_000) == 2_932_897;
  }

  lemma MidnightIsInstant(s: string)
    requires IsDateText(s)
    ensures -MAX_TIME <= MidnightOf(s) <= MAX_TIME
  {
    FourDigits(s[..4]);
    DayInRange(DateOfFields(s[..4], s[5..7], s[8..]));
    hide DigitsValue, DayOfCivil;
  }

  lemma FourDigits(s: string)
    requires |s| == 4 && AllDigits(s)
    ensures DigitsValue(s) <= 9999
  {
    assert DigitsValue(s[..1]) <= 9 by {
      assert s[..1][..0] == "";
    }
    assert DigitsValue(s[..2]) <= 99 by {
      assert s[..2][..1] == s[..1];
    }
    assert DigitsValue(s[..3]) <= 999 by {
      assert s[..3][..2] == s[..2];
    }
    assert s[..4][..3] == s[..3];
  }

  function Stored(item: RateItem): SeasonRow
    requires IsDateText(item.validFrom) && IsDateText(item.validTo)
  {
    MidnightIsInstant(item.validFrom);
    MidnightIsInstant(item.validTo);
    SeasonRow(MidnightOf(item.validFrom), MidnightOf(item.validTo), item.dailyCents, item.priority)
  }

  function StoredRows(rates: seq<RateItem>): seq<SeasonRow>
    requires SchemaAccepts(rates)
  {
    seq(|rates|, i requires 0 <= i < |rates| => Stored(rates[i]))
  }

  // ---------------------------------------------------------------- the round trip

  /** Rows as the schema admits them, with any time of day in their dates. */
  predicate WellFormedRow(r: SeasonRow) {
    FourDigitYear(r.validFrom) && FourDigitYear(r.validTo) && Day(r.validFrom) <= Day(r.validTo)
    && r.dailyCents >= 0 && r.priority >= 0
  }

  function ItemOf(r: SeasonRow): RateItem {
    RateItem(IsoDateUtc(r.validFrom), IsoDateUtc(r.validTo), r.dailyCents, r.priority)
  }

  /** One item a row, with the window as dates. */
  function ItemsOf(rows: seq<SeasonRow>): (items: seq<RateItem>)
    ensures |items| == |rows|
  {
    seq(|rows|, i requires 0 <= i < |rows| => ItemOf(rows[i]))
  }

  lemma DateTextTrimmed(s: string)
    requires IsDateText(s)
    ensures s != "" && Trim(s) == s
  {
    assert s[..4][0] == s[0] && s[8..][1] == s[9];
    TrimOfTrimmed(s);
  }

  /** The text fields of dates in order and of non-negative numbers are read back. */
  lemma ReadBack(vf: string, vt: string, n: int, p: int)
    requires vf != "" && Trim(vf) == vf && Trim(vt) == vt && vt != "" && StrLe(vf, vt) && n >= 0 && p >= 0
    ensures var f := Fields(vf, vt, IntText(n), IntText(p));
            !Blank(f) && ReadFields(f) == Ok(RateItem(vf, vt, n, p))
  {
    ParseIntText(n);
    ParseIntText(p);
    TrimOfTrimmed(IntText(n));
    TrimOfTrimmed(IntText(p));
    hide Trim, ParseInt, IntText, StrLt;
  }

  /** The dates of a well-formed row, as text. */
  lemma WindowText(r: SeasonRow)
    requires WellFormedRow(r)
    ensures var vf, vt := IsoDateUtc(r.validFrom), IsoDateUtc(r.validTo);
            IsDateText(vf) && IsDateText(vt) && StrLe(vf, vt)
            && MidnightOf(vf) == Day(r.validFrom) * MS_PER_DAY && MidnightOf(vt) == Day(r.validTo) * MS_PER_DAY
  {
    hide IsoDateUtc, IsDateText, MidnightOf, StrLt;
    DateTextRoundTrip(r.validFrom);
    DateTextRoundTrip(r.validTo);
    IsoOrderFourDigits(r.validFrom, r.validTo);
  }

  lemma RowRoundTrip(r: SeasonRow)
    requires WellFormedRow(r)
    ensures !Blank(FieldsOf(r)) && ReadFields(FieldsOf(r)) == Ok(ItemOf(r))
  {
    hide ToIsoString, IsDateText, Trim, ReadFields, Blank, StrLt, FourDigitYear, IntText, MidnightOf;
    var vf, vt := IsoDateUtc(r.validFrom), IsoDateUtc(r.validTo);
    WindowText(r);
    DateTextTrimmed(vf);
    DateTextTrimmed(vt);
    ReadBack(vf, vt, r.dailyCents, r.priority);
    assert FieldsOf(r) == Fields(vf, vt, IntText(r.dailyCents), IntText(r.priority));
  }

  lemma {:induction false} RowsRoundTrip(rows: seq<SeasonRow>)
    requires forall i :: 0 <= i < |rows| ==> WellFormedRow(rows[i])
    ensures ReadRows(FieldsOfAll(rows)) == Ok(ItemsOf(rows))
  {
    hide FieldsOf, ItemOf, ReadFields, Blank, WellFormedRow;
    if rows != [] {
      var n := |rows| - 1;
      RowsRoundTrip(rows[..n]);
      assert FieldsOfAll(rows)[..n] == FieldsOfAll(rows[..n]);
      assert ItemsOf(rows) == ItemsOf(rows[..n]) + [ItemOf(rows[n])];
      RowRoundTrip(rows[n]);
    }
  }

  lemma ItemAccepted(r: SeasonRow)
    requires WellFormedRow(r)
    ensures var item := ItemOf(r);
            IsDateText(item.validFrom) && IsDateText(item.validTo) && StrLe(item.validFrom, item.validTo)
            && item.dailyCents >= 0 && item.priority >= 0
  {
    WindowText(r);
    hide IsoDateUtc, IsDateText, StrLt, MidnightOf, FourDigitYear;
  }

  lemma ItemsAccepted(rows: seq<SeasonRow>)
    requires |rows| <= MAX_RATES && forall i :: 0 <= i < |rows| ==> WellFormedRow(rows[i])
    ensures SchemaAccepts(ItemsOf(rows))
  {
    hide ItemOf, WellFormedRow, IsDateText, StrLt;
    forall i | 0 <= i < |rows| {
      ItemAccepted(rows[i]);
    }
  }

  /** A class without season rows is loaded as one empty row. */
  lemma LoadNothing()
    ensures |Load([])| == 1 && EmptyRow(Load([])[0])
  {
    TrimOfTrimmed("0");
  }

  /** Loading well-formed rows and saving them unchanged succeeds, with one item a row. */
  lemma LoadThenSave(rows: seq<SeasonRow>)
    requires |rows| <= MAX_RATES && forall i :: 0 <= i < |rows| ==> WellFormedRow(rows[i])
    ensures Payload(Load(rows)) == Ok(ItemsOf(rows))
  {
    ItemsAccepted(rows);
    hide SchemaAccepts, ReadFields, FieldsOf, ItemOf, WellFormedRow;
    if rows == [] {
      assert Blank(EMPTY_SEASON) && [EMPTY_SEASON][..0] == [];
      assert ReadRows([EMPTY_SEASON]) == ReadRows([]) == Ok([]);
      assert ItemsOf(rows) == [];
    } else {
      RowsRoundTrip(rows);
    }
  }

  lemma StoredDays(r: SeasonRow)
    requires WellFormedRow(r)
    ensures var item := ItemOf(r);
            IsDateText(item.validFrom) && IsDateText(item.validTo)
            && Day(Stored(item).validFrom) == Day(r.validFrom) && Day(Stored(item).validTo) == Day(r.validTo)
  {
    hide IsoDateUtc, IsDateText, MidnightOf, FourDigitYear, StrLt;
    WindowText(r);
    MidnightDay(Day(r.validFrom));
    MidnightDay(Day(r.validTo));
  }

  lemma MidnightDay(day: int)
    ensures Day(day * MS_PER_DAY) == day
  {
  }

  /** Opening the form and saving it without a change leaves every rent as it was. */
  lemma SavingUnchangedKeepsRent(
    rows: seq<SeasonRow>, default: Option<int>, pickup: Instant, returnAt: Instant)
    requires |rows| <= MAX_RATES && forall i :: 0 <= i < |rows| ==> WellFormedRow(rows[i])
    ensures var saved := Payload(Load(rows));
            saved.Ok? && SchemaAccepts(saved.value)
            && Rent(default, StoredRows(saved.value), pickup, returnAt) == Rent(default, rows, pickup, returnAt)
  {
    LoadThenSave(rows);
    ItemsAccepted(rows);
    hide Rent, IsoDateUtc, Payload, Load, IsDateText, MidnightOf, WellFormedRow, Day;
    var stored := StoredRows(ItemsOf(rows));
    forall i | 0 <= i < |rows|
      ensures Day(stored[i].validFrom) == Day(rows[i].validFrom) && Day(stored[i].validTo) == Day(rows[i].validTo)
    {
      StoredDays(rows[i]);
    }
    SameDatesSameRent(stored, rows, default, pickup, returnAt);
  }
}
