/** Extra lines and damage fees in the desk's reservation forms: text fields and the sums over them. */
module ReservationForms {
  import opened Wrappers
  import opened Text
  import opened Decimals
  import opened FormRows

  // ---------------------------------------------------------------- extra lines

  datatype ExtraLine = ExtraLine(caption: string, amountCents: int)

  datatype ExtraFields = ExtraFields(caption: string, amountCents: string)

  datatype ExtraError = Incomplete | BadAmount

  function LoadLines(lines: seq<ExtraLine>): (rows: seq<ExtraFields>)
    ensures |rows| == |lines|
  {
    seq(|lines|, i requires 0 <= i < |lines| => ExtraFields(lines[i].caption, IntText(lines[i].amountCents)))
  }

  function ReadLine(row: ExtraFields): Result<ExtraLine, ExtraError> {
    var lab, ac := Trim(row.caption), Trim(row.amountCents);
    if lab == "" || ac == "" then Err(Incomplete)
    else
      var n := ParseInt(ac);
      if n == None || n.value < 0 then Err(BadAmount) else Ok(ExtraLine(lab, n.value))
  }

  predicate BlankLine(row: ExtraFields) {
    Trim(row.caption) == "" && Trim(row.amountCents) == ""
  }

  function ReadLines(rows: seq<ExtraFields>): Result<seq<ExtraLine>, ExtraError> {
    ReadAll(rows, BlankLine, ReadLine)
  }

  method BuildExtraLinePayload(rows: seq<ExtraFields>) returns (r: Result<seq<ExtraLine>, ExtraError>)
    ensures r == ReadLines(rows)
  {
    hide ParseInt, Trim;
    var lines: seq<ExtraLine> := [];
    for k := 0 to |rows|
      invariant ReadLines(rows[..k]) == Ok(lines)
    {
      assert rows[..k + 1][..k] == rows[..k];
      var lab, ac := Trim(rows[k].caption), Trim(rows[k].amountCents);
      if lab == "" && ac == "" {
        continue;
      }
      if lab == "" || ac == "" {
        ErrorDecides(rows, BlankLine, ReadLine, k + 1);
        return Err(Incomplete);
      }
      var n := ParseInt(ac);
      if n == None || n.value < 0 {
        ErrorDecides(rows, BlankLine, ReadLine, k + 1);
        return Err(BadAmount);
      }
      lines := lines + [ExtraLine(lab, n.value)];
    }
    assert rows[..|rows|] == rows;
    return Ok(lines);
  }

  // ---------------------------------------------------------------- what saving accepts

  predicate EmptyLine(row: ExtraFields) {
    AllSpace(row.caption) && AllSpace(row.amountCents)
  }

  predicate LineFrom(row: ExtraFields, line: ExtraLine) {
    !AllSpace(row.caption) && !AllSpace(row.amountCents)
    && line.caption == Trim(row.caption) && ParseInt(Trim(row.amountCents)) == Some(line.amountCents)
    && line.amountCents >= 0
  }

  predicate LineFails(row: ExtraFields, e: ExtraError) {
    var missing := AllSpace(row.caption) || AllSpace(row.amountCents);
    match e
    case Incomplete => missing
    case BadAmount =>
      !missing && (ParseInt(Trim(row.amountCents)) == None || ParseInt(Trim(row.amountCents)).value < 0)
  }

  lemma LineMeans(row: ExtraFields, line: ExtraLine, e: ExtraError)
    ensures BlankLine(row) <==> EmptyLine(row)
    ensures ReadLine(row) == Ok(line) <==> LineFrom(row, line)
    ensures ReadLine(row) == Err(e) <==> LineFails(row, e)
  {
    TrimBlank(row.caption);
    TrimBlank(row.amountCents);
    hide Trim, AllSpace, ParseInt;
  }

  /** An empty line may stand anywhere. */
  lemma EmptyLinesDropOut(a: seq<ExtraFields>, row: ExtraFields, b: seq<ExtraFields>)
    requires EmptyLine(row)
    ensures ReadLines(a + [row] + b) == ReadLines(a + b)
  {
    LineMeans(row, ExtraLine("", 0), Incomplete);
    BlankDropsOut(a, row, b, BlankLine, ReadLine);
  }

  /** The payload holds the lines of the rows that are not empty, in order. */
  lemma LinesExactly(rows: seq<ExtraFields>, lines: seq<ExtraLine>)
    ensures ReadLines(rows) == Ok(lines) <==> Matches(rows, lines, EmptyLine, LineFrom)
  {
    assert Reads(BlankLine, ReadLine, EmptyLine, LineFrom) by {
      forall row ensures BlankLine(row) <==> EmptyLine(row) {
        LineMeans(row, ExtraLine("", 0), Incomplete);
      }
      forall row, line | !EmptyLine(row) ensures LineFrom(row, line) <==> ReadLine(row) == Ok(line) {
        LineMeans(row, line, Incomplete);
      }
    }
    ReadsExactly(rows, lines, BlankLine, ReadLine, EmptyLine, LineFrom);
  }

  /** Or fails as the first line in error does. */
  lemma LinesFailExactly(rows: seq<ExtraFields>, e: ExtraError)
    ensures ReadLines(rows) == Err(e) <==> exists k :: FirstError(rows, EmptyLine, LineFails, k, e)
  {
    forall row | row in rows ensures BlankLine(row) <==> EmptyLine(row) {
      LineMeans(row, ExtraLine("", 0), e);
    }
    forall row, e' | row in rows && !EmptyLine(row) ensures LineFails(row, e') <==> ReadLine(row) == Err(e') {
      LineMeans(row, ExtraLine("", 0), e');
    }
    FailsExactly(rows, BlankLine, ReadLine, EmptyLine, LineFails, e);
  }

  // ---------------------------------------------------------------- the round trip

  predicate SavedLine(line: ExtraLine) {
    line.caption != "" && Trimmed(line.caption) && line.amountCents >= 0
  }

  lemma LineRoundTrip(line: ExtraLine)
    ensures var row := ExtraFields(line.caption, IntText(line.amountCents));
            Trim(row.amountCents) != "" && (ReadLine(row) == Ok(line) <==> SavedLine(line))
  {
    ParseIntText(line.amountCents);
    TrimOfTrimmed(IntText(line.amountCents));
    TrimOfTrimmed(line.caption);
    hide Trim, ParseInt, IntText;
  }

  predicate AllSaved(lines: seq<ExtraLine>) {
    forall i :: 0 <= i < |lines| ==> SavedLine(lines[i])
  }

  lemma AllSavedSnoc(lines: seq<ExtraLine>)
    requires lines != []
    ensures AllSaved(lines) <==> AllSaved(lines[..|lines| - 1]) && SavedLine(lines[|lines| - 1])
  {
  }

  lemma SnocEqual<T>(a: seq<T>, x: T, b: seq<T>)
    requires b != [] && |a| + 1 == |b|
    ensures a + [x] == b <==> a == b[..|b| - 1] && x == b[|b| - 1]
  {
    if a + [x] == b {
      assert (a + [x])[..|a|] == a && (a + [x])[|a|] == x;
    }
  }

  /** Loading lines and rebuilding the payload is the identity exactly on the lines that saving can produce. */
  lemma {:induction false} ExtraLinesRoundTrip(lines: seq<ExtraLine>)
    ensures ReadLines(LoadLines(lines)) == Ok(lines) <==> AllSaved(lines)
    ensures ReadLines(LoadLines(lines)).Ok? ==> |ReadLines(LoadLines(lines)).value| == |lines|
  {
    if lines != [] {
      hide ReadLine, ReadLines, LoadLines, SavedLine, AllSaved, Trim, IntText;
      var front, last := lines[..|lines| - 1], lines[|lines| - 1];
      ExtraLinesRoundTrip(front);
      LineRoundTrip(last);
      AllSavedSnoc(lines);
      ReadLoadedSnoc(lines);
      var before, line := ReadLines(LoadLines(front)), ReadLine(ExtraFields(last.caption, IntText(last.amountCents)));
      if before.Ok? && line.Ok? {
        SnocEqual(before.value, line.value, lines);
      }
    } else {
      assert LoadLines(lines) == [];
    }
  }

  /** Loading one more line reads one more line. */
  lemma ReadLoadedSnoc(lines: seq<ExtraLine>)
    requires lines != []
    ensures var last := lines[|lines| - 1];
            var before := ReadLines(LoadLines(lines[..|lines| - 1]));
            var line := ReadLine(ExtraFields(last.caption, IntText(last.amountCents)));
            ReadLines(LoadLines(lines))
            == if before.Err? then before
               else if line.Err? then Err(line.error) else Ok(before.value + [line.value])
  {
    assert LoadLines(lines)[..|lines| - 1] == LoadLines(lines[..|lines| - 1]);
    LineRoundTrip(lines[|lines| - 1]);
    hide ReadLine, Trim, IntText;
  }

  // ---------------------------------------------------------------- damage fees

  /** The fee fields of a damage report: one field a line, and a single blank one without lines. */
  function LoadFees(report: Option<seq<Option<int>>>): seq<string> {
    if report.Some? && |report.value| > 0 then FieldsOfFees(report.value) else [""]
  }

  function FieldOfFee(fee: Option<int>): string {
    if fee.Some? then IntText(fee.value) else ""
  }

  function FieldsOfFees(fees: seq<Option<int>>): (fields: seq<string>)
    ensures |fields| == |fees|
  {
    seq(|fees|, i requires 0 <= i < |fees| => FieldOfFee(fees[i]))
  }

  /** A loaded field parses to its fee, and is blank exactly without one; a report without lines has one blank field. */
  lemma LoadedFees(fees: seq<Option<int>>, i: nat)
    ensures LoadFees(None) == LoadFees(Some([])) == [""]
    ensures i < |fees| ==>
              |LoadFees(Some(fees))| == |fees| && ParseInt(LoadFees(Some(fees))[i]) == fees[i]
              && (LoadFees(Some(fees))[i] == "" <==> fees[i] == None)
  {
    if i < |fees| && fees[i].Some? {
      ParseIntText(fees[i].value);
      hide ParseInt, IntText;
    }
  }

  function FeeValue(fee: Option<int>): nat {
    if fee.Some? && fee.value > 0 then fee.value else 0
  }

  /** The sum shown on the reservation form, from the saved report. */
  method SumDamageLineEstimatedFees(report: Option<seq<Option<int>>>) returns (s: int)
    ensures s == if report.Some? then Sum(report.value, FeeValue) else 0
  {
    if report == None || |report.value| == 0 {
      return 0;
    }
    s := 0;
    for k := 0 to |report.value|
      invariant s == Sum(report.value[..k], FeeValue)
    {
      SumNext(report.value, k, FeeValue);
      var c := report.value[k];
      if c.Some? && c.value > 0 {
        s := s + c.value;
      }
    }
    assert report.value[..|report.value|] == report.value;
  }

  /** What a fee field adds to the sum of the operations panel. */
  function FieldValue(fee: string): nat {
    var n := ParseInt(Trim(fee));
    if Trim(fee) == "" || n == None || n.value < 0 then 0 else n.value
  }

  /** The sum shown on the operations panel, from its text fields. */
  method SumDmgLineFeeInputs(fees: seq<string>) returns (s: int)
    ensures s == Sum(fees, FieldValue)
  {
    hide Trim, ParseInt;
    s := 0;
    for k := 0 to |fees|
      invariant s == Sum(fees[..k], FieldValue)
    {
      SumNext(fees, k, FieldValue);
      var raw := Trim(fees[k]);
      if raw == "" {
        continue;
      }
      var n := ParseInt(raw);
      if n.Some? && n.value >= 0 {
        s := s + n.value;
      }
    }
    assert fees[..|fees|] == fees;
  }

  /** A fee anywhere in a report adds what it is if it is positive, and nothing otherwise. */
  lemma FeeAdds(a: seq<Option<int>>, fee: Option<int>, b: seq<Option<int>>)
    ensures Sum([], FeeValue) == 0
    ensures Sum(a + [fee] + b, FeeValue)
            == Sum(a + b, FeeValue) + (if fee.Some? && fee.value > 0 then fee.value else 0)
  {
    SumAdds(a, fee, b, FeeValue);
  }

  /** A fee field anywhere adds the non-negative number that it starts with, and nothing if there is none. */
  lemma FieldAdds(a: seq<string>, fee: string, b: seq<string>)
    ensures Sum([], FieldValue) == 0
    ensures Sum(a + [fee] + b, FieldValue)
            == Sum(a + b, FieldValue)
               + (match ParseInt(Trim(fee))
                  case None => 0
                  case Some(n) => if AllSpace(fee) || n < 0 then 0 else n)
  {
    TrimBlank(fee);
    hide ParseInt, Trim, AllSpace;
    SumAdds(a, fee, b, FieldValue);
  }

  lemma FieldOfFeeValue(fee: Option<int>)
    ensures FieldValue(FieldOfFee(fee)) == FeeValue(fee)
  {
    if fee.Some? {
      ParseIntText(fee.value);
      TrimOfTrimmed(IntText(fee.value));
    }
  }

  lemma {:induction false} SameSums(fees: seq<Option<int>>)
    ensures Sum(FieldsOfFees(fees), FieldValue) == Sum(fees, FeeValue)
  {
    hide FieldOfFee, FieldValue, FeeValue;
    if fees != [] {
      var front := fees[..|fees| - 1];
      SameSums(front);
      assert FieldsOfFees(fees)[..|fees| - 1] == FieldsOfFees(front);
      FieldOfFeeValue(fees[|fees| - 1]);
    }
  }

  /** The two sums agree on every saved report, whatever the sign of its fees. */
  lemma FeeSumsAgree(report: Option<seq<Option<int>>>)
    ensures Sum(LoadFees(report), FieldValue) == if report.Some? then Sum(report.value, FeeValue) else 0
  {
    if report.Some? && |report.value| > 0 {
      SameSums(report.value);
    } else {
      assert [""][..0] == [];
    }
  }
}
