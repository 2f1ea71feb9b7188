/**
 * One cleaning run: the four stages in their fixed order, the per-stage
 * removal counters and the numbers of the summary report.
 */
module Pipeline {
  import opened Wrappers
  import opened Sequences
  import opened Email
  import opened Frame
  import opened Stages

  /** A loaded data set: the header's column names and the rows. */
  datatype Table = Table(columns: seq<Column>, rows: seq<Row>)

  /** The numbers written to the summary report, and the data set they describe. */
  datatype Report = Report(
    source: string,
    originalRows: int,
    cleanedRows: int,
    rowsRemoved: int,
    duplicateRows: int,
    missingRequired: int,
    invalidEmail: int,
    invalidDate: int)

  datatype Cleaned = Cleaned(table: Table, report: Report)

  /**
   * The ways a run stops with a `KeyError`. `MissingColumns`: `dropna` was
   * asked for columns the data set does not have. `EmptyEmailMask`: no row
   * reached the email check, so the mask that `apply` builds is an empty
   * series of the column's own type rather than a boolean one; indexing the
   * frame with it selects no columns, and reading `signup_date` afterwards
   * fails.
   */
  datatype Error = MissingColumns(columns: set<Column>) | EmptyEmailMask

  /** Every row of a loaded data set has exactly the header's columns. */
  ghost predicate ValidTable(t: Table)
  {
    forall row | row in t.rows :: forall c :: c in row <==> c in t.columns
  }

  /** The required columns absent from a header. */
  function MissingRequired(columns: seq<Column>): set<Column>
  {
    set c | c in Required && c !in columns
  }

  /** The rows left after all four stages, in the order the source runs them. */
  function CleanRows(rows: seq<Row>, parse: Value -> Option<Date>): seq<Row>
  {
    NormalizeDates(KeepValidEmails(DropNa(Dedupe(rows), Required)), parse)
  }

  /** The row's `signup_date` holds a parsed date. */
  predicate HasDate(row: Row)
  {
    Present(row, SignupDate) && row[SignupDate].value.Stamp?
  }

  /** Stamping a date keeps the required values and the email of a checked row. */
  lemma StampedKeepsChecks(o: Row, row: Row, parse: Value -> Option<Date>)
    requires Stamped(o, row, parse) && Complete(o, Required) && HasValidEmail(o)
    ensures Complete(row, Required) && HasValidEmail(row) && HasDate(row)
  {
    assert CustomerId in Required && EmailColumn in Required && SignupDate in Required;
    assert Present(o, CustomerId) && Present(o, EmailColumn);
    assert row[CustomerId] == o[CustomerId] && row[EmailColumn] == o[EmailColumn];
    forall c | c in Required
      ensures Present(row, c)
    {
      assert c == CustomerId || c == EmailColumn || c == SignupDate;
    }
  }

  /** One surviving row, traced back to the input row it was made from. */
  lemma SurvivorOrigin(rows: seq<Row>, parse: Value -> Option<Date>, row: Row) returns (o: Row)
    requires row in CleanRows(rows, parse)
    ensures o in rows && Stamped(o, row, parse)
    ensures Complete(row, Required) && HasValidEmail(row) && HasDate(row)
  {
    var deduped := Dedupe(rows);
    var complete := DropNa(deduped, Required);
    var checked := KeepValidEmails(complete);
    var kept := Filter(checked, ParsesWith(parse));
    var out := NormalizeDates(checked, parse);
    NormalizeDatesKeepsParsed(checked, parse);
    var k :| 0 <= k < |out| && out[k] == row;
    o := kept[k];
    assert o in kept;
    FilterMembers(checked, ParsesWith(parse));
    assert o in checked;
    assert o in complete;
    assert o in deduped;
    DedupeSameElements(rows);
    StampedKeepsChecks(o, row, parse);
  }

  /**
   * Every row that survives the run comes from an input row whose date
   * parsed; it has all required values, an accepted email and a parsed date.
   */
  lemma CleanRowsGuarantee(rows: seq<Row>, parse: Value -> Option<Date>)
    ensures |CleanRows(rows, parse)| <= |rows|
    ensures forall row: Row | row in CleanRows(rows, parse) ::
      Complete(row, Required) && HasValidEmail(row) && HasDate(row) &&
      exists o | o in rows :: Stamped(o, row, parse)
  {
    forall row: Row | row in CleanRows(rows, parse)
      ensures Complete(row, Required) && HasValidEmail(row) && HasDate(row)
      ensures exists o | o in rows :: Stamped(o, row, parse)
    {
      var o := SurvivorOrigin(rows, parse, row);
    }
  }

  /**
   * The body of the cleaning script between loading and writing: it runs
   * the stages one after another, taking each removal count as the row count
   * before the stage minus the row count after it. A header without one of
   * the required columns makes `dropna` fail, and the run stops there; so
   * does a run in which no row is left for the email check.
   */
  method Clean(source: string, input: Table, parse: Value -> Option<Date>)
    returns (result: Result<Cleaned, Error>)
    requires ValidTable(input)
    ensures result.Failure? <==>
      MissingRequired(input.columns) != {} || DropNa(Dedupe(input.rows), Required) == []
    ensures MissingRequired(input.columns) != {} ==>
      result == Failure(MissingColumns(MissingRequired(input.columns)))
    ensures MissingRequired(input.columns) == {} && DropNa(Dedupe(input.rows), Required) == [] ==>
      result == Failure(EmptyEmailMask)
    ensures result.Success? ==>
      result.value.table == Table(input.columns, CleanRows(input.rows, parse))
    ensures result.Success? ==>
      var r := result.value.report;
      var deduped := Dedupe(input.rows);
      var complete := DropNa(deduped, Required);
      var emailed := KeepValidEmails(complete);
      r.source == source &&
      r.originalRows == |input.rows| &&
      r.cleanedRows == |CleanRows(input.rows, parse)| &&
      r.duplicateRows == |input.rows| - |deduped| &&
      r.missingRequired == |deduped| - |complete| &&
      r.invalidEmail == |complete| - |emailed| &&
      r.invalidDate == |emailed| - |CleanRows(input.rows, parse)|
    ensures result.Success? ==>
      var r := result.value.report;
      r.duplicateRows >= 0 && r.missingRequired >= 0 && r.invalidEmail >= 0 && r.invalidDate >= 0 &&
      r.rowsRemoved == r.originalRows - r.cleanedRows ==
        r.duplicateRows + r.missingRequired + r.invalidEmail + r.invalidDate
  {
    var df := input.rows;
    var originalCount := |df|;

    df := Dedupe(df);
    var countAfterDupes := |df|;
    var dupeCount := originalCount - countAfterDupes;

    var missing := MissingRequired(input.columns);
    if missing != {} {
      return Failure(MissingColumns(missing));
    }
    df := DropNa(df, Required);
    var countAfterRequired := |df|;
    var requiredCount := countAfterDupes - countAfterRequired;
    if df == [] {
      return Failure(EmptyEmailMask);
    }

    df := KeepValidEmails(df);
    var countAfterEmail := |df|;
    var emailCount := countAfterRequired - countAfterEmail;

    df := Map(df, CoerceWith(parse));
    df := DropNa(df, [SignupDate]);
    var countAfterDate := |df|;
    var dateCount := countAfterEmail - countAfterDate;

    var cleanedCount := |df|;
    var report := Report(source, originalCount, cleanedCount, originalCount - cleanedCount,
                         dupeCount, requiredCount, emailCount, dateCount);
    return Success(Cleaned(Table(input.columns, df), report));
  }
}
