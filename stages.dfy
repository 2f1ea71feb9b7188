/**
 * The three row filters of a cleaning run after deduplication: dropping rows
 * with missing values, dropping rows whose email does not match the pattern,
 * and parsing `signup_date` and dropping the rows where that fails.
 */
module Stages {
  import opened Wrappers
  import opened Sequences
  import opened Email
  import opened Frame

  /** The predicate `Complete(_, subset)` as a value. */
  function CompleteIn(subset: seq<Column>): Row -> bool
  {
    row => Complete(row, subset)
  }

  /**
   * `dropna(subset=...)`: drops every row with a missing value in one of the
   * columns of `subset`, keeping the others in order.
   */
  function DropNa(rows: seq<Row>, subset: seq<Column>): (r: seq<Row>)
    ensures |r| <= |rows|
    ensures IsSubseq(r, rows)
    ensures forall row | row in r :: row in rows && Complete(row, subset)
    ensures forall row | row in rows && Complete(row, subset) :: row in r
    ensures multiset(rows) == multiset(r) + multiset(Filter(rows, Not(CompleteIn(subset))))
  {
    FilterMembers(rows, CompleteIn(subset));
    FilterIsSubseq(rows, CompleteIn(subset));
    FilterPartition(rows, CompleteIn(subset));
    Filter(rows, CompleteIn(subset))
  }

  /** `is_valid_email` applied to the row's `email` cell, after `str()`. */
  predicate HasValidEmail(row: Row)
  {
    EmailColumn in row && IsValidEmail(CellText(row[EmailColumn]))
  }

  /** Keeps the rows whose email is accepted, in order. */
  function KeepValidEmails(rows: seq<Row>): (r: seq<Row>)
    ensures |r| <= |rows|
    ensures IsSubseq(r, rows)
    ensures forall row | row in r :: row in rows && HasValidEmail(row)
    ensures forall row | row in rows && HasValidEmail(row) :: row in r
    ensures multiset(rows) == multiset(r) + multiset(Filter(rows, Not(HasValidEmail)))
  {
    FilterMembers(rows, HasValidEmail);
    FilterIsSubseq(rows, HasValidEmail);
    FilterPartition(rows, HasValidEmail);
    Filter(rows, HasValidEmail)
  }

  lemma NoAtConcat(a: string, b: string)
    requires NoAt(a) && NoAt(b)
    ensures NoAt(a + b)
  {
    forall k | 0 <= k < |a + b|
      ensures (a + b)[k] != '@'
    {
      if k >= |a| {
        assert (a + b)[k] == b[k - |a|];
      }
    }
  }

  lemma DecimalHasNoAt(n: int)
    ensures NoAt(Decimal(n)) && NoAt(Pad2(n))
  {
    NoAtConcat("-", Digits(if n < 0 then -n else n));
    if 0 <= n < 10 {
      NoAtConcat("0", Digits(n));
    }
  }

  /**
   * A number or a date never passes the email check: its text has no `@`.
   * Such values fail the pattern like any malformed address.
   */
  lemma NonTextRejected(v: Value)
    requires !v.Text?
    ensures !IsValidEmail(Stringify(v))
  {
    match v
    case Number(n) =>
      DecimalHasNoAt(n);
    case Stamp(d) =>
      DecimalHasNoAt(d.year);
      DecimalHasNoAt(d.month);
      DecimalHasNoAt(d.day);
      NoAtConcat(Decimal(d.year), "-");
      NoAtConcat(Decimal(d.year) + "-", Pad2(d.month));
      NoAtConcat(Decimal(d.year) + "-" + Pad2(d.month), "-");
      NoAtConcat(Decimal(d.year) + "-" + Pad2(d.month) + "-", Pad2(d.day));
      NoAtConcat(Decimal(d.year) + "-" + Pad2(d.month) + "-" + Pad2(d.day), " 00:00:00");
  }

  /** A missing email is the text "nan" and is rejected. */
  lemma MissingEmailRejected(row: Row)
    requires EmailColumn in row && row[EmailColumn].None?
    ensures !HasValidEmail(row)
  {
    assert NoAt("nan");
  }

  /** `to_datetime(..., errors="coerce")` on one cell: unparseable text becomes missing. */
  function ParseCell(cell: Option<Value>, parse: Value -> Option<Date>): Option<Value>
  {
    match cell
    case None => None
    case Some(v) =>
      match parse(v)
      case None => None
      case Some(d) => Some(Stamp(d))
  }

  /** Rewrites the row's `signup_date` cell with its parsed form. */
  function CoerceDate(row: Row, parse: Value -> Option<Date>): Row
  {
    if SignupDate in row then row[SignupDate := ParseCell(row[SignupDate], parse)] else row
  }

  function CoerceWith(parse: Value -> Option<Date>): Row -> Row
  {
    row => CoerceDate(row, parse)
  }

  /**
   * The date stage as the source runs it: rewrite the whole `signup_date`
   * column, then drop the rows left with a missing date.
   */
  function NormalizeDates(rows: seq<Row>, parse: Value -> Option<Date>): seq<Row>
  {
    DropNa(Map(rows, CoerceWith(parse)), [SignupDate])
  }

  /** The row has a `signup_date` value that parses. */
  predicate Parses(row: Row, parse: Value -> Option<Date>)
  {
    Present(row, SignupDate) && parse(row[SignupDate].value).Some?
  }

  function ParsesWith(parse: Value -> Option<Date>): Row -> bool
  {
    row => Parses(row, parse)
  }

  /**
   * `after` is `before` with its parseable `signup_date` replaced by the
   * parsed date, and every other column unchanged.
   */
  ghost predicate Stamped(before: Row, after: Row, parse: Value -> Option<Date>)
  {
    Parses(before, parse) &&
    after.Keys == before.Keys &&
    after[SignupDate] == Some(Stamp(parse(before[SignupDate].value).value)) &&
    forall c | c in before && c != SignupDate :: after[c] == before[c]
  }

  /** Rewriting a row leaves its date present exactly when it parses, stamped as parsed. */
  lemma CoerceDateStamps(row: Row, parse: Value -> Option<Date>)
    ensures Complete(CoerceDate(row, parse), [SignupDate]) == Parses(row, parse)
    ensures Parses(row, parse) ==> Stamped(row, CoerceDate(row, parse), parse)
  {
    assert Complete(CoerceDate(row, parse), [SignupDate]) == Present(CoerceDate(row, parse), SignupDate);
  }

  /**
   * The date stage keeps exactly the rows whose date parses, in order and
   * with their multiplicity, and stamps each of them with its parsed date.
   */
  lemma NormalizeDatesKeepsParsed(rows: seq<Row>, parse: Value -> Option<Date>)
    ensures var kept := Filter(rows, ParsesWith(parse));
            |NormalizeDates(rows, parse)| == |kept| &&
            |rows| - |kept| == |Filter(rows, Not(ParsesWith(parse)))| &&
            forall k | 0 <= k < |kept| :: Stamped(kept[k], NormalizeDates(rows, parse)[k], parse)
  {
    var kept := Filter(rows, ParsesWith(parse));
    forall x | x in rows
      ensures CompleteIn([SignupDate])(CoerceWith(parse)(x)) == ParsesWith(parse)(x)
    {
      CoerceDateStamps(x, parse);
    }
    FilterMap(rows, CoerceWith(parse), CompleteIn([SignupDate]), ParsesWith(parse));
    assert NormalizeDates(rows, parse) == Map(kept, CoerceWith(parse));
    FilterPartition(rows, ParsesWith(parse));
    assert |multiset(rows)| == |multiset(kept)| + |multiset(Filter(rows, Not(ParsesWith(parse))))|;
    forall k | 0 <= k < |kept|
      ensures Stamped(kept[k], NormalizeDates(rows, parse)[k], parse)
    {
      assert kept[k] in kept;
      CoerceDateStamps(kept[k], parse);
    }
  }
}
