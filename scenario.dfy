/** A worked run over five rows: one duplicate, one bad email and one bad date. */
module Scenario {
  import opened Wrappers
  import opened Sequences
  import opened Email
  import opened Frame
  import opened Stages
  import opened Pipeline

  function Customer(id: int, email: string, date: string): Row
  {
    map[CustomerId := Some(Number(id)), EmailColumn := Some(Text(email)), SignupDate := Some(Text(date))]
  }

  /** A date parser that knows the three dates of the example. */
  function ExampleParse(v: Value): Option<Date>
  {
    if v == Text("2024-01-01") then Some(Date(2024, 1, 1))
    else if v == Text("2024-01-02") then Some(Date(2024, 1, 2))
    else if v == Text("2024-01-03") then Some(Date(2024, 1, 3))
    else None
  }

  const First: Row := Customer(1, "a@b.com", "2024-01-01")
  const BadEmail: Row := Customer(2, "bad", "2024-01-02")
  const BadDate: Row := Customer(3, "c@d.com", "not-a-date")
  const Last: Row := Customer(4, "e@f.com", "2024-01-03")

  const ExampleRows: seq<Row> := [First, First, BadEmail, BadDate, Last]

  /** Deduplication with one more element at the end. */
  lemma DedupeSnoc<T>(s: seq<T>, x: T)
    ensures Dedupe(s + [x]) == if x in s then Dedupe(s) else Dedupe(s) + [x]
  {
    assert (s + [x])[..|s|] == s;
  }

  lemma DedupeOfExample<T>(a: T, c: T, d: T, e: T)
    requires a != c && a != d && a != e && c != d && c != e && d != e
    ensures Dedupe([a, a, c, d, e]) == [a, c, d, e]
  {
    var s1 := [a];
    var s2 := s1 + [a];
    var s3 := s2 + [c];
    var s4 := s3 + [d];
    var s5 := s4 + [e];
    assert s5 == [a, a, c, d, e];
    DedupeSnoc([], a);
    assert [] + [a] == s1;
    DedupeSnoc(s1, a);
    DedupeSnoc(s2, c);
    DedupeSnoc(s3, d);
    DedupeSnoc(s4, e);
  }

  lemma KeepAllFour<T>(a: T, b: T, c: T, d: T, p: T -> bool)
    requires p(a) && p(b) && p(c) && p(d)
    ensures Filter([a, b, c, d], p) == [a, b, c, d]
  {
    var s1 := [d];
    var s2 := [c] + s1;
    var s3 := [b] + s2;
    assert [a] + s3 == [a, b, c, d];
    FilterCons(d, [], p);
    assert Filter(s1, p) == s1;
    FilterCons(c, s1, p);
    FilterCons(b, s2, p);
    FilterCons(a, s3, p);
  }

  lemma DropSecondOfFour<T>(a: T, b: T, c: T, d: T, p: T -> bool)
    requires p(a) && !p(b) && p(c) && p(d)
    ensures Filter([a, b, c, d], p) == [a, c, d]
  {
    var s1 := [d];
    var s2 := [c] + s1;
    var s3 := [b] + s2;
    assert [a] + s3 == [a, b, c, d];
    FilterCons(d, [], p);
    assert Filter(s1, p) == s1;
    FilterCons(c, s1, p);
    assert Filter(s2, p) == s2;
    FilterCons(b, s2, p);
    assert Filter(s3, p) == s2;
    FilterCons(a, s3, p);
    assert [a] + s2 == [a, c, d];
  }

  lemma DropSecondOfThree<T>(a: T, b: T, c: T, p: T -> bool)
    requires p(a) && !p(b) && p(c)
    ensures Filter([a, b, c], p) == [a, c]
  {
    var s1 := [c];
    var s2 := [b] + s1;
    assert [a] + s2 == [a, b, c];
    FilterCons(c, [], p);
    assert Filter(s1, p) == s1;
    FilterCons(b, s1, p);
    FilterCons(a, s2, p);
  }

  lemma ExampleRowsDistinct(a: Row, c: Row, d: Row, e: Row)
    requires a == First && c == BadEmail && d == BadDate && e == Last
    ensures a != c && a != d && a != e && c != d && c != e && d != e
  {
    assert a[CustomerId] == Some(Number(1)) && c[CustomerId] == Some(Number(2));
    assert d[CustomerId] == Some(Number(3)) && e[CustomerId] == Some(Number(4));
  }

  lemma ExampleRowsComplete(a: Row, c: Row, d: Row, e: Row)
    requires a == First && c == BadEmail && d == BadDate && e == Last
    ensures Complete(a, Required) && Complete(c, Required) && Complete(d, Required) && Complete(e, Required)
  {
  }

  /** An address of the form `x@y.com` with `@`-free x and y. */
  lemma AcceptsDotCom(s: string, x: char, y: char)
    requires s == [x, '@', y, '.', 'c', 'o', 'm'] && x != '@' && y != '@'
    ensures IsValidEmail(s)
  {
    assert s[..1] == [x] && s[2..3] == [y] && s[4..] == "com";
    MatcherComplete(s, 1, 3);
  }

  lemma AcceptsRowEmail(row: Row, x: char, y: char)
    requires EmailColumn in row && row[EmailColumn] == Some(Text([x, '@', y, '.', 'c', 'o', 'm'])) && x != '@' && y != '@'
    ensures HasValidEmail(row)
  {
    AcceptsDotCom(CellText(row[EmailColumn]), x, y);
  }

  lemma ExampleRowsEmails(a: Row, c: Row, d: Row, e: Row)
    requires a == First && c == BadEmail && d == BadDate && e == Last
    ensures HasValidEmail(a) && !HasValidEmail(c) && HasValidEmail(d) && HasValidEmail(e)
  {
    AcceptsRowEmail(a, 'a', 'b');
    AcceptsRowEmail(d, 'c', 'd');
    AcceptsRowEmail(e, 'e', 'f');
    RejectsBad(c);
  }

  lemma RejectsBad(row: Row)
    requires EmailColumn in row && row[EmailColumn] == Some(Text("bad"))
    ensures !HasValidEmail(row)
  {
    assert NoAt(CellText(row[EmailColumn]));
  }

  lemma MapThree<T, U>(a: T, b: T, c: T, f: T -> U)
    ensures Map([a, b, c], f) == [f(a), f(b), f(c)]
  {
    assert [a, b, c][1..] == [b, c];
    assert [b, c][1..] == [c];
  }

  lemma ExampleStamps()
    ensures CoerceDate(First, ExampleParse) == First[SignupDate := Some(Stamp(Date(2024, 1, 1)))]
    ensures CoerceDate(BadDate, ExampleParse) == BadDate[SignupDate := None]
    ensures CoerceDate(Last, ExampleParse) == Last[SignupDate := Some(Stamp(Date(2024, 1, 3)))]
  {
  }

  lemma ExampleDates(a: Row, d: Row, e: Row)
    requires a == First && d == BadDate && e == Last
    ensures NormalizeDates([a, d, e], ExampleParse) == [
      a[SignupDate := Some(Stamp(Date(2024, 1, 1)))],
      e[SignupDate := Some(Stamp(Date(2024, 1, 3)))]]
  {
    var stamp := CoerceWith(ExampleParse);
    MapThree(a, d, e, stamp);
    ExampleStamps();
    var p := CompleteIn([SignupDate]);
    assert SignupDate in [SignupDate];
    assert p(stamp(a)) && !p(stamp(d)) && p(stamp(e));
    DropSecondOfThree(stamp(a), stamp(d), stamp(e), p);
  }

  /**
   * The run keeps one copy of the first customer and the last customer, and
   * removes one duplicate, no incomplete row, one bad email and one bad date.
   */
  lemma ExampleRun(rows: seq<Row>)
    requires rows == ExampleRows
    ensures |rows| - |Dedupe(rows)| == 1
    ensures |Dedupe(rows)| - |DropNa(Dedupe(rows), Required)| == 0
    ensures |DropNa(Dedupe(rows), Required)| - |KeepValidEmails(DropNa(Dedupe(rows), Required))| == 1
    ensures |KeepValidEmails(DropNa(Dedupe(rows), Required))| - |CleanRows(rows, ExampleParse)| == 1
    ensures CleanRows(rows, ExampleParse) == [
      First[SignupDate := Some(Stamp(Date(2024, 1, 1)))],
      Last[SignupDate := Some(Stamp(Date(2024, 1, 3)))]]
  {
    var a, c, d, e := First, BadEmail, BadDate, Last;
    ExampleRowsDistinct(a, c, d, e);
    DedupeOfExample(a, c, d, e);
    ExampleRowsComplete(a, c, d, e);
    KeepAllFour(a, c, d, e, CompleteIn(Required));
    ExampleRowsEmails(a, c, d, e);
    DropSecondOfFour(a, c, d, e, HasValidEmail);
    ExampleDates(a, d, e);
  }

  /** A row of the example has exactly the three required columns. */
  lemma CustomerColumns(row: Row, id: int, email: string, date: string)
    requires row == Customer(id, email, date)
    ensures forall c :: c in row <==> c in Required
  {
  }

  /** A table of such rows is one a CSV file with that header loads as. */
  lemma ExampleTableValid(a: Row, c: Row, d: Row, e: Row, columns: seq<Column>)
    requires forall k :: k in a <==> k in columns
    requires forall k :: k in c <==> k in columns
    requires forall k :: k in d <==> k in columns
    requires forall k :: k in e <==> k in columns
    ensures ValidTable(Table(columns, [a, a, c, d, e]))
  {
  }

  /** The summary report of the example run over a file with the three required columns. */
  method ExampleSummary() returns (report: Report)
    ensures report == Report("customers.csv", 5, 2, 3, 1, 0, 1, 1)
  {
    var a, c, d, e := First, BadEmail, BadDate, Last;
    CustomerColumns(a, 1, "a@b.com", "2024-01-01");
    CustomerColumns(c, 2, "bad", "2024-01-02");
    CustomerColumns(d, 3, "c@d.com", "not-a-date");
    CustomerColumns(e, 4, "e@f.com", "2024-01-03");
    ExampleTableValid(a, c, d, e, Required);
    var input := Table(Required, ExampleRows);
    assert MissingRequired(input.columns) == {};
    ExampleRun(input.rows);
    var result := Clean("customers.csv", input, ExampleParse);
    report := result.value.report;
  }

  /** A file that holds only its header stops at the date stage with a `KeyError`. */
  method HeaderOnlyRun(parse: Value -> Option<Date>) returns (result: Result<Cleaned, Error>)
    ensures result == Failure(EmptyEmailMask)
  {
    var input := Table(Required, []);
    assert MissingRequired(input.columns) == {};
    result := Clean("customers.csv", input, parse);
  }
}
