/**
 * The data a cleaning run works on: cell values, rows and the text that
 * Python's `str()` gives a value.
 */
module Frame {
  import opened Wrappers

  /** A calendar date as held by a normalised `signup_date` cell. */
  datatype Date = Date(year: int, month: int, day: int)

  /**
   * A non-missing cell: text or an integer as read from the CSV file, or a
   * date written by the date normalisation.
   */
  datatype Value = Text(s: string) | Number(n: int) | Stamp(d: Date)

  type Column = string

  /** A row maps each column to its value; `None` is a missing value (NaN or NaT). */
  type Row = map<Column, Option<Value>>

  const CustomerId: Column := "customer_id"
  const EmailColumn: Column := "email"
  const SignupDate: Column := "signup_date"

  /** The columns a row must have values in to survive the required-field stage. */
  const Required: seq<Column> := [CustomerId, EmailColumn, SignupDate]

  /** The decimal digits of `n`, most significant first. */
  function Digits(n: nat): (r: string)
    ensures |r| > 0
    ensures forall k | 0 <= k < |r| :: '0' <= r[k] <= '9'
  {
    var c := ('0' as int + n % 10) as char;
    if n < 10 then [c] else Digits(n / 10) + [c]
  }

  /** `str(n)` of a Python integer. */
  function Decimal(n: int): string
  {
    if n < 0 then "-" + Digits(-n) else Digits(n)
  }

  /** A month or day number written with at least two digits. */
  function Pad2(n: int): string
  {
    if 0 <= n < 10 then "0" + Digits(n) else Decimal(n)
  }

  /** `str(v)`: the text the email check matches against. */
  function Stringify(v: Value): string
  {
    match v
    case Text(s) => s
    case Number(n) => Decimal(n)
    case Stamp(d) => Decimal(d.year) + "-" + Pad2(d.month) + "-" + Pad2(d.day) + " 00:00:00"
  }

  /** `str()` of a cell; a missing value is the float NaN, which prints as "nan". */
  function CellText(cell: Option<Value>): string
  {
    match cell
    case None => "nan"
    case Some(v) => Stringify(v)
  }

  /** The row has the column and a non-missing value in it. */
  predicate Present(row: Row, c: Column)
  {
    c in row && row[c].Some?
  }

  /** The row has non-missing values in all of `subset`. */
  predicate Complete(row: Row, subset: seq<Column>)
  {
    forall c | c in subset :: Present(row, c)
  }
}
