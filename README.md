# Customer data cleanup: a verified model

This project models the decision logic of the customer-data cleanup script
`clean_data.py`. The script loads a customer table and runs four filters over
it in a fixed order:

1. It drops exact duplicate rows and keeps the first copy of each.
2. It drops rows missing a value in `customer_id`, `email` or `signup_date`.
3. It drops rows whose email does not match `^[^@]+@[^@]+\.[^@]+$`.
4. It parses `signup_date` and drops the rows where parsing fails.

After each stage the script counts the rows it removed, as the row count
before the stage minus the row count after it. These counts form the summary
report.

The model has six modules:

- `Wrappers`: `Option` and `Result`.
- `Sequences`: generic `Filter`, `Map`, the subsequence relation `IsSubseq`,
  and `Dedupe` (keep the first occurrence of each element), with their lemmas.
- `Email`: a hand-written matcher `IsValidEmail`, and `MatchesPattern`, a
  declarative reading of the regular expression. The matcher finds the first
  `@`, checks that nothing after it is another `@`, and searches the part
  after it for a dot with a character on each side.
- `Frame`: cell values (`Text`, `Number`, `Stamp`), rows
  (`map<Column, Option<Value>>`, where `None` is pandas' missing value) and
  Python's `str()` of a value.
- `Stages`: the row filters. `dropna(subset=...)` is `DropNa`; it serves both
  the required-field stage and the final drop of unparsed dates. The email
  filter is `KeepValidEmails`. The date stage `NormalizeDates` rewrites the
  `signup_date` column and then drops the missing dates.
- `Pipeline`: the body of `main` as the method `Clean`. It rebinds the working
  rows stage by stage and keeps the same running counters as the script. It
  returns the cleaned table and a `Report` record holding the summary
  numbers. If the header lacks a required column, `dropna` raises a
  `KeyError` and the run stops; `Clean` returns `Failure(MissingColumns(...))`
  in that case. If no row is left for the email check, the mask built by
  `apply` on the empty `email` column is not boolean, so `df[...]` selects
  columns instead of rows and keeps none; reading `signup_date` then raises a
  `KeyError`. `Clean` returns `Failure(EmptyEmailMask)` in that case. `Clean`
  takes a table whose rows have exactly the header's columns (`ValidTable`),
  as `read_csv` produces.

`Scenario` works through a five-row example. It has one duplicate, one bad
email and one unparseable date, and two rows survive.

Notes on reading the source:

- Python's `$` also matches just before a final newline. A newline is itself a
  non-`@` character, so this does not change which strings are accepted;
  `IsValidEmailCorrect` is stated against the anchored whole-string reading.
- `is_valid_email` calls `str()` on the cell first. A missing value is the
  float NaN, whose text is `"nan"`. Numbers and dates never contain `@`, so
  they are always rejected (`NonTextRejected`, `MissingEmailRejected`).
- The date parser `pd.to_datetime(..., errors="coerce")` is a parameter
  `parse: Value -> Option<Date>`; `None` plays the role of `NaT`.
- A row is a map, so column order is not part of a row. No stage depends on
  column order. The header order is kept in `Table.columns`.
- Row equality in deduplication is structural equality of maps, and two
  missing values are equal. This matches how `drop_duplicates` treats NaN.

## Model

| member | source | states |
|---|---|---|
| `Email.IsValidEmail` | clean_data.py:46-48 | the matcher itself; what it accepts is stated by `IsValidEmailCorrect`, `MatcherSound`, `MatcherComplete`, `AcceptsParts`, `PartsOfAccepted` and `BoundaryCases` below |
| `Email.IsValidEmailCorrect` | clean_data.py:46-48 | the matcher accepts a string exactly when it splits as non-empty `@`-free text, `@`, non-empty `@`-free text, a dot, non-empty `@`-free text, covering the whole string |
| `Email.MatcherSound` | clean_data.py:46-48 | every string the matcher accepts has an `@` and a later dot that split it into three non-empty `@`-free parts |
| `Email.MatcherComplete` | clean_data.py:46-48 | every string with such a split is accepted by the matcher |
| `Email.AcceptsParts` | clean_data.py:46-48 | `x + "@" + y + "." + z` is accepted whenever x, y and z are non-empty and contain no `@` |
| `Email.PartsOfAccepted` | clean_data.py:46-48 | every accepted string is `x + "@" + y + "." + z` for some non-empty, `@`-free x, y and z |
| `Email.BoundaryCases` | clean_data.py:46-48 | any string equal to "a@b.c" is accepted; any string equal to "", "a.b.c", "a@b" or "a@b@c.d" is rejected |
| `Frame.CellText` | clean_data.py:48 | `str()` of a cell: text is itself, a missing value is "nan"; `NonTextRejected` and `MissingEmailRejected` state what this means for the email check |
| `Stages.NonTextRejected` | clean_data.py:48 | after `str()`, a number or a date never passes the email check |
| `Stages.MissingEmailRejected` | clean_data.py:48 | a missing email, whose text is "nan", never passes the email check |
| `Sequences.Dedupe` | clean_data.py:55 | `drop_duplicates()`; the result is never longer than its input, and the five lemmas below fix it as "keep the first copy of each row, in order" |
| `Sequences.DedupeSameElements` | clean_data.py:55 | a row occurs after deduplication exactly when it occurs in the input, so no distinct row is lost and none is invented |
| `Sequences.DedupeDistinct` | clean_data.py:55 | after deduplication no two rows are equal |
| `Sequences.DedupeIsSubseq` | clean_data.py:55 | deduplication keeps the surviving rows in their original relative order |
| `Sequences.DedupeKeepsFirstOccurrences` | clean_data.py:55 | the kept rows appear in the order of their first occurrences in the input, so the first copy of each row is the one kept |
| `Sequences.DedupeOfDistinct` | clean_data.py:55 | rows without duplicates pass through deduplication unchanged |
| `Sequences.DedupeIdempotent` | clean_data.py:55 | deduplicating twice gives the same rows as deduplicating once |
| `Stages.DropNa` | clean_data.py:60 | dropna keeps an order-preserving subsequence. Every survivor has a value in each listed column, and every complete row survives. The removed rows, counted with multiplicity, are exactly the rows missing one of the listed values |
| `Stages.KeepValidEmails` | clean_data.py:65 | the email stage keeps an order-preserving subsequence of exactly the rows whose email passes `is_valid_email`; the removed rows, with multiplicity, are exactly those whose email fails |
| `Stages.CoerceDate` | clean_data.py:71-73 | `to_datetime(..., errors="coerce")` on one row's `signup_date`; stated by `CoerceDateStamps` |
| `Stages.CoerceDateStamps` | clean_data.py:71-74 | after the column rewrite, a row keeps a `signup_date` value exactly when its date parsed, and that value is the parsed date with every other column unchanged |
| `Stages.NormalizeDates` | clean_data.py:71-74 | the date stage, the column rewrite followed by `dropna(subset=["signup_date"])`; stated by `NormalizeDatesKeepsParsed` |
| `Stages.NormalizeDatesKeepsParsed` | clean_data.py:71-74 | the date stage returns, in order, one row for each input row whose date parses. Each output row is that input row with `signup_date` replaced by the parsed date and all other columns unchanged. The number of rows removed is the number of rows whose date does not parse |
| `Pipeline.CleanRows` | clean_data.py:55-74 | the four stages composed in the source's order; stated by `SurvivorOrigin` and `CleanRowsGuarantee` |
| `Pipeline.SurvivorOrigin` | clean_data.py:55-74 | each cleaned row comes from an input row whose date parsed and is that row with its date stamped. It has all three required values, an accepted email and a parsed date |
| `Pipeline.CleanRowsGuarantee` | clean_data.py:52-78 | the cleaned table is no longer than the input, and every row in it satisfies the guarantees of all four stages |
| `Pipeline.Clean` | clean_data.py:50-78 | the run fails exactly when the header lacks a required column (reporting the missing columns) or no row is left for the email check (the `KeyError` at the date stage). Otherwise it returns the four-stage result under the input header. Each counter is the row count before its stage minus the count after it. All four counters are non-negative, and original minus cleaned equals their sum |
| `Scenario.ExampleRun` | clean_data.py:52-76 | on the five-row example, the stages remove 1 duplicate, 0 incomplete rows, 1 bad email and 1 bad date, leaving the first and last customers with parsed dates |
| `Scenario.ExampleSummary` | clean_data.py:82-90 | the report numbers of the example run are 5 original rows, 2 cleaned rows and 3 removed, split 1 / 0 / 1 / 1 |
| `Scenario.HeaderOnlyRun` | clean_data.py:60-72 | a file holding only its header stops with the `KeyError` of the empty email mask, whatever the date parser |

## Left out

- Command-line parsing and input selection (clean_data.py:7-36): the source path is a plain `source` parameter of `Clean`, copied into the report.
- Logging setup and the completion entry (clean_data.py:39-43, 93): these are library side effects with no decisions in them.
- Reading and writing CSV files and the report file (clean_data.py:51, 79, 82-90): file I/O. The input is a `Table` value. The report is the `Report` record; its text lines are not rendered.
- The formats `pd.to_datetime` accepts: `parse` is an arbitrary function applied to each cell. Real pandas infers one format for the whole column from its values, so a cell's result can depend on the other cells. The model does not capture that.
- pandas dtype inference: cells are text, integers or dates. Floating-point cells (and `str()` of floats other than NaN) are not modelled.
- A missing `email` or `signup_date` column would also break later stages, but `dropna` is the first step that fails on it. Only that failure is modelled.
- How dates print in the output CSV. The email check never sees a date.
- Parsed dates keep only the calendar date. `pd.to_datetime` also keeps a time of day and a UTC offset; `Date` has neither, and `Stringify` of a date is `str()` of a timestamp at midnight. No stage or counter depends on the time part.
