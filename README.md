# Bank-transaction cleaning and star-schema derivation, in Dafny

This project models the row-level core shared by the two scripts of a small
ETL job, `runscript.py` (a notebook export) and `production_script.py`. Both
read a file of bank transactions, clean it and derive three dimension tables
of a star schema. The model covers these stages:

1. **Cleaning.** Exact duplicate rows are removed, keeping the first
   occurrence (`drop_duplicates`). Then every row with a missing cell is
   removed (`dropna`).
2. **Century correction.** A birth date on or after the transaction date is
   moved back 100 years with `pd.DateOffset`. If that lands on 29 February of
   a non-leap year, the day becomes 28 February.
3. **Age window.** Two masks keep the rows with
   `tx.year - 100 <= dob.year <= tx.year - 18`. The `Age` column is
   `tx.year - dob.year`, so both bounds are inclusive: `18 <= Age <= 100`.
   `runscript.py` then selects the rows with a negative age. That selection is
   proved empty.
4. **Customer and transaction dimensions.** These are column projections of
   the cleaned table. The only rename is `TransactionAmount (INR)` to
   `TransactionAmount`.
5. **Time dimension.** It has one row per distinct transaction date, in order
   of first appearance. Each row holds year, month, English month name,
   quarter, and the integer key `int(strftime('%Y%m%d'))`.

Dates are `(year, month, day)` triples (`Calendar.Date`), already parsed.
`CalendarDate` is a date that exists in the Gregorian calendar. `Timestamp`
is a `CalendarDate` inside the range of pandas' nanosecond timestamps, which
is what `pd.to_datetime` returns. A missing cell is `Option.None`. So rows
with missing cells in the same columns compare equal, as pandas'
`duplicated` treats `NaN`. The whole-table stages are methods with loops.
Each is proved against a specification function: `Sequences.Distinct` for
`drop_duplicates` and `unique`, and `Sequences.Filter` for boolean masks and
`dropna`. The per-row rules are pure functions.

Modules:

- `Calendar` (calendar.dfy): dates, leap years, month lengths, `DateOffset(years=n)`.
- `Decimal` (decimal.dfy): zero-padded decimal text and reading it back as an integer.
- `Sequences` (sequences.dfy): `Filter`, `Distinct`, subsequences, and the `Select` and `DropDuplicates` scans.
- `Records` (records.dfy): raw rows with optional cells, complete records, `DropMissing`.
- `Ages` (ages.dfy): century correction, cutoff date, age window, the `Age` column.
- `Schema` (schema.dfy): the customer, transaction and time dimensions; column rename; DateID.
- `Pipeline` (pipeline.dfy): the stages chained as both scripts chain them.
- `RunScript` (runscript.dfy) and `ProductionScript` (production_script.dfy): the two scripts' runs.

The comment at runscript.py:62 (production_script.py:49) speaks of ages
"from 18 to 100". The mask at runscript.py:73 (production_script.py:60),
`dob.year >= tx.year - 100`, keeps rows with `Age == 100`, so the upper bound
is inclusive. The model follows the code.

A run can also stop. When `drop_duplicates` and `dropna` leave no row, the
row-wise `apply` of the century correction (runscript.py:66-69,
production_script.py:53-56) works on an empty frame. pandas then returns an
empty float column, `CustomerDOB` loses its date type, and the `.dt` accessor
of the next mask raises `AttributeError`. The model's runs end in
`Outcome.Raised("AttributeError")` in exactly that case, which is exactly
when the input has no complete row. Otherwise they end in
`Outcome.Finished`, holding the cleaned table and the three dimension tables.

## Model

| member | source | states |
|---|---|---|
| Sequences.DropDuplicates | runscript.py:38 | The scan that remembers the rows already seen returns exactly `Distinct(rows)`. |
| Sequences.Distinct | production_script.py:25 | The result has no two equal rows. Every result row occurs in the input, and every input row occurs in the result. It is never longer than the input. |
| Sequences.DistinctKeepsFirstOccurrenceOrder | runscript.py:38 | Kept rows appear in the order of their first occurrences in the input. |
| Sequences.DistinctOfNoDuplicates | runscript.py:38 | A table without duplicates is left unchanged. |
| Sequences.DistinctIdempotent | production_script.py:25 | Removing duplicates twice equals removing them once. |
| Sequences.Filter | runscript.py:73 | A mask keeps exactly the rows it accepts. Every kept row is accepted, and every accepted input row is kept. The result is never longer than the input. |
| Sequences.Select | runscript.py:76 | The scan over a mask returns exactly `Filter(keep, rows)`. |
| Sequences.FilterIsSubsequence | production_script.py:60-63 | A mask only removes rows. The survivors keep their original order (index witness). |
| Sequences.FilterFilter | runscript.py:73-76 | Two masks applied in turn select what their conjunction selects. |
| Sequences.FilterIdempotent | runscript.py:41 | Applying the same mask again removes nothing. |
| Sequences.FilterKeepsNoDuplicates | production_script.py:28 | `dropna` after `drop_duplicates` still leaves no duplicate rows. |
| Sequences.FilterNone | runscript.py:100 | A mask that accepts no row selects the empty table. |
| Records.ToRecord | runscript.py:41 | A complete row converts to a record without losing or changing any cell (`ToRaw` gives the row back). |
| Records.ToRecordOfToRaw | production_script.py:28 | Converting a record to a raw row and back gives the same record. |
| Records.LiftInjective | runscript.py:41 | Two record tables that are equal as raw rows are equal. So `DropMissing`'s contract fixes its result. |
| Records.CompleteRecords | runscript.py:41 | The records of the complete rows, in order. Converted back to raw rows, they are exactly the rows `dropna` keeps. |
| Records.DropMissing | runscript.py:41 | `dropna` returns the complete rows, in order, as records. As raw rows they are exactly `Filter(IsComplete, rows)`, and as records exactly `CompleteRecords(rows)`. |
| Records.DropMissingKeepsExactlyCompleteRows | production_script.py:28 | Every kept record comes from an input row. Every complete input row is kept. No row is added. |
| Records.CleaningIdempotent | runscript.py:38-41 | After `drop_duplicates` then `dropna`, no row is duplicated and no row has a missing cell. Running both steps again changes nothing. |
| Calendar.DaysInMonth | runscript.py:67 | Month lengths are 28 to 31 days. The length is 29 exactly for February of a leap year, and 28 exactly for February of a common year. |
| Calendar.ShiftYears | runscript.py:67 | `DateOffset(years=n)` moves the year by `n` and keeps the month. It keeps the day, except that 29 February becomes 28 when the target year is not a leap year. |
| Calendar.ShiftYearsRoundTrip | production_script.py:54 | Shifting back undoes a shift that did not clamp the day. |
| Calendar.TimestampYearHasFourDigits | runscript.py:159 | Every transaction date pandas can hold has a four-digit year. |
| Ages.CorrectBirthDate | runscript.py:66-69 | A birth date before the transaction date is kept. Any other birth date moves back 100 years in the same month, with 29 February becoming 28 February in a non-leap target year. If the birth year is less than a century after the transaction year, the corrected date precedes the transaction date. |
| Ages.CorrectBirthDateExamples | production_script.py:53-56 | On concrete dates: 2085-01-01 becomes 1985-01-01. 2000-02-29 becomes 1900-02-28. 2004-02-29 on the transaction day becomes 1904-02-29. An earlier birth date is kept. |
| Ages.CorrectBirthDates | production_script.py:53-56 | Overwriting the column keeps the row count and order. Each row changes only its birth date, and only as a function of its own two dates. |
| Ages.Age | runscript.py:81 | `Age = tx.year - dob.year`. The first mask holds exactly when `Age <= 100`, the second exactly when `Age >= 18`, and both exactly when `18 <= Age <= 100`. |
| Ages.AddAge | production_script.py:68 | Adds one fact per row, in order, with `cutoff_date` and `Age`. If every row is inside the window, every age lies in 18..100. |
| Ages.AgeFiltersSelectWindow | runscript.py:71-76 | The two masks in sequence keep exactly the rows inside the window, as a subsequence. Every survivor has `tx.year - 100 <= dob.year <= tx.year - 18`, and its birth date precedes its transaction date. |
| Ages.NoNegativeAges | runscript.py:100 | `df[df['Age'] < -0]` is empty when all ages lie in the window. |
| Decimal.Digits | runscript.py:159 | The decimal text of a number is non-empty and made of digits only. |
| Decimal.ParseDigits | runscript.py:159 | The value of a `k`-digit text is below `10^k`. |
| Decimal.ZeroPad | runscript.py:159 | A number below `10^w` is written in exactly `w` characters (strftime's `%Y`, `%m` and `%d`). Reading the text back gives the number. |
| Decimal.ParseDigitsOfDigits | production_script.py:117 | Reading back the text of a number gives the number. |
| Decimal.DigitsLength | runscript.py:159 | A number below `10^w` needs at most `w` digits. |
| Decimal.ParseDigitsAppend | runscript.py:159 | The value of a concatenation `a + b` is `value(a) * 10^len(b) + value(b)`. |
| Decimal.ParseZeros | runscript.py:159 | Leading zeros carry no value. |
| Schema.Rename | runscript.py:142 | Every column named like the old name takes the new name. Every other column keeps its name and its place. |
| Schema.TransactionColumnsRenamed | production_script.py:100 | The transaction dimension's columns are the selected ones, with only the amount column renamed. |
| Schema.CustomerDimension | runscript.py:133 | One customer row per fact, in the same order. Each cell is copied unchanged. |
| Schema.TransactionDimension | runscript.py:139-142 | One transaction row per fact, in the same order. Each cell is copied unchanged, and the amount is under its new name. |
| Schema.TransactionDates | runscript.py:149 | The transaction-date column holds one date per fact, in order. |
| Schema.MonthNamesDistinct | runscript.py:155 | Different months have different names. |
| Schema.Quarter | runscript.py:156 | The quarter lies in 1..4, and `m` is one of its months: `3(q-1) < m <= 3q`, i.e. `q = (m-1)/3 + 1`. |
| Schema.DateId | runscript.py:159 | `int(strftime('%Y%m%d'))` equals `Year*10000 + Month*100 + Day`. |
| Schema.DateKeyTextValue | production_script.py:117 | The `%Y%m%d` text of a date is all digits, and read as a number it is `Year*10000 + Month*100 + Day`. |
| Schema.DateIdRoundTrip | production_script.py:117 | Splitting the key into `k/10000`, `k/100 % 100` and `k % 100` gives back the date. |
| Schema.DateIdInjective | runscript.py:159 | Distinct dates get distinct keys. |
| Schema.TimeRowOfAttributes | runscript.py:153-159 | Each time row carries its date, the date's year and month (1..12), the English month name, a quarter in 1..4 that contains the month, and the YYYYMMDD key. |
| Schema.AddTimeAttributes | production_script.py:111-117 | Adds one time row per distinct date, in order. |
| Schema.TimeDimensionKeysAreUnique | runscript.py:149-159 | Time rows have pairwise distinct dates and pairwise distinct DateIDs. |
| Schema.TimeDimensionCoversDates | production_script.py:107 | Every time row's date is a transaction date. Every transaction date has a time row, and the rows follow first-appearance order. |
| Schema.BuildTimeDimension | runscript.py:149-159 | `unique()` plus the added columns is exactly `TimeDimension(dates)`: one `TimeRowOf` row per distinct transaction date, in order of first appearance. The rows cover every transaction date and have unique dates and keys. |
| Pipeline.SurvivorsComeFromCompleteRows | runscript.py:38-76 | Every row left after the age masks is the corrected form of some complete input row. |
| Pipeline.WindowRowsSurvive | production_script.py:25-63 | Every complete input row whose corrected form lies inside the age window is still in the table after the masks. |
| Pipeline.FactsOfSurvivors | production_script.py:68 | On rows inside the window, every fact has `Age = tx.year - dob.year` in 18..100 and a birth date before its transaction date. Each row has its fact. |
| Pipeline.PreparedFactsProperties | runscript.py:38-81 | The cleaned table is no longer than the input. Each of its rows has `Age = tx.year - dob.year` in 18..100, the inclusive year bounds, a birth date before the transaction date and `cutoff_date` = 1 January of `tx.year - 100`, and comes from a complete input row. Every complete input row inside the window has its row. |
| Pipeline.CorrectionRaisesExactlyWithoutCompleteRows | runscript.py:66-73 | The century correction receives an empty table exactly when no input row is complete. |
| Pipeline.Prepare | production_script.py:25-68 | The stages raise `AttributeError` exactly when `dropna` leaves no row. Otherwise the result is exactly `PreparedFacts(raw)`: the distinct rows, then the complete ones, corrected, restricted to the age window and given their Age column, in input order. |
| Pipeline.BuildDimensions | production_script.py:91-117 | The tables are exactly `StarSchema(facts)`: the customer projection, the renamed transaction projection and the time dimension over the distinct transaction dates. |
| Pipeline.StarSchemaRowsLineUp | runscript.py:133-149 | Customer and transaction rows line up with the facts index by index, with the same CustomerID and the same age. Every transaction date has its row in the time dimension. |
| Pipeline.StarSchemaTimesAreKeyed | production_script.py:107-117 | Every time row's date is a transaction date. Time rows have pairwise distinct dates and keys, in order of first appearance. |
| Pipeline.ScriptTablesProperties | runscript.py:38-159 | The star schema of the cleaned table keeps every promise of `ScriptPromises`: ages in 18..100, rows derived from complete input rows, every complete in-window input row kept, dimensions aligned, time rows covering the dates with unique dates and keys. |
| Pipeline.CorrectionCanRecreateDuplicates | runscript.py:38-69 | Two different complete input rows can become one and the same cleaned row, because duplicates are removed before the century correction. |
| RunScript.Run | runscript.py:38-159 | The run raises `AttributeError` exactly when no input row is complete. Otherwise its tables are exactly `StarSchema(PreparedFacts(raw))` and keep `ScriptPromises`. The negative-age selection is `Filter(HasNegativeAge, facts)`, and it is empty. |
| ProductionScript.Run | production_script.py:25-117 | The run raises `AttributeError` exactly when no input row is complete. Otherwise the fact table it stores and the three dimensions are exactly `StarSchema(PreparedFacts(raw))`, and they keep `ScriptPromises`. |

## Left out

- Reading the CSV file, and the inspection and display lines (`info`, `head`, `describe`, bare `df`, the printed duplicate count): these are I/O and display only.
- `pd.to_datetime` parsing of the date columns is not modelled: rows arrive with dates already parsed. The source removes duplicate and incomplete rows while the dates are still text, and the model does so on parsed dates. Two spellings of one date are two different rows in the source but cannot be told apart in the model.
- pandas' timestamp range errors are not modelled. A `DateOffset` result before 1677-09-22 makes pandas raise `OutOfBoundsDatetime`, and so does a `cutoff_date` year before 1678. The model computes both dates in the unbounded calendar instead.
- `cutoff_date` is computed for each row when the `Age` column is added, not before the filters. Its value, 1 January of `tx.year - 100`, is the same, and the only filter that uses it reads only its year.
- `datetime.now()`: it is nondeterministic, and its result is never used.
- The group-by mean of amounts per age and the line plot: these are floating-point averaging and display.
- The database layer (engine, session, credentials, every `to_sql`, the chunked append of the fact table): this is driver I/O. `ProductionScript.Run` returns the fact table instead of appending it.
- Balances and amounts are carried as exact numbers (`real`). They are never computed with, so float rounding and `NaN` arithmetic do not arise. A missing amount is `None`.
- `MonthName` is a fixed English table in place of the locale-dependent `strftime('%B')`.
- `reset_index(drop=True)`: a row's index is its position in the sequence.
- The interquartile-range outlier filter, the latest-transaction-per-customer deduplication and the gender filter are not in these two files, so they are not modelled.
