# Cleaning step of the climate dashboard, in Dafny

The dashboard (`streamlit_app.py`) draws its charts from one function,
`standardize_and_clean`. It takes a table with unknown column names and returns
a table with two guaranteed columns:

- a `date` column of timestamps;
- a numeric `value` column.

Every other column is kept. The function works in this order:

1. **Find the date column.** An existing `date` column is kept. Otherwise the
   first column whose lower-cased name contains `date`, `day` or `time` is
   renamed `date`.
2. **Make sure there is a date.** The `date` column is converted to timestamps,
   and cells that fail become missing. Without any date column, a `year`
   column becomes midnight of January 1 of each row's year; this conversion
   raises if some year does not parse. With no `year` column either, row `i`
   is dated today minus `i` days; this raises if those days leave the range
   of `datetime64[ns]`.
3. **Find the value column.** An existing `value` column is kept. Otherwise
   the first numeric column is renamed `value`, and failing that the last
   column is.
4. **Convert the value column** to numbers. Cells that fail become missing.
5. **Drop incomplete rows:** rows with a missing date or value. This raises if
   `date` or `value` is no longer a column.
6. **Drop future rows:** rows dated after today, compared by calendar day.
7. **Drop exact duplicate rows,** keeping the first occurrence.
8. **Sort by date.**

The model is split into modules:

- `Frame` is the data model: cells, columns with a dtype kind, and tables.
- `Cleaning` holds the steps and the whole function, `Cleaning.Standardize`.
  It returns `Result<Table, Error>`, and the three ways `standardize_and_clean`
  raises are the three `Error` values.
- `Text`, `Calendar` and `Sequences` hold the name matching, the day
  arithmetic, and filtering, deduplication and sorting.
- `Properties` relates the output to the input. It covers:
  - which rows survive, and how often;
  - where the dates come from;
  - exactly when the function raises;
  - that cleaning a cleaned table changes nothing;
  - two worked examples.

Some of the Python function's context becomes parameters:

- The wall clock (`LOCAL_TODAY`, `streamlit_app.py:46`) is the parameter
  `today`, a day number counted from 1970-01-01.
- Timestamps are nanoseconds since the same epoch, as in pandas'
  `datetime64[ns]`.
- The three conversions pandas performs are the function-typed fields of a
  `Parsers` value:
  - `to_datetime(..., errors='coerce')`;
  - `to_numeric(..., errors='coerce')`;
  - parsing `"<year>-01-01"` strings.

The model follows what the code does, including where that goes beyond the
function's docstring (`streamlit_app.py:261-267`), which lists only `date`,
`value` and an optional `group` as the standard columns and says nothing about
failures:

- All input columns are kept, not only `date`, `value` and `group`.
  Deduplication compares whole rows.
- The function is not total. It raises in three cases:
  - dating by `year`, some row's year does not parse. A year outside the
    range below also makes pandas raise there, so the `toYear` parser yields
    nothing for it;
  - dating by counting back, the table is too long: day `today - i` must
    lie in 1677-09-22 .. 2262-04-11, the days whose midnight a signed 64-bit
    count of nanoseconds can hold (`Cleaning.CountdownFits`). On 2026-10-08
    that allows up to 127,486 rows;
  - once dated, there is no `value` column, no numeric column, and `date` is
    the last column. The last-column fallback then renames `date` to
    `value`, and `dropna` finds no `date` column
    (`Properties.DateColumnLostIff`). It does not matter where `date` came
    from. Text columns `name` and `Date` raise this way, because `Date` is
    renamed `date` and is last. A made-up `date` is always last, so every
    table with no date-like, `value` or numeric column raises too.
- A table headed `날짜`/`온도` over text cells therefore raises instead of
  being cleaned (`Properties.KoreanHeadersRaise`), unless it is too long
  to count back from today, in which case the range error comes first.
- `sort_values` is not a stable sort. Only "sorted and a permutation" is
  promised, never the order of rows with equal dates.

## Model

| member | source | states |
|---|---|---|
| Cleaning.IsDateLike | streamlit_app.py:273 | A name is date-like iff `date`, `day` or `time` occurs in it at some position when letters are compared ignoring case |
| Cleaning.RenameDateLike | streamlit_app.py:270-275 | Renaming keeps the rows and every column's kind; any column whose name is not `date` is unchanged |
| Cleaning.RenameKeepsExistingDate | streamlit_app.py:270 | A table that already has a `date` column is returned unchanged |
| Cleaning.RenameFirstDateLike | streamlit_app.py:272-275 | Without `date`, the first date-like column, and no other, is renamed `date` and keeps its kind |
| Cleaning.RenameWithoutHint | streamlit_app.py:272-275 | With no `date` column and no date-like name, nothing is renamed |
| Cleaning.NotDateLike | streamlit_app.py:273 | A name without `d`/`D`/`t`/`T` never matches the `date`/`day`/`time` test |
| Cleaning.DateCell | streamlit_app.py:278 | A converted date cell is a timestamp exactly when the parser reads one, and then it is that timestamp; otherwise it is missing |
| Cleaning.Countdown | streamlit_app.py:285 | One stamp per row; stamp `i` is a midnight falling on day `today - i`, so the stamps strictly decrease; all of them fit in 64-bit nanoseconds iff `CountdownFits` holds |
| Cleaning.CountdownFitsIff | streamlit_app.py:285 | Checking the first and last day of the countdown is the same as checking every stamp against the 64-bit range |
| Calendar.StampRangeIff | streamlit_app.py:285 | A day lies in 1677-09-22 .. 2262-04-11 iff its midnight fits in a signed 64-bit count of nanoseconds |
| Cleaning.EnsureDate | streamlit_app.py:276-285 | On success there is a `date` column of Temporal kind holding only timestamps or missing cells, one row per input row; the only failures are an unparsable year and made-up dates out of range |
| Cleaning.DateFromExisting | streamlit_app.py:277-278 | An existing `date` column is converted cell by cell in place; the other columns and cells are unchanged |
| Cleaning.YearStamps | streamlit_app.py:281-282 | Stamps exist exactly when every row's year parses, and each is midnight of January 1 of that row's year |
| Cleaning.DateFromYear | streamlit_app.py:281-282 | From `year`, the step succeeds iff every year parses, failing with the year error; `date` is appended last with January-1 midnights and existing cells are untouched |
| Cleaning.DateFromCountdown | streamlit_app.py:283-285 | Without `date` or `year`, the step succeeds iff the countdown fits the date range, failing with the range error; row `i` gets midnight of `today` minus `i` days in a new last column |
| Cleaning.ResolveValue | streamlit_app.py:287-294 | Afterwards `value` exists. It is the existing `value`, else the first Numeric column, else the last column; no other column changes and no row changes |
| Cleaning.ValueCell | streamlit_app.py:296 | A converted value cell is a number exactly when the parser reads one, and then it is that number; otherwise it is missing |
| Cleaning.CoerceValue | streamlit_app.py:296 | `value` becomes Numeric and each of its cells is the parsed number or missing; every other cell is unchanged |
| Cleaning.Prepare | streamlit_app.py:268-296 | Before any row is dropped: row count unchanged, `value` exists and is Numeric with numbers or missing cells, any `date` column is Temporal with timestamps or missing cells; fails only on an unparsable year or made-up dates out of range |
| Cleaning.DropMissing | streamlit_app.py:298 | Fails iff `date` or `value` is not a column, naming the missing one. Otherwise each row with both cells present keeps its multiplicity and the rest are gone |
| Cleaning.DropFuture | streamlit_app.py:300 | Each row whose timestamp falls on `today` or earlier keeps its multiplicity; every other row is gone |
| Cleaning.DropDuplicates | streamlit_app.py:302 | No duplicate rows remain, and exactly the distinct input rows are present |
| Cleaning.SortByDate | streamlit_app.py:303 | Output is a permutation of the input rows, ordered by the `date` timestamp |
| Cleaning.Standardize | streamlit_app.py:260-304 | Success gives a table with a Temporal `date` and a Numeric `value`. Every row is complete and not after `today`, rows are distinct and sorted by date. Failure is the year error, the range error or the missing-`date` error, nothing else |
| Cleaning.CleanedRowsSurvive | streamlit_app.py:298-303 | Every output row is a converted input row with date and value present and a date not after `today`; columns are the converted ones |
| Properties.SurvivingRows | streamlit_app.py:296-303 | A converted row appears in the output exactly once iff its date and value are present and its date is on or before `today`; no other row appears |
| Properties.FutureCutoff | streamlit_app.py:300 | The future filter keeps a row iff its timestamp is before midnight at the start of tomorrow |
| Properties.ExistingDateColumnKept | streamlit_app.py:270-278 | With a `date` column, no column is renamed and only `date` is converted, in place |
| Properties.FirstDateLikeColumnRenamed | streamlit_app.py:270-278 | Without `date`, the first date-like column becomes a converted `date`; every other column keeps its name |
| Properties.YearDatesAreJanuaryFirst | streamlit_app.py:270-282 | With no date source and parsable years, each row gains midnight of January 1 of its year as a new last column |
| Properties.CountdownDates | streamlit_app.py:283-285 | With no date source and no `year`, the date step succeeds iff the countdown fits the date range; then row `i` falls on day `today - i`, so the made-up dates strictly decrease down the table |
| Properties.YearFailureIff | streamlit_app.py:281-282 | Dating by `year`, the function raises the year error iff some row's year does not parse |
| Properties.DateColumnLostIff | streamlit_app.py:287-298 | Once dated, the function fails iff there is no `value` column, no Numeric column, and `date` is last; the failure is then the missing `date` |
| Properties.ValueFallbackTakesDate | streamlit_app.py:287-294 | The value step renames away `date` iff there is no `value` column, no Numeric column, and `date` is the last column |
| Properties.MadeUpDateTakenAsValue | streamlit_app.py:281-298 | A table with no date source, no `value` and no Numeric column always fails once its date is made up: with the missing-`date` error, or with the range error when counted-back dates do not fit |
| Properties.CleaningIsIdempotent | streamlit_app.py:260-304 | With converters that keep converted cells, cleaning a cleaned table succeeds and gives the same columns and the same rows as a multiset |
| Properties.KoreanHeadersRaise | streamlit_app.py:270-298 | Columns `날짜`/`온도` of non-numeric kind make the function raise, for any rows: the missing-`date` error, or the range error when the rows are too many to count back |
| Properties.DuplicateYearRowsCollapse | streamlit_app.py:260-304 | Two identical rows dated by a parsable past year become one row, dated January 1 of that year, with its value converted |
| Frame.Rename | streamlit_app.py:274 | Only column `k` changes, and only its name; rows are untouched, and renaming to a fresh name keeps the table well formed |
| Frame.MapColumn | streamlit_app.py:278 | Names and all other columns stay; each cell of column `k` becomes `f` of the old cell, every other cell is unchanged; well-formedness is kept |
| Frame.AppendColumn | streamlit_app.py:282-285 | The old columns and cells stay in place; the new column comes last with one given cell per row; a fresh name keeps the table well formed |
| Sequences.Filter | streamlit_app.py:298-300 | Each element satisfying the predicate keeps its multiplicity; every other element is gone |
| Sequences.Dedup | streamlit_app.py:302 | Result has no duplicates and holds exactly the elements of the input |
| Sequences.DedupKeepsFirstOccurrences | streamlit_app.py:302 | Survivors appear in the order of their first occurrences in the input |
| Sequences.DedupNoDuplicates | streamlit_app.py:302 | On a sequence without duplicates, deduplication is the identity |
| Sequences.SortBy | streamlit_app.py:303 | Result is sorted by the key and is a permutation of the input |
| Text.Lower | streamlit_app.py:273 | Same length; every character is the lower-case form of the input character at that position |
| Text.ContainsLowerIff | streamlit_app.py:273 | Searching the lower-cased name finds a hint iff the hint occurs in the name compared ignoring case |
| Text.ContainsIff | streamlit_app.py:273 | The substring test holds iff the pattern occurs at some position |
| Calendar.OnOrBeforeIff | streamlit_app.py:300 | A timestamp's day is at most `today` iff the timestamp is before the start of `today + 1` |
| Calendar.JanFirstEpoch | streamlit_app.py:282 | January 1, 1970 is day 0 |
| Calendar.YearLength | streamlit_app.py:282 | Consecutive January firsts are 365 days apart, or 366 in a Gregorian leap year |

## Left out

- The rest of the dashboard: page layout, fonts, data fetching over the network, synthetic data generators, charts, CSV export and caching. None of it feeds the cleaning step except as the input table.
- The wall clock: `today` is a parameter.
- How pandas parses dates and numbers: the parsers are parameters, one cell at a time. pandas may infer one format for a whole column, which is not modelled.
- Unicode lower-casing: `Text.Lower` folds ASCII letters only. Python's `str.lower` also folds other scripts, which can matter only for non-ASCII names that lower-case to `date`, `day` or `time`.
- Duplicate and non-string column labels: tables are required to have distinct string names, which is what the dashboard's sources produce.
- The index: the countdown dates are aligned by position. The Python code builds them as a new Series with a default index, so a table with a non-default index would get them realigned, or missing.
- The `group` column and any other extra column: carried along unchanged, as in the code.
- Floating-point infinities, NaN as a number, and the sign of zero: `real` has none of them, and missing cells are a separate `Missing` value.
- Time zones: all timestamps are naive, as in the Python code.
- Unhashable cell values, which would make `drop_duplicates` raise: cells here are always comparable.
- Cleaning.SortByDate: makes no claim about the order of rows with equal timestamps, because `sort_values` uses an unstable sort by default. The model sorts by insertion, and that particular order is not part of any contract.
- Properties.CleaningIsIdempotent: states equality of the rows as a multiset, not as a sequence, because rows with equal dates may be reordered by the unstable sort.
- Properties.KoreanHeadersRaise: the headers are checked against the ASCII lower-casing of this model. Python would not lower-case them either.
- Which range error: one error value, `DateOutOfRange`, stands for both ways Python fails on a long countdown. `LOCAL_TODAY - timedelta(days=i)` at `streamlit_app.py:285` raises OverflowError from 739,898 rows on 2026-10-08, before the conversion runs. The `datetime64[ns]` conversion on the same line raises OutOfBoundsDatetime from 127,487 rows on that day. The model raises once the second bound is passed, which covers the first.
- Cleaning.YearStamps: assumes `toYear` yields the year of the January 1 that pandas reads from `str(cell) + "-01-01"`. That is right for four-digit years. For one- or two-digit year cells, dateutil's month-first reading gives another day, for example `12-01-01` is read as 2001-12-01. Such cells are not modelled.
- Cleaning.DateFromYear: the January-1 dates rest on the same four-digit-year assumption as `Cleaning.YearStamps`.
- Properties.YearDatesAreJanuaryFirst: the January-1 dates rest on the same four-digit-year assumption as `Cleaning.YearStamps`.
