# Rate history conversion, modelled in Dafny

RateHistoryConverter reads a wide rate sheet:

- The header row holds one month per column, from column D (index 3) on.
- Every data row holds a PROC code, two optional modifiers MOD and MOD2, and one rate per month.
- The sheet is converted into effective-date spans. A span is a stretch of months with the same rate, from the first day of its first month to the day before the next month. A stretch still running at the last column ends on 9999-12-31.
- The spans of each row are stored in a map under a key built from PROC, MOD and MOD2. A later row with the same key replaces an earlier one.

The model follows the Java code of
`src/main/java/splittherates/ratespan/RateHistoryConverter.java` branch by branch.

- `Cells`:
  - the cell kinds the converter distinguishes;
  - `getStringCellValue`;
  - the two cell classifiers: `getRateFromCell` and `parseDateFromHeader`.
- `Text`: Java's `String.trim`.
- `Dates`:
  - Gregorian calendar dates;
  - `LocalDate.minusDays(1)`;
  - the open-end date 9999-12-31.
- `Runs`: the compaction loop as a fold over column indices.
  - The fold yields exactly the decomposition of the row into maximal runs of equal present rates.
  - That decomposition is unique.
- `Spans`:
  - the spans of a row, which are the runs turned into dates;
  - every property of them: ordering, start not after end, no overlap, coverage of exactly the months with a rate, the open end on the last span only, merging of equal neighbours, and a gap giving two spans.
- `Converter`:
  - `generateRateSpansForRow` as a function, `RowSpans`;
  - as a method, `GenerateRateSpansForRow`, written statement by statement with the Java loop's `lastRate`/`spanStart` variables. It is proved equal to `RowSpans`.
- `KeyedTable`: the `HashMap.put` sequence, where the last put of a key wins.
- `Conversion`:
  - `main` without its I/O;
  - the header dates, the key of a row, and the whole table.
- `Scenarios`: worked rows, derived from the general theorems.

The failures of the Java code are modelled as a `Result` error:

- a missing PROC cell, header row or header cell (`NullPointerException`);
- `getStringCellValue` on a numeric or other cell;
- a header cell that is not a string or whose text neither month format accepts;
- a data row with more month columns than the header has dates (`dates.get` out of bounds).

Behaviour of the code worth knowing:

- **Header cells.** A header cell is accepted only as a string cell holding a month name, "MMM yyyy" first, then "MMMM yyyy". A date stored as a number in a header cell fails (`Scenarios.NumericHeaderCellRejected`).
- **Keys.** The key is a string, not a tuple. A present but blank MOD cell adds "-" while an absent one adds nothing, so the two give different keys (`Conversion.AbsentAndBlankModifierKeys`). A MOD-only row and a MOD2-only row with the same text share a key (`Conversion.ModifierKeysCollide`).
- **Key order.** The map is a `HashMap`, so keys have no order.
- **Blank PROC.** A blank PROC is not rejected; it gives the code "".
- **End dates.** A span ends on the day before the month that closes it, computed by `minusDays(1)`. The run 10, 10, blank, 12 over January to April 2024 ends its first span on 2024-02-29, the day before 2024-03-01 (`Scenarios.MergeGapAndOpenEnd`).

Two kinds of external input are parameters of the model:

- The rate type is a parameter `R`. `Double.parseDouble` is a parameter `parseNumber: string -> Option<R>`, which is `None` where it throws.
- The two `DateTimeFormatter`s are parameters `abbreviated` and `full: string -> Option<YearMonth>`.

## Model

| member | source | states |
|---|---|---|
| Text.Trim | src/main/java/splittherates/ratespan/RateHistoryConverter.java:123-125 | the trimmed string neither starts nor ends with a char at or below U+0020 |
| Text.TrimCuts | src/main/java/splittherates/ratespan/RateHistoryConverter.java:123-125 | trimming removes only chars at or below U+0020, only from the two ends: the result is a middle slice of the input |
| Text.TrimIdempotent | src/main/java/splittherates/ratespan/RateHistoryConverter.java:82 | trimming an already trimmed string changes nothing |
| Dates.PrevDay | src/main/java/splittherates/ratespan/RateHistoryConverter.java:150 | the day before a date is strictly earlier and valid when the date is |
| Dates.PrevDayIsPredecessor | src/main/java/splittherates/ratespan/RateHistoryConverter.java:150 | no valid date lies strictly between a date and the day before it |
| Dates.PrevDayInjective | src/main/java/splittherates/ratespan/RateHistoryConverter.java:150 | distinct valid dates have distinct previous days |
| Cells.StringValue | src/main/java/splittherates/ratespan/RateHistoryConverter.java:123 | getStringCellValue succeeds exactly on blank cells (giving "") and string cells (giving their text); a null cell fails with NullCell |
| Cells.RateFromCell | src/main/java/splittherates/ratespan/RateHistoryConverter.java:102-118 | a cell has a rate exactly when it is numeric, or a string whose trimmed text parses; the rate is the stored number or the parsed value; null, blank, unparseable and other cells give none |
| Cells.ParseDateFromHeader | src/main/java/splittherates/ratespan/RateHistoryConverter.java:80-99 | a header cell parses exactly when it is a string cell whose trimmed text one of the two month formats accepts; the abbreviated format is tried first and decides when it accepts, the full format only when it does not, and the date is the first day of the parsed month; a string neither accepts fails with InvalidHeaderDate of the trimmed text, a null cell with NullCell and a non-string cell with InvalidHeaderCell |
| Cells.HeaderIgnoresPadding | src/main/java/splittherates/ratespan/RateHistoryConverter.java:82 | a header name padded with white space parses to the same result as the trimmed name |
| Cells.RateIgnoresPadding | src/main/java/splittherates/ratespan/RateHistoryConverter.java:109-112 | the rate of a string cell is the same whether or not its number is padded with white space |
| Runs.Decompose | src/main/java/splittherates/ratespan/RateHistoryConverter.java:130-167 | every run of the compaction of a whole row lies inside the row |
| Runs.RunsFrom | src/main/java/splittherates/ratespan/RateHistoryConverter.java:130-167 | the fold from column i in state st: every run it emits starts no earlier than the open run's start (or column i when idle) and lies inside the row; when a run is open, the first run emitted is that run, with its rate and start column, and it reaches at least column i - 1 |
| Runs.RunsDecompose | src/main/java/splittherates/ratespan/RateHistoryConverter.java:130-167 | the scan's runs are all maximal runs of one present rate, in strictly increasing column order, and cover a column exactly when its rate is present |
| Runs.MaximalRunsMeet | src/main/java/splittherates/ratespan/RateHistoryConverter.java:147-160 | two maximal runs of equal rates that share a column are the same run |
| Runs.DecompositionUnique | src/main/java/splittherates/ratespan/RateHistoryConverter.java:130-167 | any list of runs with those three properties is the scan's list: the compaction is the unique decomposition into maximal runs |
| Spans.EndDate | src/main/java/splittherates/ratespan/RateHistoryConverter.java:150-166 | a run closed by a later column ends before that column's date; a run reaching the last column ends on 9999-12-31 |
| Spans.Compact | src/main/java/splittherates/ratespan/RateHistoryConverter.java:121-170 | a row yields no more spans than months; every span carries the row's three codes and starts on the header date of a month that has the span's rate |
| Spans.CompactIsSpansOf | src/main/java/splittherates/ratespan/RateHistoryConverter.java:130-167 | the spans are those of the row's decomposition into maximal runs |
| Spans.SpanInEffectIffInRun | src/main/java/splittherates/ratespan/RateHistoryConverter.java:143-166 | on a well-formed header, a run's span is in effect on a month's date exactly when the month belongs to the run |
| Spans.CompactEmptyIffAllAbsent | src/main/java/splittherates/ratespan/RateHistoryConverter.java:135-138 | a row yields no spans exactly when no month has a rate |
| Spans.CompactFirstSpan | src/main/java/splittherates/ratespan/RateHistoryConverter.java:135-145 | leading blank months are skipped: the first span starts on the date of the first month with a rate and carries that rate |
| Spans.CompactSpansOrdered | src/main/java/splittherates/ratespan/RateHistoryConverter.java:147-167 | on a well-formed header, every span starts no later than it ends, and each span ends strictly before any later span starts |
| Spans.CompactCoverage | src/main/java/splittherates/ratespan/RateHistoryConverter.java:130-167 | on a well-formed header, some span is in effect on a month's date exactly when that month has a rate, and every span in effect then carries that month's rate |
| Spans.CompactOpenEnd | src/main/java/splittherates/ratespan/RateHistoryConverter.java:164-167 | on a well-formed header, a span ends on 9999-12-31 exactly when it is the last span and the last month has a rate |
| Spans.CompactMaximalRun | src/main/java/splittherates/ratespan/RateHistoryConverter.java:147-161 | every maximal run of equal rates gives one span, from its first month's date to the day before the next month, or to 9999-12-31 |
| Spans.CompactNeighbours | src/main/java/splittherates/ratespan/RateHistoryConverter.java:148-160 | two consecutive spans that meet carry different rates; two that do not meet have a month without a rate between them |
| KeyedTable.PutAll | src/main/java/splittherates/ratespan/RateHistoryConverter.java:62-63 | after the puts, the keys are the old keys plus the entries' keys; a key holds the value of its last entry; a key no entry has keeps its old value |
| Converter.CodesTrimmed | src/main/java/splittherates/ratespan/RateHistoryConverter.java:123-125 | the three codes every span carries are already trimmed |
| Converter.CompactRow | src/main/java/splittherates/ratespan/RateHistoryConverter.java:130-133 | compaction fails exactly when the row has more month columns than header dates, with the out-of-bounds index; otherwise every span carries the codes |
| Converter.RowSpans | src/main/java/splittherates/ratespan/RateHistoryConverter.java:121-170 | a row's spans are produced exactly when its codes read and its month columns fit the header; a code failure comes first, then the out-of-bounds failure; every span carries the row's codes |
| Converter.GenerateRateSpansForRow | src/main/java/splittherates/ratespan/RateHistoryConverter.java:121-170 | the statement-by-statement method computes the same result as the functional definition, including every failure |
| Converter.ScanColumn | src/main/java/splittherates/ratespan/RateHistoryConverter.java:131-161 | the four branches of the loop body keep lastRate/spanStart equal to the open run's rate and start date, and the spans emitted equal to the spans of the closed runs; after a column lastRate is that column's rate; spanStart moves to the column's date exactly when a different rate starts, stays while the rate continues, is cleared by a blank that ends a span and left alone by a blank after a blank; one span is appended, and none removed, exactly when an open run is ended; if lastRate and spanStart were null together before the column, they are after it |
| Converter.ScanMonths | src/main/java/splittherates/ratespan/RateHistoryConverter.java:127-162 | the pass over the month columns stays in bounds exactly when every month column has a header date, and then ends with the spans of all closed runs emitted and lastRate/spanStart describing the run still open |
| Converter.ScanColumns | src/main/java/splittherates/ratespan/RateHistoryConverter.java:127-169 | the pass over the month columns, plus the final open-ended span, produces exactly the compaction of the row's rates, or the out-of-bounds failure when the row outruns the header |
| Conversion.KeyPart | src/main/java/splittherates/ratespan/RateHistoryConverter.java:55-60 | a modifier's key part is read exactly when the modifier is |
| Conversion.KeyOf | src/main/java/splittherates/ratespan/RateHistoryConverter.java:54-60 | a row has a key exactly when its codes are readable; the key is the trimmed PROC, then "-" and MOD when a MOD cell is present, then "-" and MOD2 when a MOD2 cell is present |
| Conversion.AbsentAndBlankModifierKeys | src/main/java/splittherates/ratespan/RateHistoryConverter.java:55-57 | an absent and a blank MOD cell give spans the same codes but give the rows different keys |
| Conversion.ModifierKeysCollide | src/main/java/splittherates/ratespan/RateHistoryConverter.java:54-60 | a row with only a MOD cell and a row with only an equal, non-blank MOD2 cell have different codes but the same key |
| Conversion.KeyWithOneModifier | src/main/java/splittherates/ratespan/RateHistoryConverter.java:54-60 | the key of a row with exactly one modifier cell is PROC, "-" and that modifier |
| Conversion.HeaderDates | src/main/java/splittherates/ratespan/RateHistoryConverter.java:33-40 | a missing header row fails; otherwise there is one date per header month cell, the dates are produced exactly when every cell parses, date k is the parse of month cell k, and each date is a valid first day of a month |
| Conversion.HeaderFailsAtFirstBadCell | src/main/java/splittherates/ratespan/RateHistoryConverter.java:37-40 | a header fails with the error of its first unparseable month cell |
| Conversion.RowEntries | src/main/java/splittherates/ratespan/RateHistoryConverter.java:46-64 | the data rows' entries, in row order, are produced exactly when no row fails; otherwise the error is that of the first failing row |
| Conversion.FirstBadDataRow | src/main/java/splittherates/ratespan/RateHistoryConverter.java:46-63 | when earlier present data rows all give spans, the first present row whose spans fail decides the error of the entries |
| Conversion.ConvertFailsAtFirstBadRow | src/main/java/splittherates/ratespan/RateHistoryConverter.java:33-63 | a sheet whose header parses fails with the error of its first present data row whose spans fail |
| Conversion.EntryOfRow | src/main/java/splittherates/ratespan/RateHistoryConverter.java:51-63 | a present row of a successful conversion contributes its key and its spans |
| Conversion.EntriesLastWins | src/main/java/splittherates/ratespan/RateHistoryConverter.java:62-63 | a row whose key no later row has decides that key's spans |
| Conversion.ConvertLastRowWins | src/main/java/splittherates/ratespan/RateHistoryConverter.java:46-63 | every present data row of a successful conversion has a key; the last row with a key decides it: the key is in the map and holds that row's spans |
| Conversion.EntriesKeys | src/main/java/splittherates/ratespan/RateHistoryConverter.java:46-63 | a key is among the entries' keys exactly when some present row has it |
| Conversion.ConvertKeys | src/main/java/splittherates/ratespan/RateHistoryConverter.java:46-63 | the map's keys are exactly the keys of the present data rows |
| Scenarios.MergeGapAndOpenEnd | src/main/java/splittherates/ratespan/RateHistoryConverter.java:135-167 | rates 10, 10, blank, 12 over January to April 2024 give (10, 2024-01-01 to 2024-02-29) and (12, 2024-04-01 to 9999-12-31) |
| Scenarios.AllBlank | src/main/java/splittherates/ratespan/RateHistoryConverter.java:135-138 | a row of four blank months gives no span |
| Scenarios.LeadingBlank | src/main/java/splittherates/ratespan/RateHistoryConverter.java:135-145 | blank, 75 over January and February 2024 give one span from 2024-02-01 to 9999-12-31 |
| Scenarios.SameRateAcrossGap | src/main/java/splittherates/ratespan/RateHistoryConverter.java:147-160 | rates 5, blank, blank, 5 give two spans, (5, 2024-01-01 to 2024-01-31) and (5, 2024-04-01 to 9999-12-31), not one |
| Scenarios.NumericHeaderCellRejected | src/main/java/splittherates/ratespan/RateHistoryConverter.java:81-98 | a numeric header cell, such as a date stored as a number, fails with InvalidHeaderCell |

## Left out

- Opening the workbook, the hard-coded file paths, and printing the map (lines 22-30 and 66-75): I/O only. The conversion starts from the sheet's rows and ends at the map.
- `Double.parseDouble` and the two `DateTimeFormatter`s are parameters. Their text grammars (locale month names, four-digit years, number syntax) are not modelled.
- Rates are a type parameter with `==` in place of `Double.equals`. The facts that NaN equals NaN and 0.0 differs from -0.0 under `Double.equals` are therefore not modelled.
- Boolean, formula and error cells are one kind, `OtherCell`. `getStringCellValue` fails on all of them, although POI returns the cached text of a formula cell with a string result.
- `HashMap` iteration order: the map is a Dafny `map`, which has no order, like the Java one.
- Years are unbounded integers, whereas `LocalDate` limits them to ±999,999,999; this makes no difference to month headers.
- Spans.CompactSpansOrdered, Spans.CompactCoverage, Spans.CompactOpenEnd and Spans.CompactNeighbours assume a well-formed header: valid dates, strictly increasing, not after 9999-12-31. The code does not check this, and on other headers these date-level promises need not hold. The index-level facts (Runs.RunsDecompose, Runs.DecompositionUnique) need no such assumption.
