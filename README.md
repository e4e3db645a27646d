# HR ETL pipeline: the transform stage and the orchestrator

This project models the two parts of the HR analytics ETL pipeline that hold logic of their own, and proves properties about them:

- **The transform stage** (`src/transform.py`) covers several operations:
  - `clean_column_names` normalises the column headers.
  - `clean_salary` reads currency text such as `"$72,500.00"` as a number.
  - `parse_date` reads `DD/MM/YYYY` dates.
  - `transform_data` runs these rules on a copy of the extracted table. It strips the text columns, fills and casts the leave counters, then keeps only the rows with an age from 18 to 100 and a positive salary.
  - `get_data_quality_report` counts rows, columns, missing cells per column, and duplicate rows.
- **The orchestrator** (`src/etl_pipeline.py`, `run_etl_pipeline`) keeps a results record. The record starts as "failed" with zero counts. It is updated after each phase, while an exception skips the remaining phases. A timing summary is always written at the end.

## How the model is organised

- **`Tables`** defines the in-memory data frame as a value: an ordered list of column names and an ordered list of rows, with one cell per column.
  - A cell is `Missing` (NaN/None/NaT), `Str`, `Int`, `Num` (a `real`) or `Date`.
  - Columns stay positional instead of becoming a map from name to cell. That keeps their order and lets two columns share a name, which `clean_column_names` can produce.
  - `df[name]` acts on the first column of that name.
- **`Text`** holds the string functions of the Python built-ins:
  - `lower` (ASCII letters only);
  - `strip`, over Python's `isspace` set;
  - `replace` and deleting one character;
  - decimal digits and zero-padded numerals.
- **`ColumnNames`, `Salary` and `Dates`** are the three cell and name rules, written as pure functions.
  - The salary grammar is stated without scanning and proved equal to the scanner. Every text it accepts is proved to be read as the number its digits stand for.
  - The dates a text is read as are proved to be exactly the days it renders, with one or two digits for the day and month and four for the year.
- **`Transform`** is `transform_data` written as a function.
  - The steps are applied in the source's order: header, dates, salary, text loop, leave loop, age filter, salary filter.
  - Each step that can raise returns a `Result` whose error names the cause: a `KeyError` for a missing column, a failed `astype(int)`, or an age that cannot be compared with a number.
- **`TransformProperties`** gives an independent reference for the transform.
  - The reference (`CleanRow`, `Expected`) applies a per-column rule to every cell, then filters the rows once with both tests.
  - Lemmas prove that the step-by-step function succeeds exactly when the reference's condition holds. When it succeeds, it equals the reference.
  - Further lemmas prove the output properties: the output is an order-preserving subsequence of the cleaned rows, which rows are kept, and what each kind of column holds.
- **`Frames`** is the data frame as a mutable object, with `transform_data` as the in-place method sequence the source runs on its copy:
  - `clean_column_names` assigns the header;
  - `apply` and `fillna().astype()` overwrite columns inside the two `for` loops;
  - the mask filters build new frames.

  Each method is proved to compute the matching function of `Transform`. `TransformData` leaves its argument unchanged.
- **`Quality`** is `get_data_quality_report` as a record of counts.
  - `duplicated` is defined as "equal to an earlier row".
  - The duplicate count is proved to be the row count minus the number of distinct rows.
- **`Pipeline`** models `run_etl_pipeline`. The `results` dictionary becomes the class `Results`, and each phase is a method that updates it.
  - The outcomes of extract, load and verify are parameters, as are the two clock readings.
  - Transform and the quality report are the modelled ones.
  - `FinalRecord` gives the record the function returns for any combination of phase outcomes. The lemmas after it state the outcomes one by one.

`clean_column_names` is not idempotent: it strips white space before it deletes parentheses. So a name like `"(\tx"` becomes `"\tx"` on the first pass and `"x"` on the second. `ColumnNames.CleanNameIdempotent` proves idempotence only for names whose sole white space is the space character. `ColumnNames.CleanNameNotIdempotentWithTab` exhibits the counterexample.

## Model

| member | source | states |
|---|---|---|
| ColumnNames.CleanName | src/transform.py:12-16 | a normalised name contains no space, no `(`, no `)` and no upper-case ASCII letter |
| ColumnNames.CleanNames | src/transform.py:10-17 | after normalising the header, every column name is clean and column k holds the normalised name of the old column k: same number and order of columns |
| ColumnNames.CleanNameChars | src/transform.py:12-16 | when the raw name has no white space other than the space, its normalised name has no white space at all and no upper-case letter |
| ColumnNames.CleanNameIdempotent | src/transform.py:12-16 | normalising twice gives the same as normalising once, for names whose only white space is the space character |
| ColumnNames.CleanNameNotIdempotentWithTab | src/transform.py:12-16 | `"(\tx"` needs two passes: the second pass changes the result of the first |
| Text.StripIdempotent | src/transform.py:13 | stripping stripped text changes nothing |
| Text.Strip | src/transform.py:13 | stripping removes the longest leading run of white space and then the longest trailing one; the result is empty or starts and ends with a character that is not white space |
| Text.StripStart | src/transform.py:13 | drops the longest prefix of white space: everything dropped is white space and what is left does not start with it |
| Text.StripEnd | src/transform.py:13 | drops the longest suffix of white space: everything dropped is white space and what is left does not end with it |
| Salary.ParseDecimal | src/transform.py:27-30 | the text is read as a number exactly when it is an optional sign, digits and an optional point and digits with at least one digit; any other text gives None instead of raising |
| Salary.ParseLiteral | src/transform.py:28 | a sign, digits, an optional point and digits are read as the number they stand for: `"+5"`, `".5"`, `"5."` and `"007.50"` included |
| Salary.LiteralParts | src/transform.py:28 | every accepted text splits into such a sign, digits, point and digits |
| Salary.ParseDecimalValue | src/transform.py:27-30 | whatever the text, the result is that of the grammar: None when it is not a literal, and the literal's value when it is |
| Salary.ParsePointFive | src/transform.py:28 | `".5"` gives 0.5 |
| Salary.ParseLeadingZeros | src/transform.py:28 | `"007.50"` gives 7.5 |
| Salary.CleanSalaryText | src/transform.py:26-30 | a text is read, after deleting `$` and `,` and stripping white space, as the value of the decimal literal it spells, and gives None when it spells none |
| Salary.DropSymbols | src/transform.py:26 | deleting the symbols keeps exactly the characters other than `$` and `,` |
| Salary.ParseFormattedDecimal | src/transform.py:28 | a decimal written out as `[-]n.f` reads back as the number it stands for |
| Salary.CleanSalary | src/transform.py:21-30 | a missing cell gives None; a text gives the value of the decimal literal it spells once `$` and `,` are deleted and white space stripped, and None when it spells none; an integer or float cell gives its own value; a timestamp gives None |
| Salary.CleanSalaryCell | src/transform.py:70 | the salary column holds a float exactly where `clean_salary` gives a number, that number, and NaN elsewhere |
| Salary.CleanSalaryIgnoresSymbols | src/transform.py:26 | a `$` or `,` anywhere in the text makes no difference to the result |
| Salary.CleanSalaryExample | src/transform.py:21-30 | `"$72,500.00"` gives 72500 |
| Salary.CleanSalaryNotANumber | src/transform.py:26-30 | `"N/A"` gives None |
| Dates.ParseDateText | src/transform.py:38 | every date that is accepted is a day of the calendar (month 1 to 12, day within the month, leap years counted) |
| Dates.ParseDate | src/transform.py:33-40 | a missing cell stays missing; a text cell becomes the date d exactly when the text renders d as day/month/year, with one or two digits for the day and month and four for the year, and becomes missing when it renders no valid day; the result is always a date or missing |
| Dates.ParseRendering | src/transform.py:38 | every valid day written with one- or two-digit day and month and a four-digit year, padded or not, parses back to that day |
| Dates.ParsedIsRendering | src/transform.py:38 | every accepted text is such a rendering of the day it is read as |
| Dates.ParseDateTextExact | src/transform.py:38 | a text is read as a day exactly when it renders that day |
| Dates.ParseDateExample | src/transform.py:33-40 | `"31/01/1990"` gives 31 January 1990 |
| Dates.ParseDateUnpadded | src/transform.py:33-40 | `"1/2/1990"` gives 1 February 1990 |
| Dates.ParseDateWrongOrder | src/transform.py:37-40 | `"1990-31-01"` gives missing |
| Dates.ParseDateImpossibleDay | src/transform.py:37-40 | `"31/02/1990"` gives missing |
| Transform.TrimCell | src/transform.py:80 | text stays text and becomes its stripped form, with no white space at either end; a non-text cell becomes missing |
| Transform.TrimCellIdempotent | src/transform.py:80 | stripping a cell twice is the same as stripping it once |
| Transform.Truncate | src/transform.py:88 | the cast rounds toward zero: the result is the integer nearest to x on the side of zero, within 1 of x |
| Transform.FillCast | src/transform.py:88 | a castable cell becomes an integer: missing becomes 0, an integer is kept, a float is truncated |
| Transform.AgeInRange | src/transform.py:93 | the comparison raises exactly for text or a timestamp; it is true exactly for a number from 18 to 100; a missing age is false |
| Transform.ApplyColumn | src/transform.py:65-70 | raises KeyError exactly when the column is absent; otherwise changes only the column the name selects, applying the function to each of its cells |
| Transform.Renamed | src/transform.py:61 | step 1 keeps the rows and gives column k the normalised, clean name of the old column k |
| Transform.TrimColumn | src/transform.py:78-80 | one pass of the text loop leaves the table as it is when the column is absent, and otherwise is `ApplyColumn` with `TrimCell`, which strips exactly the cells of the column that name selects |
| Transform.FillColumn | src/transform.py:86-88 | one pass of the leave loop keeps the header and row count; its only error is the failed cast of that column |
| Transform.FillColumns | src/transform.py:85-88 | the leave loop keeps the header and row count; when it fails, the error is a failed cast of one of the listed leave columns |
| Transform.AgeMask | src/transform.py:93 | raises exactly when `age` is absent (KeyError) or some age cannot be compared; otherwise entry i is true exactly when row i's age is from 18 to 100 |
| Transform.SalaryMask | src/transform.py:96 | raises exactly when `salary` is absent; otherwise entry i is true exactly when row i's salary is a number above zero |
| Transform.KeepRows | src/transform.py:93-96 | a mask filter keeps the header and never adds a row |
| Tables.Select | src/transform.py:93-96 | `df[mask]` never adds a row and keeps only rows of its input; `TransformProperties.SelectByTest` states which |
| Transform.Validate | src/transform.py:93-96 | the two filters keep the header and never add a row; `TransformProperties.ValidateMatches` states when they succeed and which rows they keep |
| Transform.CellStages | src/transform.py:65-88 | steps 2 to 5 keep the header and row count; `TransformProperties.StagesSucceed` and `StagesMatchCleanRows` state when they succeed and what they compute |
| Transform.AfterRename | src/transform.py:64-97 | steps 2 to 6 keep the header and never add a row; `TransformProperties.AfterRenameSucceeds` and `AfterRenameMatchesReference` state when they succeed and what they return |
| Transform.TransformSteps | src/transform.py:43-105 | on success the header is the normalised input header, every row has one cell per column, and there are no more rows than in the input |
| TransformProperties.TrimColumnsCell | src/transform.py:78-80 | after the text loop, a cell is stripped exactly when its column is one of the listed text columns; all other cells are as before; absent columns are skipped |
| TransformProperties.FillColumnsSucceeds | src/transform.py:85-88 | the leave loop completes exactly when every cell of every leave column that is there can be cast |
| TransformProperties.FillColumnsCell | src/transform.py:85-88 | when the leave loop completes, it has cast exactly the cells of the leave columns that are there and left every other cell alone |
| TransformProperties.FillColumnsFailure | src/transform.py:85-88 | when the leave loop fails, the column it names is the first listed column that is there and holds a cell that cannot be cast: that cell exists, and every cell of each earlier listed column that is there can be cast |
| Transform.ConvertColumns | src/transform.py:65-70 | the date and salary conversions succeed exactly when `dob`, `hire_date` and `salary` all exist; otherwise the KeyError names the first of them that is missing |
| Transform.TrimColumns | src/transform.py:74-80 | the text loop keeps the header and the row count; `TransformProperties.TrimColumnsCell` states which cells it strips |
| TransformProperties.ConvertColumnsCell | src/transform.py:65-70 | the conversions change only the cells of those three columns, parsing the dates and cleaning the salary |
| TransformProperties.StagesSucceed | src/transform.py:65-88 | steps 2 to 5 succeed exactly when the three converted columns exist and every leave cell can be cast; stripping neither makes a leave cell castable nor stops one from being castable |
| TransformProperties.StagesMatchCleanRows | src/transform.py:65-88 | steps 2 to 5 give the rows of the reference definition, which applies each column's rule to each of its cells |
| TransformProperties.FilterTwice | src/transform.py:93-96 | filtering by age and then by salary keeps the same rows as filtering once with both tests |
| TransformProperties.FilterRowsMembers | src/transform.py:93-96 | the filtered rows are exactly the input rows that pass the test |
| TransformProperties.FilterRowsSubsequence | src/transform.py:93-96 | filtering keeps the rows in their input order |
| TransformProperties.ValidateMatches | src/transform.py:93-96 | step 6 succeeds exactly when `age` and `salary` exist and every age can be compared; it then keeps exactly the rows that pass both tests, in order |
| TransformProperties.AfterRenameSucceeds | src/transform.py:64-97 | on a renamed table, steps 2 to 6 succeed exactly when the reference's condition holds |
| TransformProperties.AfterRenameMatchesReference | src/transform.py:64-97 | when they succeed, steps 2 to 6 return exactly the reference table |
| TransformProperties.AfterRenameErrors | src/transform.py:64-97 | which error steps 2 to 6 raise, for each way they can fail, in the order the steps run; a failed cast names the first leave column that is there and holds a cell that cannot be cast |
| TransformProperties.StagesCastFailure | src/transform.py:74-88 | when a leave cell of the renamed table cannot be cast, steps 2 to 5 fail with a cast error naming the first leave column that is there and holds such a cell, stripping the text columns notwithstanding |
| TransformProperties.ExpectedRows | src/transform.py:93-96 | the reference rows are an order-preserving subsequence of the cleaned rows, and each passes both tests |
| TransformProperties.AfterRenameOutputRows | src/transform.py:64-97 | the rows of steps 2 to 6 are an order-preserving subsequence of the cleaned rows, each with an age from 18 to 100 and a positive salary |
| TransformProperties.AfterRenameKeeps | src/transform.py:93-96 | a cleaned input row is in the output exactly when its age is from 18 to 100 and its salary text reads as a number above zero |
| TransformProperties.CellRuleKind | src/transform.py:65-88 | a cleaned cell of a leave column is an integer, of a text column stripped text or missing, of a date column a date or missing |
| TransformProperties.AfterRenameOutputColumns | src/transform.py:64-97 | in the output of steps 2 to 6, each column's cells have that column's kind |
| TransformProperties.TransformSucceeds | src/transform.py:43-105 | `transform_data` succeeds exactly when, after renaming: `dob`, `hire_date`, `salary` and `age` exist; every leave cell can be cast; and every age can be compared. Absent text and leave columns never cause a failure |
| TransformProperties.TransformStepsMatchReference | src/transform.py:43-105 | when it succeeds, `transform_data` returns the cleaned input rows that pass both tests, in input order, under the normalised header |
| TransformProperties.TransformErrors | src/transform.py:43-105 | a missing `dob`, `hire_date`, `salary` or `age` column is a KeyError naming that column; a leave cell that cannot be cast is a cast error naming the first leave column, in list order, that is there and holds such a cell; an incomparable age is an age error |
| TransformProperties.TransformOutputRows | src/transform.py:93-96 | every output row is a cleaned input row, in input order, with an age from 18 to 100 and a present salary above zero |
| TransformProperties.TransformKeeps | src/transform.py:93-96 | a row is kept exactly when its age is from 18 to 100 and its salary text reads as a number above zero: a salary that does not parse always drops the row |
| TransformProperties.TransformOutputColumns | src/transform.py:78-88 | in the output, leave columns hold integers (never missing), text columns hold stripped text or missing, date columns hold a date or missing |
| Frames.Frame.constructor | src/etl_pipeline.py:45 | the frame holds the given table |
| Frames.Frame.Copy | src/transform.py:58 | a new frame with the same contents |
| Frames.Frame.CleanColumnNames | src/transform.py:8-18 | the frame's header is replaced in place by the normalised header; the rows are untouched |
| Frames.Frame.Apply | src/transform.py:65-70 | fails, changing nothing, exactly when the column is absent; otherwise the frame becomes `ApplyColumn` of its old contents |
| Frames.Frame.Fill | src/transform.py:88 | fails, changing nothing, exactly when a cell of the column cannot be cast; otherwise the frame becomes `FillColumn` of its old contents |
| Frames.Frame.Filter | src/transform.py:93-96 | a new frame holding the rows whose mask entry is true |
| Frames.ConvertInPlace | src/transform.py:65-70 | the frame's new contents, or the error raised, are those of `ConvertColumns` on its old contents |
| Frames.TrimInPlace | src/transform.py:74-80 | the loop over the text columns leaves the frame as `TrimColumns` of its old contents |
| Frames.FillInPlace | src/transform.py:85-88 | the loop over the leave columns leaves the frame as `FillColumns` of its old contents, or stops with its error |
| Frames.ValidateFrame | src/transform.py:93-96 | the two mask filters give a new frame holding `Validate` of the frame's contents, or its error |
| Frames.TransformData | src/transform.py:43-105 | the caller's frame is not modified; the result is a new frame holding `TransformSteps` of its contents, or the error `TransformSteps` gives |
| Quality.MissingCount | src/transform.py:113 | a column's missing count is the number of rows whose cell in it is missing: at most the row count, 0 exactly when none is missing, and the row count exactly when all are |
| Quality.Duplicated | src/transform.py:114 | entry i is true exactly when row i equals some earlier row |
| Quality.Duplicates | src/transform.py:114 | the number of duplicates plus the number of distinct rows is the number of rows; there are none exactly when all rows are pairwise different |
| Quality.QualityReportOf | src/transform.py:108-117 | `total_rows` is the row count and `total_columns` the column count; there is one missing count per column, each at most `total_rows`; `duplicates` is `total_rows` minus the number of distinct rows, and 0 for a frame with no columns, which pandas treats as empty |
| Quality.NoColumnsReport | src/transform.py:114 | two rows and no columns: the report says 0 duplicates, where counting equal rows would say 1 |
| Quality.EmptyReport | src/transform.py:111-114 | an empty table has no duplicates and no missing cells |
| Pipeline.Results.constructor | src/etl_pipeline.py:33-39 | the results start as failed, with the start time, zero extracted, transformed and loaded rows, no error and no summary |
| Pipeline.Results.RecordSummary | src/etl_pipeline.py:75-77 | sets the end time and the duration since the start time, and nothing else |
| Pipeline.RestOfTry | src/etl_pipeline.py:51-69 | transform, report and load never touch the extracted count or the timings; a transform error is recorded and changes nothing else; otherwise the transformed count is the output's row count, and load's success sets the status to success and copies verify's count |
| Pipeline.ReportOf | src/etl_pipeline.py:52-57 | the report exists exactly when extract and transform complete; it then counts the transformed rows, at most the extracted ones, and the input's columns |
| Pipeline.AfterTry | src/etl_pipeline.py:41-73 | the try block keeps the timings; an extract error is recorded and changes nothing else; otherwise the extracted count is the raw row count and the transformed count lies between 0 and it; starting from no error, an error is recorded exactly when extract or transform raised |
| Pipeline.Summary | src/etl_pipeline.py:75-77 | the summary sets the end time and a duration that takes the start time to the end time, and changes nothing else |
| Pipeline.TransformPhase | src/etl_pipeline.py:51 | the transform phase's outcome is `TransformSteps` of the extracted table |
| Pipeline.RecordTransformAndLoad | src/etl_pipeline.py:51-69 | the record is updated by the transform, report and load phases as `RestOfTry` says |
| Pipeline.TryBlock | src/etl_pipeline.py:41-73 | the try block updates the record as `AfterTry` says and computes the quality report of the transformed table, if there is one |
| Pipeline.RunEtlPipeline | src/etl_pipeline.py:17-89 | the returned record is `FinalRecord` of the phase outcomes and clock readings; the report is that of the transformed table |
| Pipeline.ExtractFails | src/etl_pipeline.py:41-73 | when extract raises: failed, the error recorded, all three counts still 0 |
| Pipeline.TransformFails | src/etl_pipeline.py:46-73 | when transform raises: the extracted count is the raw row count, the transformed and loaded counts stay 0, the error is recorded |
| Pipeline.SuccessCondition | src/etl_pipeline.py:65-69 | the status is success exactly when extract and transform complete and load returns true |
| Pipeline.LoadReturnsFalse | src/etl_pipeline.py:65-69 | when load returns false: still failed, nothing loaded, no error entry, both earlier counts recorded |
| Pipeline.LoadReturnsTrue | src/etl_pipeline.py:67-69 | when load returns true: verify's count is copied unchanged, the −1 sentinel included, and the status is success |
| Pipeline.TransformedAtMostExtracted | src/etl_pipeline.py:46-52 | the transformed count is never negative and never above the extracted count |
| Pipeline.ErrorIffRaised | src/etl_pipeline.py:71-73 | an error entry is written exactly when extract or transform raised, and then the status is failed |
| Pipeline.FinalRecord | src/etl_pipeline.py:33-77 | on every path the start time is kept, the end time is set, and the duration is end minus start |
| Pipeline.ReportMatchesTransform | src/etl_pipeline.py:52-57 | the report exists exactly when extract and transform complete; its `total_rows` equals `rows_transformed` and its `total_columns` is the number of columns |

## Left out

- Lower-casing covers only the ASCII letters; Python's `str.lower` also maps other scripts.
- Duplicate column names: `df[name]` is modelled as acting on the first column of that name. pandas selects every column of that name. The model also keeps the report's missing counts per position, while the dictionary `to_dict()` builds collapses repeated names.
- The text loop's `.str.strip()` becomes missing for any non-text cell. pandas raises `AttributeError` when the whole column has no string dtype; that case is not modelled.
- A text cell in a leave column is a failed cast. pandas' `astype(int)` would convert numeric strings such as `"3"`.
- Salary parsing follows a plain decimal grammar into `real`. Python's `float()` also accepts exponents, `inf`, `nan`, underscores and surrounding white space of its own. Floating-point rounding is not modelled.
- Date parsing accepts exactly one or two digits for the day and month and four for the year, with `/` between them. pandas' format matching also accepts a space-padded day. Its `Timestamp` year bounds (about 1677 to 2262) are not modelled; the model accepts years 1 to 9999.
- A non-text, non-missing date cell becomes missing, and a `Date` cell is kept. These stand in for what `pd.to_datetime` does with numbers and timestamps.
- Exception messages: each error is modelled by its cause (`TransformError`, `PipelineError`), not by the text `str(e)` produces.
- All `print` output is not modelled. The two `datetime.now()` readings are parameters of `RunEtlPipeline`.
- Extract (`extract_csv`), load (`load_to_supabase`) and `verify_load` are file and database I/O. Their outcomes are parameters: a table or an error message, a boolean, and an integer. They are not part of this model. The misspelled connection probe in the load module is irrelevant to that abstraction.
- Cells: `Int` and `Num` are distinct kinds, so `Int(1)` and `Num(1.0)` are different cells and rows that differ only there are not duplicates. pandas gives a numeric column one dtype and compares `1 == 1.0` as equal. A table read from CSV does not mix the two in one column.
- `data_types` in the quality report are pandas dtype strings and are left out.
- The unused `column_mapping` and the "calculated fields" mentioned in the docstring of `transform_data` do nothing in the code and are not modelled.
- The quality report is modelled as never raising, so the case where it raises between transform and load does not arise.
- Only the ASCII digits 0 to 9 are digits here (`Text.DigitValue`, `Dates.DigitsIn`, `Salary.IsDecimalLiteral`). Python's `float()` and `int()`, and the `\d` of pandas' format matching, also accept the other Unicode decimal digits.
- `Transform.Truncate`: the cast of fractional leave values is modelled as truncation toward zero. The integer width of `astype(int)` (64-bit overflow) is not modelled.
