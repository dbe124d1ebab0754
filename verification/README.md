# Data cleanser, modelled in Dafny

The repository is a small Streamlit page that takes uploaded CSV and Excel
files, cleans each one with `clean_dataframe`, and offers the result for
download as `clean_<name>.csv`. This project models the cleaning function
and the two pure pieces of the upload loop, and proves what they promise.

`clean_dataframe` runs four stages in a fixed order:

1. **Column names** (`ColumnNames`): strip every name; keep the first
   column for each stripped name; replace every maximal run of characters
   outside `[A-Za-z0-9_]` with one `_`.
2. **Cells** (`Cells`): every string cell is stripped and its whitespace
   runs collapse to one space. A cell whose lower-cased result is `null`,
   `unknown` or `error` becomes missing. Other cells pass through.
3. **Types** (`Inference`): an `Object` column becomes a date column when at
   least 80% of its present cells parse as dates, and cells that fail to
   parse become missing. Each column that is still `Object` then gets an
   all-or-nothing numeric conversion.
4. **Pruning** (`Pruning`): drop all-missing columns, then duplicate rows
   (the first occurrence stays), then every row with a missing cell.

`Pipeline.CleanDataFrame` runs the four stages in that order.
`FileNames` picks the reader from the extension and builds the download name.

Supporting modules:

- `Text`: whitespace, word characters, lower-casing and `strip`. It also
  defines one run-replacement function, `Squeeze`, which both the name
  sanitiser and the whitespace collapse use.
- `Masks`: boolean masks in the pandas manner. `Duplicated` and
  `FirstOccurrences` serve both the column deduplication (keyed by stripped
  name) and the row deduplication (keyed by the whole row).
- `Tables`: the data model. A `Cell` is `Missing`, `Str`, `Num` or `Date`.
  A `Column` has a name, a dtype tag and its cells. A `Table` has a height
  and equal-height columns, and offers a row view.
- `Wrappers`: `Option` and `Result`.

The date and number parsers (`pd.to_datetime`, `pd.to_numeric`) are
function parameters. A date parser gets the whole column as well as the
cell, because pandas infers one date format per column.

The model follows the code in five places where a reader might expect
otherwise:

- The cleaner can fail. Deduplication happens before sanitising, so `a b`
  and `a-b` both end as `a_b` (`ColumnNames.SanitizedNamesMayCollide`).
  The type stage looks each `Object` column up by name, and pandas answers
  a shared name with several columns, which `pd.to_datetime` rejects. So
  `CleanDataFrame` returns an error exactly when an `Object` column shares
  its name with another column after the name stage
  (`Pipeline.CollidingTextColumnsFail`). Names can collide in the output
  only among columns that are not `Object`
  (`Pipeline.CollidingNumericColumnsKept`).
- The numeric step has no "at least one value" rule. An `Object` column
  with no present cell becomes `Numeric`
  (`Inference.EmptyObjectColumnBecomesNumeric`). Pruning then drops it.
- "No output column is all missing" holds only when a row survives. A table
  that ends with no rows keeps its columns, and each of them is vacuously
  all missing. What holds in every case is that no cell of the result is
  missing.
- "No two output rows are equal" holds only while a column survives.
  pandas treats a table without columns as empty, and `drop_duplicates`
  returns an empty table whole. A file whose only column holds sentinels
  comes out as n rows of nothing, all equal
  (`Pipeline.MissingColumnKeepsEveryRow`).
- The pipeline as a whole is not idempotent, so only the stages are proved
  idempotent: cells, types, and pruning while a row survives. Pruning a
  table without rows a second time drops all of its columns
  (`Pruning.PruneIdempotent`).

## Model

| member | source | states |
|---|---|---|
| Text.Strip | data_cleansing.py:28 | the result is a slice of the input that neither starts nor ends with whitespace, and it is non-empty whenever the input has a non-whitespace character |
| Text.StripCutsSpace | data_cleansing.py:38 | what `strip()` cuts off on either side is whitespace only |
| Text.StripEmpty | data_cleansing.py:38 | stripping yields the empty string exactly when the input is all whitespace |
| Text.StripUnpadded | data_cleansing.py:28 | a string without whitespace at either end is left unchanged |
| Text.Lower | data_cleansing.py:41 | lower-casing keeps the length and lower-cases each character |
| Text.Squeeze | data_cleansing.py:32 | replacing runs never lengthens a string, keeps it empty or non-empty, and keeps or replaces the first character according to its class |
| Text.SqueezeIsSqueezed | data_cleansing.py:39 | after replacement every character of the run class is the separator, and no two run-class characters are adjacent |
| Text.SqueezeFixpoint | data_cleansing.py:39 | a string already in that shape is unchanged |
| Text.SqueezeIdempotent | data_cleansing.py:39 | replacing runs twice equals replacing them once |
| Text.SqueezeRun | data_cleansing.py:32 | a run-free prefix is copied, the maximal run after it becomes exactly one separator, and replacement continues after the run |
| Text.SqueezeAppend | data_cleansing.py:39 | cutting a string just after a character outside the run class and replacing runs in each piece gives the same result as replacing runs in the whole |
| Text.SqueezeJoin | data_cleansing.py:39 | a run between two characters outside the class becomes one separator, and each side is processed on its own |
| Text.SqueezeKeepsLast | data_cleansing.py:39 | a last character outside the run class stays the last character |
| Text.SqueezeKeepsOthers | data_cleansing.py:39 | when the separator is in the run class, every other character survives, in order |
| Text.StripKeepsOthers | data_cleansing.py:38 | stripping keeps every non-whitespace character, in order |
| Masks.Where | data_cleansing.py:30 | a boolean mask selects exactly its true positions, in increasing order |
| Masks.Duplicated | data_cleansing.py:30 | `duplicated()` is true exactly at positions whose key occurred earlier |
| Masks.FirstOccurrences | data_cleansing.py:64 | `~duplicated()` keeps, in increasing order, exactly the first occurrence of each key |
| Masks.FirstOccurrencesCover | data_cleansing.py:64 | every key keeps a representative at or before each of its occurrences |
| Masks.CountTrueMonotone | data_cleansing.py:51-52 | a mask that is true wherever another is true counts at least as many |
| ColumnNames.SanitizeName | data_cleansing.py:32 | a sanitised name holds only `A-Z a-z 0-9 _`, is never longer, and is empty only when the input is |
| ColumnNames.SanitizeKeepsWordNames | data_cleansing.py:32 | a name already made of word characters is unchanged |
| ColumnNames.SanitizeNameIdempotent | data_cleansing.py:32 | sanitising twice equals sanitising once |
| ColumnNames.SanitizeNameRun | data_cleansing.py:32 | each maximal run of other characters becomes exactly one `_` |
| ColumnNames.DropDuplicateColumns | data_cleansing.py:28-30 | the survivors are the first column for each stripped name, in input order, with dtype and cells untouched |
| ColumnNames.DropDuplicateColumnsDistinct | data_cleansing.py:30 | the surviving stripped names are pairwise distinct |
| ColumnNames.DropDuplicateColumnsCover | data_cleansing.py:30 | every input column's stripped name is the name of a surviving column |
| ColumnNames.NormalizeColumnNames | data_cleansing.py:28-32 | output column k is the first column with its stripped name, taken at increasing positions, with unchanged dtype and cells; its name is the stripped name sanitised, so it holds only word characters |
| ColumnNames.TwoDistinctNamesSurvive | data_cleansing.py:28-32 | two columns with different stripped names both survive the name stage, in order, with their types and cells |
| ColumnNames.SanitizedNamesMayCollide | data_cleansing.py:28-32 | `a b` and `a-b` both survive and both end as `a_b`, so the final names need not be distinct |
| Cells.NormalizeText | data_cleansing.py:38-39 | the normalised text has no whitespace at either end and no whitespace inside except single spaces; it keeps every non-whitespace character in order; it is empty exactly when the input is all whitespace |
| Cells.NormalizeTextRun | data_cleansing.py:38-39 | an inner whitespace run between two non-whitespace characters becomes exactly one space, and the text on either side is normalised on its own |
| Cells.StripJoin | data_cleansing.py:38 | stripping text around an inner whitespace run strips only the two outer sides and keeps the run |
| Cells.NormalizeTextFixpoint | data_cleansing.py:38-39 | text already in that shape is unchanged, so normalising is idempotent |
| Cells.CleanCell | data_cleansing.py:35-43 | non-string cells come back unchanged; a string cell becomes missing exactly when its normalised, lower-cased form is `null`, `unknown` or `error`, and otherwise becomes its normalised form |
| Cells.CleanCellIdempotent | data_cleansing.py:35-43 | cleaning a cleaned cell changes nothing |
| Cells.TidySentinel | data_cleansing.py:41-42 | a tidy string whose lower-cased form is a sentinel becomes missing |
| Cells.TidyKept | data_cleansing.py:41-43 | a tidy string that is not a sentinel is kept as it is |
| Cells.BlankCellCleansToEmpty | data_cleansing.py:38-43 | a cell holding only whitespace becomes the empty string, not missing |
| Cells.StripPadded | data_cleansing.py:38 | stripping recovers a non-empty core surrounded by whitespace |
| Cells.PaddedErrorIsMissing | data_cleansing.py:38-42 | `" error "` becomes missing |
| Cells.SentinelCaseInsensitive | data_cleansing.py:41-42 | `NULL` and `Unknown` become missing |
| Cells.SentinelWholeCellOnly | data_cleansing.py:41-43 | `nullable` is kept |
| Cells.CollapseExample | data_cleansing.py:38-39 | `"a   b\t c"` normalises to `"a b c"` |
| Cells.CleanCells | data_cleansing.py:45 | every cell of every column is cleaned; names, dtypes and shape stay |
| Cells.CleanCellsIdempotent | data_cleansing.py:45 | after the cell stage every string cell is tidy and not a sentinel, and a second pass changes nothing |
| Inference.ParseDates | data_cleansing.py:50 | a cell is missing after parsing iff it was missing or failed to parse, a parsed cell holds the parsed date, and the present count afterwards equals the parsed count |
| Inference.ParsedAtMostPresent | data_cleansing.py:51-52 | no more cells parse than are present |
| Inference.ConvertDates | data_cleansing.py:49-54 | an `Object` column is replaced iff it has a present cell and `5*parsed >= 4*present`; then it becomes `Datetime`, keeps at least 80% of its present cells, and misses exactly where the input missed or failed to parse; otherwise it is returned unchanged |
| Inference.EmptyColumnNotDates | data_cleansing.py:53 | a column with no present cell is never converted to dates |
| Inference.DateThresholdBoundary | data_cleansing.py:53 | 4 dates out of 5 present cells convert the column, 3 or fewer do not |
| Inference.ParseNumbers | data_cleansing.py:58 | missing and empty cells become missing, and every other cell becomes the number it parses to |
| Inference.ConvertNumbers | data_cleansing.py:57-58 | only `Object` columns are touched, all or nothing: the column becomes `Numeric` iff every cell that is neither missing nor empty parses, with missing cells where the input was missing or empty; otherwise it is returned exactly as it was |
| Inference.EmptyCellBecomesMissing | data_cleansing.py:57-58 | an empty cell never blocks the numeric conversion, whatever the parser says of it, and becomes missing |
| Inference.EmptyObjectColumnBecomesNumeric | data_cleansing.py:57-58 | an `Object` column with no present cell passes the numeric test vacuously |
| Inference.InferDates | data_cleansing.py:49-54 | the date pass fails, with pandas' duplicate-keys error, exactly when an `Object` column shares its name with another column; otherwise every column goes through the date step on its own and the shape stays |
| Inference.InferNumbers | data_cleansing.py:57-58 | the numeric pass fails exactly when an `Object` column shares its name with another column; otherwise every column goes through the numeric step on its own and the shape stays |
| Inference.InferTypes | data_cleansing.py:49-58 | the stage fails exactly when an `Object` column shares its name with another column; otherwise names and shape stay, and every string cell of the result is the cell that stood there before |
| Inference.InferDatesUnambiguous | data_cleansing.py:49-58 | a successful date pass leaves no `Object` column sharing a name, so the numeric pass after it cannot fail |
| Inference.DistinctNamesInfer | data_cleansing.py:49-58 | pairwise distinct column names never make the type stage fail |
| Inference.InferTypesColumn | data_cleansing.py:49-58 | when the stage succeeds, only `Object` columns change; an `Object` column that passes the date test becomes its date conversion and is untouched by the numeric pass; one that fails the date test goes through the numeric step as it came in; and no missing cell is filled in |
| Inference.InferTypesIdempotent | data_cleansing.py:49-58 | a second pass over a successful result succeeds and changes nothing |
| Pruning.DropEmptyColumns | data_cleansing.py:62 | the columns with a present cell survive unchanged and in order; a column is dropped only when all its cells are missing |
| Pruning.DropEmptyColumnsRow | data_cleansing.py:62 | a row whose only missing cells lie in all-missing columns is complete after the drop |
| Pruning.DropEmptyColumnsNoRows | data_cleansing.py:62 | without rows every column is dropped |
| Pruning.DropEmptyColumnsNoop | data_cleansing.py:62 | with a row and no missing cell no column is dropped |
| Pruning.DropDuplicateRows | data_cleansing.py:64 | a table without columns comes back whole; otherwise the first occurrence of each distinct row survives, in order, and the surviving rows are pairwise distinct |
| Pruning.DropDuplicateRowsCover | data_cleansing.py:64 | every input row equals some surviving row |
| Pruning.DropDuplicateRowsNoop | data_cleansing.py:64 | pairwise distinct rows are all kept, and so are the rows of a table without columns |
| Pruning.DropIncompleteRows | data_cleansing.py:66 | exactly the rows without a missing cell survive, in order |
| Pruning.DropIncompleteRowsNoop | data_cleansing.py:66 | complete rows are all kept |
| Pruning.Prune | data_cleansing.py:62-66 | no cell of the result is missing, no two rows are equal while a column remains, and rows and columns never grow |
| Pruning.EmptyColumnKeepsRows | data_cleansing.py:62-66 | an all-missing column never empties the table by itself |
| Pruning.PruneNoop | data_cleansing.py:62-66 | a table with a row, no missing cell and no equal rows passes pruning unchanged |
| Pruning.PruneNoRows | data_cleansing.py:62-66 | pruning a table without rows drops every column |
| Pruning.PruneAllMissing | data_cleansing.py:62-66 | when every column is all missing, every column is dropped and every row kept, so two or more rows come out equal |
| Pruning.PruneIdempotent | data_cleansing.py:62-66 | pruning twice equals pruning once while a row survives; with no rows the second pass drops every column |
| Pipeline.PruneKeepsNamesAndText | data_cleansing.py:62-66 | pruning keeps word-only names and tidy text |
| Pipeline.CleanDataFrame | data_cleansing.py:5-68 | the cleaner fails exactly when an `Object` column shares its name with another column after the name stage; otherwise the result is well formed and no larger than the input, its names hold only word characters, no cell is missing, no two rows are equal while a column remains, and every string cell is tidy and not a sentinel |
| Pipeline.ObjectNameCollisionFails | data_cleansing.py:28-50 | two columns with different stripped names that sanitise alike, the first of them `Object`, make the cleaner fail |
| Pipeline.CollidingTextColumnsFail | data_cleansing.py:28-50 | a text column `a b` beside a column `a-b` makes the cleaner fail, whatever the cells hold |
| Pipeline.MissingColumnKeepsEveryRow | data_cleansing.py:5-68 | a lone column whose every cell cleans to missing yields a table of all the input rows and no columns, whose rows are all equal |
| Pipeline.SettledTableKept | data_cleansing.py:35-66 | a table with a row, no `Object` column, no missing cell, no equal rows and only tidy non-sentinel text passes the cell, type and pruning stages unchanged |
| Pipeline.SettledAfterNames | data_cleansing.py:5-68 | when the name stage already yields such a table, it is the cleaner's result |
| Pipeline.NumericNameCollisionKept | data_cleansing.py:28-66 | two one-row numeric columns whose names sanitise alike both come out of the cleaner under the one name |
| Pipeline.CollidingNumericColumnsKept | data_cleansing.py:28-66 | numeric columns `a b` and `a-b` come out of the cleaner both named `a_b` |
| FileNames.LastDot | data_cleansing.py:95 | finds the position of the last `.`, or reports that there is none |
| FileNames.RawExtension | data_cleansing.py:95 | the extension holds no dot; it is the whole name when the name has no dot, and otherwise the suffix that follows a dot |
| FileNames.BaseName | data_cleansing.py:117 | with a dot, the name is the base, a dot and the raw extension; without one, the base is the whole name |
| FileNames.SplitJoin | data_cleansing.py:95-117 | joining a base and a dot-free extension with a dot and splitting again gives back both parts |
| FileNames.Extension | data_cleansing.py:95 | the extension is the text after the last dot, lower-cased |
| FileNames.ChooseReader | data_cleansing.py:95-104 | `csv` selects the CSV reader, `xlsx` or `xls` the Excel reader, and any other extension is refused with "Unsupported file type: " and the name |
| FileNames.OutputName | data_cleansing.py:117-118 | the download name starts with `clean_`, ends with `.csv`, and holds the base name in between |
| FileNames.ReportExample | data_cleansing.py:95-118 | `report.xlsx` is read with the Excel reader and saved as `clean_report.csv` |
| FileNames.NoDotNameIsExtension | data_cleansing.py:95-100 | a name without a dot is its own extension, so a file called `CSV` is read as CSV |

## Left out

- The Streamlit page is presentation and I/O, so it is not modelled: title,
  text, uploader, previews, download button and error display
  (data_cleansing.py lines 70-93, 106-112 and 120-128).
- Reading and writing files (`pd.read_csv`, `pd.read_excel`,
  `to_csv(...).encode('utf-8')`) is foreign library code and is not
  modelled. A table is given as a value.
- The per-file `try`/`except` loop is control flow around I/O. Of the
  exceptions raised inside pandas only one is modelled: the failed name
  lookup of the type stage. The error texts are those pandas gives.
- The grammars of `pd.to_datetime(..., infer_datetime_format=True)` and
  `pd.to_numeric` are not modelled. They are abstract parser parameters
  that return an optional value.
- Inference.ParseNumbers: the empty string is modelled as pandas' NaN,
  but other texts that pandas reads as NaN, such as `nan`, are left to the
  parser, which can only map them to a present number.
- Inference.ConvertDates: the ratio test `parsed / present >= 0.8` is
  modelled as the integer test `5*parsed >= 4*present`. The two agree on
  every table smaller than about 2^50 rows.
- Pandas dtype machinery is reduced to one tag per column: `Object`,
  `Numeric`, `Datetime` or `Other`. `applymap` re-infers dtypes from the
  cleaned values, but the model keeps each column's tag through the cell
  stage.
- Non-string column labels are not modelled, so every name is a string.
  In pandas the outcome depends on the whole label index. In an index that
  mixes strings with other labels, a non-string label becomes a missing
  name. In an index with no string labels at all, such as an Excel header
  row of years, `df.columns.str` raises `AttributeError` at line 28, and
  the file is reported as an error.
- Text.IsSpace: whitespace is Python's whitespace among the code points
  below 256. Other Unicode whitespace is not modelled.
- Text.Lower: lower-casing is ASCII only, so non-ASCII letters that
  Python would fold to ASCII are not folded. One example is the Kelvin
  sign in `UNKNOWN`.
- Pipeline.CleanDataFrame: idempotence of the whole pipeline is not
  stated, because it does not hold. Sanitised names can collide, and the
  date ratio changes once rows are dropped.
- Tables.Table: a table with rows but no columns is modelled as rows with
  no cells, with `drop_duplicates` returning it whole as pandas does for an
  empty frame. Its rows compare equal. pandas also reports such a frame as
  `empty`, which the model does not track.
