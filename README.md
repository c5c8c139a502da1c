# Subaward budget review, modelled in Dafny

SubawardBudgetReviewer reads a set of grant-budget spreadsheets and reports every subaward
(an institution that receives part of the grant) with the total amount budgeted for it across
all files. Its logic lives in `ExcelReaderService`:

- the **row scan** (the private `GetSubawards(rows, fileName)`) walks a sheet's rows cell by
  cell. The first cell reading "Total" (any case) fixes the amount column. Each row holding a
  cell that contains "Subaward:" (any case) yields one record. That record's name comes from
  column 2 or, failing that, from column 1 with the marker removed; a missing name becomes
  "Name Missing". Its amount is parsed from the amount column's text, and "0.00" stands in
  only for a null reference;
- the **null guard** `GetSubawardsFromExcelFile` turns a missing table into an empty list, and
  reaches the rows through `Columns[1]`;
- the **aggregator** `GetSubawards(paths)` labels each file with the text after the last
  backslash of its path. It then merges the records of all files into one list. Records with
  the same name are summed into the first entry for that name. "Name Missing" records are
  always appended.

The project is organised as follows:

- `wrappers.dfy`: `Option` and `Result`.
- `text.dfy` (`TextOps`): the string operations the scan uses. These are `Trim`, case-insensitive
  `Equals` and `Contains`, ordinal `Replace(p, "")`, and `LastIndexOf`.
- `decimal.dfy` (`DecimalParsing`): the plain decimal numbers `decimal.Parse` accepts.
- `extraction.dfy` (`Extraction`): the row scan as functions, with lemmas about the amount
  column, name resolution and the records a sheet yields.
- `aggregation.dfy` (`Aggregation`): the file label, the extraction of all files and the
  merge, as functions. It also has an independent description of the merged list (`Summary`:
  one entry per first occurrence of a name, carrying the total for that name), with lemmas.
- `service.dfy` (`ExcelReaderService`): the source's methods, written with its loops. Each is
  proved equal to the function that specifies it.
- `scenarios.dfy` (`Scenarios`): worked sheets. They cover a header plus one row, a row with
  neither a name nor an amount (which throws), a subaward above the header, and two files
  funding the same institution.

Data model:

- A worksheet cell is `Text`, `Blank` or `Null`. The loader creates text columns, so a present
  value is a string. An empty cell holds `DBNull`, whose text is "". `Null` is a null reference.
- A thrown exception is an `Error` value: `IndexOutOfRange(i)` or `FormatError(text)`.
  Operations return `Result`.
- Amounts are `real`.

## Model

| member | source | states |
|---|---|---|
| ExcelReaderService.GetSubawards | SubawardBudgetReviewer/Services/ExcelReaderService.cs:18-54 | the file loop returns exactly `Aggregate(budgets)`: the files' records merged in file order, or the exception of the first file that throws |
| ExcelReaderService.MergeInto | SubawardBudgetReviewer/Services/ExcelReaderService.cs:32-50 | the per-record loop leaves the running list equal to `MergeAll(subawards, found)`, one record merged at a time |
| ExcelReaderService.GetSubawardsFromExcelFile | SubawardBudgetReviewer/Services/ExcelReaderService.cs:62-74 | the result is `ExtractFile(file, fileName)`: empty for a null table, `IndexOutOfRange(1)` for a table with fewer than two columns, otherwise the scan of every row |
| ExcelReaderService.GetSubawardsFromRows | SubawardBudgetReviewer/Services/ExcelReaderService.cs:121-171 | the row loop returns exactly `Extract(rows, fileName)`: records in row order, or the first exception |
| ExcelReaderService.ScanCells | SubawardBudgetReviewer/Services/ExcelReaderService.cs:133-167 | the cell loop stops at the row's first marker cell (`ScanEnd`), and the amount column it leaves is the one `TotalAfterCells` gives for the cells examined |
| Extraction.ExtractFile | SubawardBudgetReviewer/Services/ExcelReaderService.cs:66-71 | a null table yields an empty list; a table with fewer than two columns throws `IndexOutOfRange(1)` |
| Extraction.Extract | SubawardBudgetReviewer/Services/ExcelReaderService.cs:123-126 | a null row collection yields an empty list, not an error |
| Extraction.TotalColumnIsFirstTotal | SubawardBudgetReviewer/Services/ExcelReaderService.cs:129-142 | the amount column stays -1 exactly when the scan examines no "Total" cell; otherwise it is the column of the first examined "Total" cell, in row order and then left to right |
| Extraction.TotalAfterCellsIsFirst | SubawardBudgetReviewer/Services/ExcelReaderService.cs:133-142 | within a row a known amount column stays, and an unknown one becomes the first "Total" cell examined |
| Extraction.TotalColumnNeverChanges | SubawardBudgetReviewer/Services/ExcelReaderService.cs:139-142 | once a prefix of the rows has fixed the amount column, later rows do not change it |
| Extraction.TotalCellIsNoMarker | SubawardBudgetReviewer/Services/ExcelReaderService.cs:139-143 | a cell reading "Total" never contains "Subaward:", so the marker test never fires for it |
| Extraction.ResolveName | SubawardBudgetReviewer/Services/ExcelReaderService.cs:145-152 | the name throws `IndexOutOfRange(2)` exactly when the row has fewer than three cells; otherwise it is never empty, and neither starts nor ends with white space unless it is "Name Missing" |
| Extraction.NameIgnoresSecondColumn | SubawardBudgetReviewer/Services/ExcelReaderService.cs:145-147 | when column 2 holds text, the name is that text trimmed ("Name Missing" if that is empty), whatever column 1 holds |
| Extraction.NameFromSecondColumn | SubawardBudgetReviewer/Services/ExcelReaderService.cs:145-152 | when column 2 is null or empty, the name is column 1 with every "Subaward:" removed and trimmed, "Name Missing" if empty or null |
| Extraction.Amount | SubawardBudgetReviewer/Services/ExcelReaderService.cs:157 | the amount as written: it throws `IndexOutOfRange(totalColumn)` exactly when the column is outside the row; for a text cell it is the parsed value, and `FormatError` exactly when the text does not parse |
| Extraction.EmptyAmountCells | SubawardBudgetReviewer/Services/ExcelReaderService.cs:157 | as written, a blank (`DBNull`) amount cell throws `FormatError("")`, and only a null reference reads as "0.00", zero |
| Extraction.BlankAmountCellFails | SubawardBudgetReviewer/Services/ExcelReaderService.cs:157 | a blank amount cell throws `FormatError("")` as written, while the intended reading gives zero |
| Extraction.AmountIntended | SubawardBudgetReviewer/Services/ExcelReaderService.cs:157 | the intended reading agrees with the written one on every cell except a blank one |
| Extraction.EmptyAmountCellIsZero | SubawardBudgetReviewer/Services/ExcelReaderService.cs:157 | under the intended reading a blank or null amount cell is zero |
| Extraction.RecordFor | SubawardBudgetReviewer/Services/ExcelReaderService.cs:145-159 | a marker row yields a record exactly when both its name and its amount are read without an exception; the record holds that name (never empty), that amount and the file name; otherwise the name's exception comes first, then the amount's |
| Extraction.ExtractRowsCorrespond | SubawardBudgetReviewer/Services/ExcelReaderService.cs:131-168 | a successful scan yields one record per row holding a marker cell, in row order, each the record of that row |
| Extraction.MarkerRows | SubawardBudgetReviewer/Services/ExcelReaderService.cs:143 | the marker rows are exactly the rows holding a marker cell, in increasing order |
| Extraction.ExtractRowsLabelled | SubawardBudgetReviewer/Services/ExcelReaderService.cs:158 | every record of a successful scan carries the file name passed in |
| Extraction.ExtractRowsFailsAt | SubawardBudgetReviewer/Services/ExcelReaderService.cs:143-159 | a marker row whose record throws, reached after the rows before it were read, makes the whole scan throw that exception; no row is skipped |
| Extraction.ExtractRowsFailure | SubawardBudgetReviewer/Services/ExcelReaderService.cs:131-168 | a scan that throws does so at a marker row: one read after a successful prefix, whose record throws that exception |
| Extraction.ExtractRowsSucceeds | SubawardBudgetReviewer/Services/ExcelReaderService.cs:131-168 | a scan in which every marker row's record is read without an exception does not throw |
| Extraction.ExtractErrorPersists | SubawardBudgetReviewer/Services/ExcelReaderService.cs:131-168 | once the rows up to some point throw, the whole scan throws that same exception |
| Extraction.NoMarkerRowsYieldNothing | SubawardBudgetReviewer/Services/ExcelReaderService.cs:131-170 | rows without a marker cell yield an empty list |
| Extraction.MissingTotalFails | SubawardBudgetReviewer/Services/ExcelReaderService.cs:157 | a marker row reached before any "Total" cell makes the scan throw `IndexOutOfRange` |
| Aggregation.FileLabel | SubawardBudgetReviewer/Services/ExcelReaderService.cs:24 | the label is a suffix of the path holding no backslash, and it is preceded by a backslash unless it is the whole path |
| Aggregation.FileLabelOfPlainName | SubawardBudgetReviewer/Services/ExcelReaderService.cs:24 | a path without a backslash is its own label |
| Aggregation.FileLabelAfterDirectory | SubawardBudgetReviewer/Services/ExcelReaderService.cs:24 | the label of `dir\name` is `name` |
| Aggregation.FileRecordsLabelled | SubawardBudgetReviewer/Services/ExcelReaderService.cs:24-30 | every record of a file carries that file's label |
| Aggregation.ExtractAllErrorPersists | SubawardBudgetReviewer/Services/ExcelReaderService.cs:22-30 | the exception of the first file that throws is the result of the whole run |
| Aggregation.FirstWithName | SubawardBudgetReviewer/Services/ExcelReaderService.cs:40 | the position of the first entry with the name, and none exactly when no entry has it |
| Aggregation.MergeOneChanges | SubawardBudgetReviewer/Services/ExcelReaderService.cs:34-49 | a sentinel or a new name is appended; otherwise the first entry with the name gets the amount added, and nothing else changes |
| Aggregation.MergeAllAppend | SubawardBudgetReviewer/Services/ExcelReaderService.cs:22-50 | merging file after file is merging all their records in one go |
| Aggregation.MergeAllKeepsEntries | SubawardBudgetReviewer/Services/ExcelReaderService.cs:40-49 | entries already in the list are never removed or moved: they keep their name and file, and are untouched unless a later record has their name |
| Aggregation.MergeAllIsSummary | SubawardBudgetReviewer/Services/ExcelReaderService.cs:32-50 | the merged list equals the independent `Summary`: one entry per sentinel or first occurrence of a name, in record order, carrying the total for its name |
| Aggregation.MergedNamesDistinct | SubawardBudgetReviewer/Services/ExcelReaderService.cs:40-49 | no two entries of the merged list share a name, unless the first is "Name Missing" |
| Aggregation.MergedNames | SubawardBudgetReviewer/Services/ExcelReaderService.cs:40-49 | a name is in the merged list exactly when some record has it |
| Aggregation.MergedTotals | SubawardBudgetReviewer/Services/ExcelReaderService.cs:44 | each non-sentinel entry holds the sum of all amounts recorded under its name |
| Aggregation.MergedFirstSeenOrder | SubawardBudgetReviewer/Services/ExcelReaderService.cs:40-49 | entries appear in first-seen order, each with the name and file of the record that introduced it |
| Aggregation.MergedSentinels | SubawardBudgetReviewer/Services/ExcelReaderService.cs:34-38 | the merged list holds exactly the extracted "Name Missing" records, in order and in number |
| Aggregation.TotalForAppend | SubawardBudgetReviewer/Services/ExcelReaderService.cs:44 | the total of a name over two runs of records is the sum of the two totals |
| Aggregation.MapSeqAppend | SubawardBudgetReviewer/Services/ExcelReaderService.cs:22-30 | reading two runs of files one after the other gives the outcomes of the first run, then those of the second |
| Aggregation.CollectAppend | SubawardBudgetReviewer/Services/ExcelReaderService.cs:22-30 | collecting two runs of outcomes one after the other: the first exception wins, otherwise the records of the first run precede those of the second |
| Aggregation.ExtractAllAppend | SubawardBudgetReviewer/Services/ExcelReaderService.cs:22-30 | the records of files `a + b` are those of `a` followed by those of `b`, or the first exception |
| Aggregation.ExtractAllSwapped | SubawardBudgetReviewer/Services/ExcelReaderService.cs:22-30 | when `p + a + b + s` reads without an exception, it yields the records of `p`, `a`, `b` and `s` in that order, and `p + b + a + s` yields those of `p`, `b`, `a` and `s` |
| Aggregation.ExtractAllSwapTotals | SubawardBudgetReviewer/Services/ExcelReaderService.cs:22-44 | swapping two adjacent runs of files keeps the run free of exceptions and every name's total the same; such swaps reach every reordering of the files |
| Aggregation.MergedAmountsAgree | SubawardBudgetReviewer/Services/ExcelReaderService.cs:32-50 | record lists with the same names and totals merge to lists whose non-sentinel entries match by name and amount |
| Aggregation.AggregateOrderIndependent | SubawardBudgetReviewer/Services/ExcelReaderService.cs:18-54 | swapping two adjacent runs of files does not change what is reported for a named subaward: every non-sentinel entry has an entry with the same name and amount after the swap. Such swaps reach every reordering, so no order of the files changes a named total |
| DecimalParsing.ParseCentsLiteral | SubawardBudgetReviewer/Services/ExcelReaderService.cs:157 | every amount written with two decimals parses back to its value |
| DecimalParsing.ParseNegated | SubawardBudgetReviewer/Services/ExcelReaderService.cs:157 | a leading minus sign negates the value |
| DecimalParsing.ParseZero | SubawardBudgetReviewer/Services/ExcelReaderService.cs:157 | the default text "0.00" parses to zero |
| DecimalParsing.ParseEmpty | SubawardBudgetReviewer/Services/ExcelReaderService.cs:157 | the empty text does not parse |
| TextOps.ContainsIgnoreCase | SubawardBudgetReviewer/Services/ExcelReaderService.cs:143 | true exactly when the pattern occurs somewhere, ignoring case |
| TextOps.RemoveAll | SubawardBudgetReviewer/Services/ExcelReaderService.cs:146 | the text is unchanged exactly when it holds no occurrence, and otherwise shrinks by at least the pattern's length |
| TextOps.RemoveAllLeftmost | SubawardBudgetReviewer/Services/ExcelReaderService.cs:146 | occurrences are removed from the left without overlap: the text before the first occurrence is kept, that occurrence is dropped, and the removal goes on after it |
| TextOps.TrimWithIsTrim | SubawardBudgetReviewer/Services/ExcelReaderService.cs:146-147 | the trim is the input with a white-space prefix and a white-space suffix removed, and its ends are not white space |
| TextOps.TrimWithKeeps | SubawardBudgetReviewer/Services/ExcelReaderService.cs:146-147 | text whose ends are not white space is its own trim |
| TextOps.LastIndexOf | SubawardBudgetReviewer/Services/ExcelReaderService.cs:24 | the last position of the character, or -1 when it does not occur |
| Scenarios.OneRowSheet | SubawardBudgetReviewer/Services/ExcelReaderService.cs:121-171 | a header row with "Total" in column 3 and one subaward row yield one record, with the row's institution and amount |
| Scenarios.UnnamedRowFails | SubawardBudgetReviewer/Services/ExcelReaderService.cs:145-157 | a header plus a marker row with no name and a blank amount cell throws `FormatError("")` |
| Scenarios.UnnamedRowIntended | SubawardBudgetReviewer/Services/ExcelReaderService.cs:145-157 | under the intended reading of line 157 that row would be "Name Missing" with zero |
| Scenarios.SubawardBeforeHeaderFails | SubawardBudgetReviewer/Services/ExcelReaderService.cs:157 | a subaward row above every "Total" cell throws `IndexOutOfRange(-1)` |
| Scenarios.TwoFilesSameInstitution | SubawardBudgetReviewer/Services/ExcelReaderService.cs:18-54 | two files funding the same institution give one entry, labelled with the first file, carrying the sum of both amounts |

## Left out

- Loading the workbook (`ReadExcelFile`, EPPlus and `DataTable`) is not modelled. The table it returns is the input `Option<Table>`: a column count and a grid of cells, header row included. The grid's rows need not all have the same length, which a `DataTable` would guarantee.
- Reading the file (`File.OpenRead`) and the progress lines written to the console are I/O and are not modelled. A budget is a path paired with the table read from it.
- Load failures cannot be expressed: a file that does not open, one that is not a workbook, or a worksheet whose `Dimension` is null throws in the source and ends the whole run, but a budget always carries a table or none.
- The console driver, `Program.cs`, is not part of this model: prompting, directory listing, currency formatting.
- `decimal.Parse` is modelled for plain decimal numbers only: optional surrounding white space, an optional leading sign, digits, and an optional point followed by digits. Culture settings, the 28-digit range and rounding are not modelled.
- `DecimalParsing.Parse`: thousands separators ("1,000.00") and a trailing sign ("5-") are accepted by `decimal.Parse` with its default `NumberStyles.Number`, but the model gives no value for them, so `Extraction.Amount` throws `FormatError` where the source reads a number.
- Exponents, currency symbols and parentheses are rejected by both `decimal.Parse` with `NumberStyles.Number` and the model.
- `decimal` overflow in `Amount +=` is not modelled, because amounts are unbounded `real`s.
- Case-insensitive comparison folds ASCII letters only. The invariant culture's case rules for other letters are not modelled, nor is its skipping of ignorable characters: with `InvariantCultureIgnoreCase`, `Contains` and `Equals` pass over characters such as the soft hyphen U+00AD, so "Sub\u00ADaward:" is a marker in .NET but not for `TextOps.ContainsIgnoreCase`.
- `TextOps.LastIndexOf` finds a single character with ordinal comparison. `LastIndexOf("\\")` on a string is culture-sensitive in .NET; that difference is not modelled.
- The in-place `exists.Amount += …` changes a `Subaward` object that the per-file list may also hold, and the `foreach` over that list goes on after the change. The model replaces the entry by index in a sequence instead. The change is not observable: the object changed is always one the loop has already passed, since it entered the running list from an earlier file or from an earlier position of the same list, and a `foreach` reads each element only once.
- The test's spreadsheet fixture is binary. Its expectation of four named subawards cannot be restated without the sheet's contents.
- Aggregation.AggregateOrderIndependent: states one swap of adjacent runs of files; the chain of swaps that turns one order of the files into any other is not written out as a lemma.
- `DecimalParsing.ParseCentsLiteral` covers non-negative amounts only; a negative amount follows from it through `DecimalParsing.ParseNegated`.

The model follows the code. A table with fewer than two columns throws at `file.Columns[1]`. An empty amount cell makes `decimal.Parse` throw at line 157. The reading that treats an empty amount cell as zero is kept apart as `Extraction.AmountIntended`, and the scan does not use it.

## Findings

| source | as written | input that shows it | evidently intended | confidence | as-written member | corrected member |
|---|---|---|---|---|---|---|
| SubawardBudgetReviewer/Services/ExcelReaderService.cs:157 | `decimal.Parse(row.ItemArray[totalColumn]?.ToString() ?? "0.00")`: only a null reference takes "0.00", but an empty worksheet cell holds `DBNull`, whose text is "", and `decimal.Parse("")` throws `FormatException` | a "Subaward:" row whose cell in the amount column is empty | an empty amount cell reads as 0.00 | medium; not executed | Extraction.BlankAmountCellFails | Extraction.EmptyAmountCellIsZero |
