/** ExcelReaderService's three scanning methods, written as the loops they are and proved to
    compute the functions of Extraction and Aggregation. The loader (ReadExcelFile) is not part
    of this model: its outcome, the table or null, is the `sheet` of each budget. */
module ExcelReaderService {
  import opened Wrappers
  import opened TextOps
  import opened Extraction
  import opened Aggregation

  /** The private GetSubawards(rows, fileName): each row is scanned in turn, and a row whose
      scan stops at a "Subaward:" cell adds the record it builds. An exception ends the scan. */
  method GetSubawardsFromRows(rows: Option<seq<seq<Cell>>>, fileName: string) returns (r: Result<seq<Subaward>, Error>)
    ensures r == Extract(rows, fileName)
  {
    if rows.None? {
      return Ok([]);
    }
    var grid := rows.value;
    var subawards: seq<Subaward> := [];
    var totalColumn := -1;
    var k := 0;
    while k < |grid|
      invariant k <= |grid|
      invariant ExtractRows(grid[..k], fileName) == Ok(subawards)
      invariant totalColumn == TotalAfterRows(grid[..k])
    {
      var row := grid[k];
      var stop;
      totalColumn, stop := ScanCells(row, totalColumn);
      ExtractRowsNext(grid, fileName, k);
      if stop < |row| {
        var name := ResolveName(row);
        if name.Err? {
          ExtractErrorPersists(grid, fileName, k + 1);
          return Err(name.error);
        }
        var amount := Amount(row, totalColumn);
        if amount.Err? {
          ExtractErrorPersists(grid, fileName, k + 1);
          return Err(amount.error);
        }
        subawards := subawards + [Subaward(name.value, amount.value, fileName)];
      }
      k := k + 1;
    }
    assert grid[..k] == grid;
    return Ok(subawards);
  }

  /** The cell loop of the row scan: cells are examined left to right; while no amount column
      is known, a "Total" cell fixes it; the first "Subaward:" cell ends the loop. Returns the
      amount column and where the loop stopped. */
  method ScanCells(row: seq<Cell>, entering: int) returns (totalColumn: int, stop: nat)
    ensures stop == ScanEnd(row)
    ensures totalColumn == TotalAfterCells(row, entering, stop)
  {
    totalColumn := entering;
    var i := 0;
    while i < |row|
      invariant i <= |row|
      invariant forall j :: 0 <= j < i ==> !IsMarkerCell(row[j])
      invariant totalColumn == TotalAfterCells(row, entering, i)
    {
      var item := row[i];
      if item.Text? {
        if totalColumn == -1 && EqualsIgnoreCase(item.text, TotalMarker) {
          TotalCellIsNoMarker(item);
          totalColumn := i;
        } else if ContainsIgnoreCase(item.text, SubawardMarker) {
          break;
        }
      }
      i := i + 1;
    }
    ScanStopsAt(row, i);
    stop := i;
  }

  /** The scan of a row stops at cell `i` when no earlier cell is a "Subaward:" cell and cell
      `i` is one, or `i` is the end of the row. */
  lemma {:induction false} ScanStopsAt(row: seq<Cell>, i: nat)
    requires i <= |row| && forall j :: 0 <= j < i ==> !IsMarkerCell(row[j])
    requires i < |row| ==> IsMarkerCell(row[i])
    ensures ScanEnd(row) == i
  {
  }

  /** GetSubawardsFromExcelFile: a null table yields no records; `file.Columns[1]` throws when
      the table has fewer than two columns; otherwise the table's rows are scanned. */
  method GetSubawardsFromExcelFile(file: Option<Table>, fileName: string) returns (r: Result<seq<Subaward>, Error>)
    ensures r == ExtractFile(file, fileName)
  {
    if file.None? {
      return Ok([]);
    }
    if file.value.columnCount < 2 {
      return Err(IndexOutOfRange(1));
    }
    r := GetSubawardsFromRows(Some(file.value.rows), fileName);
  }

  /** The public GetSubawards: the files are read in order, and each file's records are merged
      into the running list as they come. */
  method GetSubawards(budgets: seq<Budget>) returns (r: Result<seq<Subaward>, Error>)
    ensures r == Aggregate(budgets)
  {
    var subawards: seq<Subaward> := [];
    ghost var seen: seq<Subaward> := [];
    var i := 0;
    while i < |budgets|
      invariant i <= |budgets|
      invariant ExtractAll(budgets[..i]) == Ok(seen)
      invariant subawards == MergeAll([], seen)
    {
      var budget := budgets[i];
      var fileName := FileLabel(budget.path);
      var budgetSubawards := GetSubawardsFromExcelFile(budget.sheet, fileName);
      ExtractAllNext(budgets, i);
      if budgetSubawards.Err? {
        ExtractAllErrorPersists(budgets, i + 1);
        return Err(budgetSubawards.error);
      }
      MergeAllAppend([], seen, budgetSubawards.value);
      subawards := MergeInto(subawards, budgetSubawards.value);
      seen := seen + budgetSubawards.value;
      i := i + 1;
    }
    assert budgets[..i] == budgets;
    return Ok(subawards);
  }

  /** The record loop of GetSubawards: a "Name Missing" record or a record with a new name is
      appended; any other record's amount is added in place to the first entry with its name. */
  method MergeInto(subawards: seq<Subaward>, found: seq<Subaward>) returns (merged: seq<Subaward>)
    ensures merged == MergeAll(subawards, found)
  {
    merged := subawards;
    var j := 0;
    while j < |found|
      invariant j <= |found|
      invariant merged == MergeAll(subawards, found[..j])
    {
      var subaward := found[j];
      assert found[..j + 1] == found[..j] + [subaward];
      MergeAllSnoc(subawards, found[..j], subaward);
      if subaward.name == NameMissing {
        merged := merged + [subaward];
      } else {
        var existing := FirstWithName(merged, subaward.name);
        if existing.Some? {
          var p := existing.value;
          merged := merged[p := Added(merged[p], subaward.amount)];
        } else {
          merged := merged + [subaward];
        }
      }
      j := j + 1;
    }
    assert found[..j] == found;
  }
}
