/** The row scan of ExcelReaderService (the private GetSubawards over a table's rows), stated as
    functions: what one row yields, which column holds the amounts, and what a whole table yields. */
module Extraction {
  import opened Wrappers
  import opened TextOps
  import DecimalParsing

  /** A value of DataRow.ItemArray. The loader's columns are text columns, so a present value is
      a string; a cell the worksheet leaves empty holds DBNull.Value (Blank), whose text is "";
      Null is a null reference, which the `?.` and `??` operators test for. */
  datatype Cell = Text(text: string) | Blank | Null

  /** The DataTable the loader builds: its number of columns and its rows, header row included. */
  datatype Table = Table(columnCount: nat, rows: seq<seq<Cell>>)

  /** A subaward line item: the institution's name, its amount and the file it came from. */
  datatype Subaward = Subaward(name: string, amount: real, fileName: string)

  /** The exceptions the scan lets escape: IndexOutOfRangeException and FormatException. */
  datatype Error = IndexOutOfRange(index: int) | FormatError(text: string)

  const NameMissing: string := "Name Missing"
  const TotalMarker: string := "Total"
  const SubawardMarker: string := "Subaward:"
  const ZeroText: string := "0.00"

  /** `item?.ToString()`. */
  function ToText(c: Cell): Option<string>
  {
    match c
    case Text(s) => Some(s)
    case Blank => Some("")
    case Null => None
  }

  /** string.IsNullOrEmpty. */
  predicate IsNullOrEmpty(t: Option<string>)
  {
    t.None? || t.value == ""
  }

  /** A text cell that reads "Total" ignoring case. */
  predicate IsTotalCell(c: Cell)
  {
    c.Text? && EqualsIgnoreCase(c.text, TotalMarker)
  }

  /** A text cell that contains "Subaward:" ignoring case. */
  predicate IsMarkerCell(c: Cell)
  {
    c.Text? && ContainsIgnoreCase(c.text, SubawardMarker)
  }

  /** The untrimmed text a subaward row's name comes from: column 2 when it has text, otherwise
      column 1 with every "Subaward:" cut out (None when column 1 is a null reference). */
  function NameSource(row: seq<Cell>): Option<string>
    requires |row| >= 3
  {
    if IsNullOrEmpty(ToText(row[2])) then
      match ToText(row[1])
      case None => None
      case Some(t) => Some(RemoveAll(t, SubawardMarker))
    else
      ToText(row[2])
  }

  /** The name a subaward row carries. Column 2 wins when it has text; otherwise column 1 with
      every "Subaward:" cut out; both are trimmed, and an empty outcome is the "Name Missing"
      sentinel. A row without a column 2 throws. The name is never empty and, apart from the
      sentinel, neither starts nor ends with white space. */
  function ResolveName(row: seq<Cell>): (r: Result<string, Error>)
    ensures r.Err? <==> |row| < 3
    ensures r.Err? ==> r.error == IndexOutOfRange(2)
    ensures r.Ok? ==> r.value != []
    ensures r.Ok? && r.value != NameMissing ==> !IsWhiteSpace(r.value[0]) && !IsWhiteSpace(r.value[|r.value| - 1])
  {
    if |row| < 3 then
      Err(IndexOutOfRange(2))
    else
      var source := NameSource(row);
      if source.None? || Trim(source.value) == "" then
        Ok(NameMissing)
      else
        TrimWithEnds(source.value, IsWhiteSpace);
        Ok(Trim(source.value))
  }

  /** Reads the amount of a row from column `totalColumn`, turning the cell into text with `read`.
      A column outside the row throws, and text that is not a number throws. */
  function AmountWith(row: seq<Cell>, totalColumn: int, read: Cell -> string): Result<real, Error>
  {
    if 0 <= totalColumn < |row| then
      var text := read(row[totalColumn]);
      match DecimalParsing.Parse(text)
      case Some(v) => Ok(v)
      case None => Err(FormatError(text))
    else
      Err(IndexOutOfRange(totalColumn))
  }

  /** `row.ItemArray[totalColumn]?.ToString() ?? "0.00"`: only a null reference takes the
      default, and a blank cell (DBNull) reads as "". */
  function AmountText(c: Cell): string
  {
    match c
    case Text(s) => s
    case Blank => ""
    case Null => ZeroText
  }

  /** The text the amount is evidently meant to be read from: a blank cell too reads as "0.00". */
  function AmountTextIntended(c: Cell): string
  {
    match c
    case Text(s) => s
    case _ => ZeroText
  }

  /** The amount of a subaward row: the number in its cell of the amount column. While no amount
      column is known (-1) the read throws; text that is not a number throws, and so does a
      blank cell, whose text is ""; a null reference reads as "0.00". */
  function Amount(row: seq<Cell>, totalColumn: int): (r: Result<real, Error>)
    ensures r == Err(IndexOutOfRange(totalColumn)) <==> !(0 <= totalColumn < |row|)
    ensures 0 <= totalColumn < |row| && row[totalColumn].Text? ==>
              (r.Ok? ==> DecimalParsing.Parse(row[totalColumn].text) == Some(r.value))
              && (r.Err? <==> DecimalParsing.Parse(row[totalColumn].text).None?)
              && (r.Err? ==> r.error == FormatError(row[totalColumn].text))
  {
    AmountWith(row, totalColumn, AmountText)
  }

  /** A blank amount cell throws a FormatException, since DBNull's text is "" and the "0.00"
      default only replaces a null reference; a null reference reads as zero. */
  lemma {:induction false} EmptyAmountCells(row: seq<Cell>, totalColumn: int)
    requires 0 <= totalColumn < |row| && !row[totalColumn].Text?
    ensures row[totalColumn] == Blank ==> Amount(row, totalColumn) == Err(FormatError(""))
    ensures row[totalColumn] == Null ==> Amount(row, totalColumn) == Ok(0.0)
  {
    DecimalParsing.ParseEmpty();
    DecimalParsing.ParseZero();
  }

  /** The amount as the code evidently intends it: a blank cell reads as zero, like a null one.
      On every other row it agrees with the amount the code reads. */
  function AmountIntended(row: seq<Cell>, totalColumn: int): (r: Result<real, Error>)
    ensures !(0 <= totalColumn < |row| && row[totalColumn] == Blank) ==> r == Amount(row, totalColumn)
  {
    AmountWith(row, totalColumn, AmountTextIntended)
  }

  /** Under the intended reading a blank or null amount cell is zero. */
  lemma {:induction false} EmptyAmountCellIsZero(row: seq<Cell>, totalColumn: int)
    requires 0 <= totalColumn < |row| && !row[totalColumn].Text?
    ensures AmountIntended(row, totalColumn) == Ok(0.0)
  {
    assert AmountTextIntended(row[totalColumn]) == ZeroText;
    DecimalParsing.ParseZero();
  }

  /** A blank cell in the amount column: the code throws a FormatException, where the intended
      reading takes it as zero. */
  lemma {:induction false} BlankAmountCellFails(row: seq<Cell>, totalColumn: int)
    requires 0 <= totalColumn < |row| && row[totalColumn] == Blank
    ensures Amount(row, totalColumn) == Err(FormatError(""))
    ensures AmountIntended(row, totalColumn) == Ok(0.0)
  {
    EmptyAmountCells(row, totalColumn);
    EmptyAmountCellIsZero(row, totalColumn);
  }

  /** The record a subaward row yields: the name is read before the amount, and the record is
      labelled with the file it came from. */
  function RecordFor(row: seq<Cell>, totalColumn: int, fileName: string): (r: Result<Subaward, Error>)
    ensures r.Ok? ==> r.value.fileName == fileName && r.value.name != []
    ensures r.Ok? <==> ResolveName(row).Ok? && Amount(row, totalColumn).Ok?
    ensures r.Ok? ==> r.value == Subaward(ResolveName(row).value, Amount(row, totalColumn).value, fileName)
    ensures r.Err? ==> r.error == if ResolveName(row).Err? then ResolveName(row).error else Amount(row, totalColumn).error
  {
    match ResolveName(row)
    case Err(e) => Err(e)
    case Ok(name) =>
      match Amount(row, totalColumn)
      case Err(e) => Err(e)
      case Ok(amount) => Ok(Subaward(name, amount, fileName))
  }

  /** Where the scan of a row that starts at `from` stops: the first "Subaward:" cell at or after
      `from`, or the end of the row. */
  function MarkerFrom(row: seq<Cell>, from: nat): (e: nat)
    requires from <= |row|
    ensures from <= e <= |row|
    ensures e < |row| ==> IsMarkerCell(row[e])
    ensures forall j :: from <= j < e ==> !IsMarkerCell(row[j])
    decreases |row| - from
  {
    if from == |row| || IsMarkerCell(row[from]) then from else MarkerFrom(row, from + 1)
  }

  /** The number of cells of a row the scan examines before it stops at a "Subaward:" cell. */
  function ScanEnd(row: seq<Cell>): nat
  {
    MarkerFrom(row, 0)
  }

  /** The row holds a "Subaward:" cell, so it yields a record. */
  predicate HasMarker(row: seq<Cell>)
  {
    ScanEnd(row) < |row|
  }

  /** `totalColumn` once the scan has examined row[..i], having entered the row with `total`:
      the first "Total" cell fixes it, and a known column is never replaced. */
  function TotalAfterCells(row: seq<Cell>, total: int, i: nat): int
    requires i <= |row|
  {
    if i == 0 then
      total
    else
      var t := TotalAfterCells(row, total, i - 1);
      if t == -1 && IsTotalCell(row[i - 1]) then i - 1 else t
  }

  /** `totalColumn` once the scan has gone through all of `rows`. */
  function TotalAfterRows(rows: seq<seq<Cell>>): int
  {
    if rows == [] then
      -1
    else
      var row := rows[|rows| - 1];
      TotalAfterCells(row, TotalAfterRows(rows[..|rows| - 1]), ScanEnd(row))
  }

  /** The records the scan of `rows` yields, or the exception that ends it: one record for each
      row that holds a "Subaward:" cell, built with the amount column known at that cell. */
  function ExtractRows(rows: seq<seq<Cell>>, fileName: string): Result<seq<Subaward>, Error>
  {
    if rows == [] then
      Ok([])
    else
      match ExtractRows(rows[..|rows| - 1], fileName)
      case Err(e) => Err(e)
      case Ok(found) =>
        var row := rows[|rows| - 1];
        if !HasMarker(row) then
          Ok(found)
        else
          match RecordFor(row, TotalAfterRows(rows), fileName)
          case Err(e) => Err(e)
          case Ok(s) => Ok(found + [s])
  }

  /** The private GetSubawards(rows, fileName): a null row collection yields no records. */
  function Extract(rows: Option<seq<seq<Cell>>>, fileName: string): (r: Result<seq<Subaward>, Error>)
    ensures rows.None? ==> r == Ok([])
  {
    match rows
    case None => Ok([])
    case Some(rs) => ExtractRows(rs, fileName)
  }

  /** GetSubawardsFromExcelFile after the loader: a null table yields no records; `Columns[1]`
      throws when the table has fewer than two columns; otherwise all rows are scanned. */
  function ExtractFile(file: Option<Table>, fileName: string): (r: Result<seq<Subaward>, Error>)
    ensures file.None? ==> r == Ok([])
    ensures file.Some? && file.value.columnCount < 2 ==> r == Err(IndexOutOfRange(1))
  {
    match file
    case None => Ok([])
    case Some(t) => if t.columnCount < 2 then Err(IndexOutOfRange(1)) else Extract(Some(t.rows), fileName)
  }

  // Properties of the scan

  /** Scanning row `k` after the rows before it. */
  lemma {:induction false} ExtractRowsNext(rows: seq<seq<Cell>>, fileName: string, k: nat)
    requires k < |rows|
    ensures TotalAfterRows(rows[..k + 1]) == TotalAfterCells(rows[k], TotalAfterRows(rows[..k]), ScanEnd(rows[k]))
    ensures ExtractRows(rows[..k + 1], fileName) ==
              match ExtractRows(rows[..k], fileName)
              case Err(e) => Err(e)
              case Ok(found) =>
                if !HasMarker(rows[k]) then
                  Ok(found)
                else
                  match RecordFor(rows[k], TotalAfterRows(rows[..k + 1]), fileName)
                  case Err(e) => Err(e)
                  case Ok(s) => Ok(found + [s])
  {
    assert rows[..k + 1][..k] == rows[..k] && rows[..k + 1][k] == rows[k];
  }

  /** A "Total" cell is never a "Subaward:" cell: it is too short to hold one. */
  lemma {:induction false} TotalCellIsNoMarker(c: Cell)
    requires IsTotalCell(c)
    ensures !IsMarkerCell(c)
  {
    assert |c.text| == 5 && |SubawardMarker| == 9;
  }

  /** Within a row: a known amount column stays; an unknown one becomes the first "Total" cell
      examined, and stays unknown exactly when no examined cell reads "Total". */
  lemma {:induction false} TotalAfterCellsIsFirst(row: seq<Cell>, total: int, i: nat)
    requires i <= |row|
    ensures total != -1 ==> TotalAfterCells(row, total, i) == total
    ensures total == -1 && TotalAfterCells(row, total, i) == -1 ==>
              forall j :: 0 <= j < i ==> !IsTotalCell(row[j])
    ensures total == -1 && TotalAfterCells(row, total, i) != -1 ==>
              var c := TotalAfterCells(row, total, i);
              0 <= c < i && IsTotalCell(row[c]) && forall j :: 0 <= j < c ==> !IsTotalCell(row[j])
  {
    if i > 0 {
      TotalAfterCellsIsFirst(row, total, i - 1);
    }
  }

  /** Cell `j` of row `k` reads "Total" and the scan examines it: no "Subaward:" cell comes
      before it in its row. */
  predicate ScannedTotal(rows: seq<seq<Cell>>, k: int, j: int)
  {
    0 <= k < |rows| && 0 <= j < ScanEnd(rows[k]) && IsTotalCell(rows[k][j])
  }

  /** The amount column is the column of the first "Total" cell the scan examines, in row order
      and then left to right, and it stays -1 exactly when the scan meets no such cell. */
  lemma {:induction false} TotalColumnIsFirstTotal(rows: seq<seq<Cell>>)
    ensures TotalAfterRows(rows) == -1 <==> forall k, j :: !ScannedTotal(rows, k, j)
    ensures TotalAfterRows(rows) != -1 ==>
              exists k :: ScannedTotal(rows, k, TotalAfterRows(rows))
                && forall k', j' :: ScannedTotal(rows, k', j') ==> k < k' || (k == k' && TotalAfterRows(rows) <= j')
  {
    if rows != [] {
      var n := |rows| - 1;
      var front, row := rows[..n], rows[n];
      TotalColumnIsFirstTotal(front);
      var before := TotalAfterRows(front);
      var after := TotalAfterRows(rows);
      TotalAfterCellsIsFirst(row, before, ScanEnd(row));
      assert forall k, j :: k < n ==> (ScannedTotal(rows, k, j) <==> ScannedTotal(front, k, j));
      assert forall j :: ScannedTotal(rows, n, j) <==> 0 <= j < ScanEnd(row) && IsTotalCell(row[j]);
      if before != -1 {
        var k :| ScannedTotal(front, k, before)
                 && forall k', j' :: ScannedTotal(front, k', j') ==> k < k' || (k == k' && before <= j');
        assert ScannedTotal(rows, k, after);
      } else if after != -1 {
        assert ScannedTotal(rows, n, after);
      }
    }
  }

  /** Once the amount column is known it never changes for the rest of the scan. */
  lemma {:induction false} TotalColumnNeverChanges(rows: seq<seq<Cell>>, k: nat)
    requires k <= |rows| && TotalAfterRows(rows[..k]) != -1
    ensures TotalAfterRows(rows) == TotalAfterRows(rows[..k])
    decreases |rows|
  {
    if k < |rows| {
      var n := |rows| - 1;
      assert rows[..n][..k] == rows[..k];
      TotalColumnNeverChanges(rows[..n], k);
      TotalAfterCellsIsFirst(rows[n], TotalAfterRows(rows[..n]), ScanEnd(rows[n]));
    } else {
      assert rows[..k] == rows;
    }
  }

  /** The positions of the rows that hold a "Subaward:" cell, in increasing order. */
  function MarkerRows(rows: seq<seq<Cell>>): (ks: seq<nat>)
    ensures |ks| <= |rows|
    ensures forall t :: 0 <= t < |ks| ==> ks[t] < |rows| && HasMarker(rows[ks[t]])
    ensures forall t, u :: 0 <= t < u < |ks| ==> ks[t] < ks[u]
    ensures forall k :: 0 <= k < |rows| && HasMarker(rows[k]) ==> k in ks
  {
    if rows == [] then
      []
    else
      var n := |rows| - 1;
      var before := MarkerRows(rows[..n]);
      if HasMarker(rows[n]) then before + [n] else before
  }

  /** One more row: a successful scan of `rows` extends the scan of all but its last row by the
      last row's record when that row holds a "Subaward:" cell, and by nothing otherwise. */
  lemma {:induction false} ExtractRowsSnoc(rows: seq<seq<Cell>>, fileName: string)
    requires rows != [] && ExtractRows(rows, fileName).Ok?
    ensures ExtractRows(rows[..|rows| - 1], fileName).Ok?
    ensures HasMarker(rows[|rows| - 1]) ==>
              RecordFor(rows[|rows| - 1], TotalAfterRows(rows), fileName).Ok?
              && ExtractRows(rows, fileName).value
                 == ExtractRows(rows[..|rows| - 1], fileName).value
                    + [RecordFor(rows[|rows| - 1], TotalAfterRows(rows), fileName).value]
    ensures !HasMarker(rows[|rows| - 1]) ==>
              ExtractRows(rows, fileName).value == ExtractRows(rows[..|rows| - 1], fileName).value
  {
  }

  /** The record row `k` builds when the scan reaches its "Subaward:" cell. */
  function RecordAt(rows: seq<seq<Cell>>, k: nat, fileName: string): Result<Subaward, Error>
    requires k < |rows|
  {
    RecordFor(rows[k], TotalAfterRows(rows[..k + 1]), fileName)
  }

  lemma {:induction false} RecordAtPrefix(rows: seq<seq<Cell>>, m: nat, k: nat, fileName: string)
    requires k < m <= |rows|
    ensures RecordAt(rows[..m], k, fileName) == RecordAt(rows, k, fileName)
  {
    assert rows[..m][..k + 1] == rows[..k + 1];
  }

  /** `recs` are the records the rows at positions `ks` build, in order. */
  predicate RecordsMatch(rows: seq<seq<Cell>>, ks: seq<nat>, recs: seq<Subaward>, fileName: string)
  {
    |recs| == |ks|
    && forall t :: 0 <= t < |ks| ==> ks[t] < |rows| && RecordAt(rows, ks[t], fileName) == Ok(recs[t])
  }

  lemma {:induction false} RecordsMatchPrefix(rows: seq<seq<Cell>>, m: nat, ks: seq<nat>, recs: seq<Subaward>, fileName: string)
    requires m <= |rows| && RecordsMatch(rows[..m], ks, recs, fileName)
    ensures RecordsMatch(rows, ks, recs, fileName)
  {
    forall t | 0 <= t < |ks|
      ensures ks[t] < |rows| && RecordAt(rows, ks[t], fileName) == Ok(recs[t])
    {
      RecordAtPrefix(rows, m, ks[t], fileName);
    }
  }

  lemma {:induction false} RecordsMatchSnoc(rows: seq<seq<Cell>>, ks: seq<nat>, recs: seq<Subaward>, fileName: string, k: nat, r: Subaward)
    requires RecordsMatch(rows, ks, recs, fileName)
    requires k < |rows| && RecordAt(rows, k, fileName) == Ok(r)
    ensures RecordsMatch(rows, ks + [k], recs + [r], fileName)
  {
    var ks', recs' := ks + [k], recs + [r];
    forall t | 0 <= t < |ks'|
      ensures ks'[t] < |rows| && RecordAt(rows, ks'[t], fileName) == Ok(recs'[t])
    {
      if t < |ks| {
        assert ks'[t] == ks[t] && recs'[t] == recs[t];
      } else {
        assert ks'[t] == k && recs'[t] == r;
      }
    }
  }

  lemma {:induction false} ExtractRowsMatch(rows: seq<seq<Cell>>, fileName: string)
    requires ExtractRows(rows, fileName).Ok?
    ensures RecordsMatch(rows, MarkerRows(rows), ExtractRows(rows, fileName).value, fileName)
  {
    if rows != [] {
      var n := |rows| - 1;
      var front := rows[..n];
      ExtractRowsSnoc(rows, fileName);
      ExtractRowsMatch(front, fileName);
      var ks := MarkerRows(front);
      var found := ExtractRows(front, fileName).value;
      RecordsMatchPrefix(rows, n, ks, found, fileName);
      if HasMarker(rows[n]) {
        assert rows[..n + 1] == rows;
        RecordsMatchSnoc(rows, ks, found, fileName, n, RecordFor(rows[n], TotalAfterRows(rows), fileName).value);
      }
    }
  }

  /** A successful scan yields one record per row that holds a "Subaward:" cell, in row order:
      the record that row builds with the amount column known at its "Subaward:" cell. */
  lemma {:induction false} ExtractRowsCorrespond(rows: seq<seq<Cell>>, fileName: string)
    requires ExtractRows(rows, fileName).Ok?
    ensures |ExtractRows(rows, fileName).value| == |MarkerRows(rows)|
    ensures forall t :: 0 <= t < |MarkerRows(rows)| ==>
              RecordAt(rows, MarkerRows(rows)[t], fileName) == Ok(ExtractRows(rows, fileName).value[t])
  {
    ExtractRowsMatch(rows, fileName);
  }

  /** Every record of a successful scan carries the file name it was given. */
  lemma {:induction false} ExtractRowsLabelled(rows: seq<seq<Cell>>, fileName: string)
    requires ExtractRows(rows, fileName).Ok?
    ensures forall t :: 0 <= t < |ExtractRows(rows, fileName).value| ==>
              ExtractRows(rows, fileName).value[t].fileName == fileName
  {
    if rows != [] {
      ExtractRowsSnoc(rows, fileName);
      ExtractRowsLabelled(rows[..|rows| - 1], fileName);
    }
  }

  /** An exception ends the scan: once a prefix of the rows fails, the whole scan fails alike. */
  lemma {:induction false} ExtractErrorPersists(rows: seq<seq<Cell>>, fileName: string, k: nat)
    requires k <= |rows| && ExtractRows(rows[..k], fileName).Err?
    ensures ExtractRows(rows, fileName) == ExtractRows(rows[..k], fileName)
    decreases |rows|
  {
    if k < |rows| {
      var n := |rows| - 1;
      assert rows[..n][..k] == rows[..k];
      ExtractErrorPersists(rows[..n], fileName, k);
    } else {
      assert rows[..k] == rows;
    }
  }

  /** A marker row whose record throws ends the scan with that exception, once the rows before
      it have been read: no row is skipped. */
  lemma {:induction false} ExtractRowsFailsAt(rows: seq<seq<Cell>>, fileName: string, k: nat, e: Error)
    requires k < |rows| && HasMarker(rows[k]) && ExtractRows(rows[..k], fileName).Ok?
    requires RecordAt(rows, k, fileName) == Err(e)
    ensures ExtractRows(rows, fileName) == Err(e)
  {
    ExtractRowsNext(rows, fileName, k);
    ExtractErrorPersists(rows, fileName, k + 1);
  }

  /** A failed scan failed at a marker row: the first one whose record throws, with that
      record's exception. */
  lemma {:induction false} ExtractRowsFailure(rows: seq<seq<Cell>>, fileName: string)
    requires ExtractRows(rows, fileName).Err?
    ensures exists k :: 0 <= k < |rows| && HasMarker(rows[k]) && ExtractRows(rows[..k], fileName).Ok?
              && RecordAt(rows, k, fileName) == Err(ExtractRows(rows, fileName).error)
    decreases |rows|, 1
  {
    var n := |rows| - 1;
    var front := rows[..n];
    if ExtractRows(front, fileName).Err? {
      ExtractRowsFailureEarlier(rows, fileName);
    } else {
      assert HasMarker(rows[n]);
      assert rows[..n + 1] == rows;
      assert RecordAt(rows, n, fileName) == Err(ExtractRows(rows, fileName).error);
    }
  }

  lemma {:induction false} ExtractRowsFailureEarlier(rows: seq<seq<Cell>>, fileName: string)
    requires rows != [] && ExtractRows(rows[..|rows| - 1], fileName).Err?
    ensures exists k :: 0 <= k < |rows| && HasMarker(rows[k]) && ExtractRows(rows[..k], fileName).Ok?
              && RecordAt(rows, k, fileName) == Err(ExtractRows(rows, fileName).error)
    decreases |rows|, 0
  {
    var n := |rows| - 1;
    var front := rows[..n];
    assert ExtractRows(rows, fileName) == ExtractRows(front, fileName);
    ExtractRowsFailure(front, fileName);
    var k :| 0 <= k < n && HasMarker(front[k]) && ExtractRows(front[..k], fileName).Ok?
             && RecordAt(front, k, fileName) == Err(ExtractRows(front, fileName).error);
    assert front[..k] == rows[..k];
    RecordAtPrefix(rows, n, k, fileName);
  }

  /** A scan whose every marker row yields a record does not throw. */
  lemma {:induction false} ExtractRowsSucceeds(rows: seq<seq<Cell>>, fileName: string)
    requires forall k :: 0 <= k < |rows| && HasMarker(rows[k]) ==> RecordAt(rows, k, fileName).Ok?
    ensures ExtractRows(rows, fileName).Ok?
  {
    if ExtractRows(rows, fileName).Err? {
      ExtractRowsFailure(rows, fileName);
    }
  }

  /** Rows without a "Subaward:" cell yield nothing. */
  lemma {:induction false} NoMarkerRowsYieldNothing(rows: seq<seq<Cell>>, fileName: string)
    requires forall k :: 0 <= k < |rows| ==> !HasMarker(rows[k])
    ensures ExtractRows(rows, fileName) == Ok([])
  {
    if rows != [] {
      NoMarkerRowsYieldNothing(rows[..|rows| - 1], fileName);
    }
  }

  /** A "Subaward:" row that no "Total" cell precedes makes the scan throw an
      IndexOutOfRangeException instead of yielding a record with a made-up amount. */
  lemma {:induction false} MissingTotalFails(rows: seq<seq<Cell>>, fileName: string, k: nat)
    requires k < |rows| && HasMarker(rows[k])
    requires forall k', j :: k' <= k ==> !ScannedTotal(rows, k', j)
    ensures ExtractRows(rows, fileName).Err? && ExtractRows(rows, fileName).error.IndexOutOfRange?
    decreases k
  {
    if k' :| 0 <= k' < k && HasMarker(rows[k']) {
      MissingTotalFails(rows, fileName, k');
    } else {
      var prefix := rows[..k + 1];
      assert prefix[..k] == rows[..k];
      NoMarkerRowsYieldNothing(rows[..k], fileName);
      TotalColumnIsFirstTotal(prefix);
      assert forall k', j :: ScannedTotal(prefix, k', j) ==> ScannedTotal(rows, k', j);
      assert TotalAfterRows(prefix) == -1;
      assert ExtractRows(prefix, fileName).Err?;
      ExtractErrorPersists(rows, fileName, k + 1);
    }
  }

  /** When column 2 has text, the name is that text trimmed, whatever column 1 holds. */
  lemma {:induction false} NameIgnoresSecondColumn(row: seq<Cell>, c: Cell)
    requires |row| >= 3 && !IsNullOrEmpty(ToText(row[2]))
    ensures ResolveName(row[1 := c]) == ResolveName(row)
    ensures ResolveName(row) == Ok(if Trim(row[2].text) == [] then NameMissing else Trim(row[2].text))
  {
  }

  /** When column 2 is blank, null or empty text, the name is column 1's text with every
      "Subaward:" cut out, trimmed, whichever kind of empty column 2 is. */
  lemma {:induction false} NameFromSecondColumn(row: seq<Cell>, c: Cell)
    requires |row| >= 3 && IsNullOrEmpty(ToText(row[2])) && IsNullOrEmpty(ToText(c))
    ensures ResolveName(row[2 := c]) == ResolveName(row)
    ensures row[1].Null? ==> ResolveName(row) == Ok(NameMissing)
    ensures !row[1].Null? ==>
              var name := Trim(RemoveAll(ToText(row[1]).value, SubawardMarker));
              ResolveName(row) == Ok(if name == [] then NameMissing else name)
  {
  }
}
