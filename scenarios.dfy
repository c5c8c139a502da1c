/** Worked examples of budget sheets: the amount column comes from the header row, each
    "Subaward:" row yields one record, and two files with the same institution are summed. */
module Scenarios {
  import opened Wrappers
  import opened TextOps
  import DecimalParsing
  import opened Extraction
  import opened Aggregation

  /** A header row whose fourth cell is the "Total" column. */
  const Header: seq<Cell> := [Blank, Blank, Blank, Text("Total")]

  /** A subaward row naming its institution in column 2, with the text `amount` in column 3. */
  function SubawardRow(institution: string, amount: string): seq<Cell>
  {
    [Text("Subaward:"), Blank, Text(institution), Text(amount)]
  }

  /** An institution name as a worksheet holds it: not empty, and neither starting nor ending
      with white space. */
  predicate PlainName(institution: string)
  {
    institution != [] && !IsWhiteSpace(institution[0]) && !IsWhiteSpace(institution[|institution| - 1])
  }

  /** A subaward row with nothing but the marker: no name and a blank amount cell. */
  const UnnamedRow: seq<Cell> := [Text("Subaward:"), Blank, Blank, Blank]

  /** The header row holds no marker, and its "Total" cell fixes the amount column at 3. */
  lemma {:induction false} HeaderFixesAmountColumn()
    ensures ScanEnd(Header) == |Header| && TotalAfterRows([Header]) == 3
  {
    assert IsTotalCell(Header[3]);
    TotalCellIsNoMarker(Header[3]);
    assert forall j :: 0 <= j < 3 ==> !IsMarkerCell(Header[j]);
    assert MarkerFrom(Header, 0) == MarkerFrom(Header, 3);
  }

  /** A row that opens with the marker cell stops the scan at its first cell. */
  lemma {:induction false} MarkerCellFirst(row: seq<Cell>)
    requires row != [] && row[0] == Text("Subaward:")
    ensures ScanEnd(row) == 0
  {
    assert MatchesAtIgnoreCase("Subaward:", SubawardMarker, 0) by {
      assert "Subaward:"[0..9] == SubawardMarker;
    }
  }

  /** A row naming a plain institution name carries exactly that name. */
  lemma {:induction false} NamedRowName(institution: string, amount: string)
    requires PlainName(institution)
    ensures ResolveName(SubawardRow(institution, amount)) == Ok(institution)
  {
    var row := SubawardRow(institution, amount);
    assert ToText(row[2]) == Some(institution);
    TrimWithKeeps(institution, IsWhiteSpace);
    assert NameSource(row) == Some(institution);
  }

  /** A row's amount text is read as the number it denotes. */
  lemma {:induction false} NamedRowAmount(institution: string, amount: string, v: real)
    requires DecimalParsing.Parse(amount) == Some(v)
    ensures Amount(SubawardRow(institution, amount), 3) == Ok(v)
  {
    assert SubawardRow(institution, amount)[3] == Text(amount);
  }

  /** A row whose name and amount are read without an exception yields their record. */
  lemma {:induction false} RecordOfParts(row: seq<Cell>, totalColumn: int, fileName: string, name: string, amount: real)
    requires ResolveName(row) == Ok(name) && Amount(row, totalColumn) == Ok(amount)
    ensures RecordFor(row, totalColumn, fileName) == Ok(Subaward(name, amount, fileName))
  {
  }

  /** The record a named row yields, with its institution and its amount. */
  lemma {:induction false} NamedRowRecord(institution: string, amount: string, v: real, fileName: string)
    requires PlainName(institution) && DecimalParsing.Parse(amount) == Some(v)
    ensures RecordFor(SubawardRow(institution, amount), 3, fileName) == Ok(Subaward(institution, v, fileName))
  {
    NamedRowName(institution, amount);
    NamedRowAmount(institution, amount, v);
    RecordOfParts(SubawardRow(institution, amount), 3, fileName, institution, v);
  }

  /** A header row that fixes the amount column, then a row that starts with its "Subaward:"
      cell: the sheet yields that row's record alone. */
  lemma {:induction false} HeaderThenRow(header: seq<Cell>, row: seq<Cell>, fileName: string, record: Subaward)
    requires !HasMarker(header) && TotalAfterRows([header]) == 3
    requires ScanEnd(row) == 0 && row != [] && RecordFor(row, 3, fileName) == Ok(record)
    ensures ExtractRows([header, row], fileName) == Ok([record])
  {
    var rows := [header, row];
    assert rows[..1] == [header] && rows[..2] == rows;
    NoMarkerRowsYieldNothing([header], fileName);
    ExtractRowsNext(rows, fileName, 1);
    assert TotalAfterRows(rows[..2]) == 3;
    assert ExtractRows(rows[..2], fileName) == Ok([] + [record]);
    assert [] + [record] == [record];
  }

  /** A header and one subaward row: the sheet yields one record, with the row's institution
      and amount. */
  lemma {:induction false} OneRowSheet(institution: string, amount: string, v: real, fileName: string)
    requires PlainName(institution) && DecimalParsing.Parse(amount) == Some(v)
    ensures ExtractFile(Some(Table(4, [Header, SubawardRow(institution, amount)])), fileName)
            == Ok([Subaward(institution, v, fileName)])
  {
    var row := SubawardRow(institution, amount);
    NamedRowRecord(institution, amount, v, fileName);
    HeaderFixesAmountColumn();
    MarkerCellFirst(row);
    HeaderThenRow(Header, row, fileName, Subaward(institution, v, fileName));
  }

  /** A header row that fixes the amount column, then a row that starts with its "Subaward:"
      cell but throws while it is read: the sheet throws the same exception. */
  lemma {:induction false} HeaderThenFailingRow(header: seq<Cell>, row: seq<Cell>, fileName: string, e: Error)
    requires !HasMarker(header) && TotalAfterRows([header]) == 3
    requires ScanEnd(row) == 0 && row != [] && RecordFor(row, 3, fileName) == Err(e)
    ensures ExtractRows([header, row], fileName) == Err(e)
  {
    var rows := [header, row];
    assert rows[..1] == [header] && rows[..2] == rows;
    NoMarkerRowsYieldNothing([header], fileName);
    ExtractRowsNext(rows, fileName, 1);
    assert TotalAfterRows(rows[..2]) == 3;
  }

  /** The unnamed row under a header: its name falls back to "Name Missing", but its blank
      amount cell throws a FormatException, and so the whole sheet throws. */
  lemma {:induction false} UnnamedRowFails(fileName: string)
    ensures RecordFor(UnnamedRow, 3, fileName) == Err(FormatError(""))
    ensures ExtractRows([Header, UnnamedRow], fileName) == Err(FormatError(""))
  {
    assert ResolveName(UnnamedRow).Ok?;
    BlankAmountCellFails(UnnamedRow, 3);
    HeaderFixesAmountColumn();
    MarkerCellFirst(UnnamedRow);
    HeaderThenFailingRow(Header, UnnamedRow, fileName, FormatError(""));
  }

  /** The same row under the intended reading of its amount: the "Name Missing" sentinel with a
      zero amount. */
  lemma {:induction false} UnnamedRowIntended()
    ensures ResolveName(UnnamedRow) == Ok(NameMissing)
    ensures AmountIntended(UnnamedRow, 3) == Ok(0.0)
  {
    assert Trim("") == "";
    assert RemoveAll("", SubawardMarker) == "";
    EmptyAmountCellIsZero(UnnamedRow, 3);
  }

  /** A "Subaward:" row above every "Total" cell throws: the amount column is still -1. */
  lemma {:induction false} SubawardBeforeHeaderFails(institution: string, amount: string, fileName: string)
    ensures ExtractRows([SubawardRow(institution, amount), Header], fileName) == Err(IndexOutOfRange(-1))
  {
    var rows := [SubawardRow(institution, amount), Header];
    MarkerCellFirst(rows[0]);
    assert rows[..1] == [rows[0]] && [rows[0]][..0] == [];
    assert TotalAfterRows(rows[..1]) == -1;
    ExtractRowsNext(rows, fileName, 0);
    assert ResolveName(rows[0]).Ok? by {
      assert |rows[0]| >= 3;
    }
    assert ExtractRows(rows[..1], fileName) == Err(IndexOutOfRange(-1));
    ExtractErrorPersists(rows, fileName, 1);
  }

  /** A budget file whose sheet holds a header and one subaward row: the file yields one record,
      labelled with the file's name. */
  lemma {:induction false} OneRowBudget(b: Budget, institution: string, amount: string, v: real)
    requires PlainName(institution) && DecimalParsing.Parse(amount) == Some(v)
    requires b.sheet == Some(Table(4, [Header, SubawardRow(institution, amount)]))
    ensures FileRecords(b) == Ok([Subaward(institution, v, FileLabel(b.path))])
  {
    OneRowSheet(institution, amount, v, FileLabel(b.path));
  }

  /** Two budget files that both fund the same institution: one entry, labelled with the first
      file, carrying the sum of the two amounts. */
  lemma {:induction false} TwoFilesSameInstitution(institution: string, b1: Budget, a1: string, v1: real,
                                                   b2: Budget, a2: string, v2: real)
    requires PlainName(institution) && institution != NameMissing
    requires DecimalParsing.Parse(a1) == Some(v1) && DecimalParsing.Parse(a2) == Some(v2)
    requires b1.sheet == Some(Table(4, [Header, SubawardRow(institution, a1)]))
    requires b2.sheet == Some(Table(4, [Header, SubawardRow(institution, a2)]))
    ensures Aggregate([b1, b2]) == Ok([Subaward(institution, v1 + v2, FileLabel(b1.path))])
  {
    OneRowBudget(b1, institution, a1, v1);
    OneRowBudget(b2, institution, a2, v2);
    AggregateSameName(b1, b2, institution, v1, FileLabel(b1.path), v2, FileLabel(b2.path));
  }

  /** Two files yielding one record each under the same name: one merged entry, labelled with
      the first file, carrying the sum of the two amounts. */
  lemma {:induction false} AggregateSameName(b1: Budget, b2: Budget, name: string, u1: real, l1: string,
                                             u2: real, l2: string)
    requires name != NameMissing
    requires FileRecords(b1) == Ok([Subaward(name, u1, l1)]) && FileRecords(b2) == Ok([Subaward(name, u2, l2)])
    ensures Aggregate([b1, b2]) == Ok([Subaward(name, u1 + u2, l1)])
  {
    var r1 := Subaward(name, u1, l1);
    var r2 := Subaward(name, u2, l2);
    TwoFilesCollected(b1, b2, r1, r2);
    MergeTwoSameName(r1, r2);
    assert Aggregate([b1, b2]) == Ok(MergeAll([], [r1, r2]));
    assert Added(r1, r2.amount) == Subaward(name, u1 + u2, l1);
  }

  /** Two files that yield one record each yield both, in file order. */
  lemma {:induction false} TwoFilesCollected(b1: Budget, b2: Budget, r1: Subaward, r2: Subaward)
    requires FileRecords(b1) == Ok([r1]) && FileRecords(b2) == Ok([r2])
    ensures ExtractAll([b1, b2]) == Ok([r1, r2])
  {
    MapSeqPair(FileRecords, b1, b2);
    CollectPair([r1], [r2]);
    assert [r1] + [r2] == [r1, r2];
  }

  /** A function mapped over two elements. */
  lemma {:induction false} MapSeqPair<A, B>(f: A -> B, x: A, y: A)
    ensures MapSeq(f, [x, y]) == [f(x), f(y)]
  {
    assert [x, y][..1] == [x] && [x][..0] == [];
    assert MapSeq(f, [x]) == [f(x)];
  }

  /** Two files that both yield records: theirs, one after the other. */
  lemma {:induction false} CollectPair(xs: seq<Subaward>, ys: seq<Subaward>)
    ensures Collect([Ok(xs), Ok(ys)]) == Ok(xs + ys)
  {
    var rs: seq<Result<seq<Subaward>, Error>> := [Ok(xs), Ok(ys)];
    assert rs[..1] == [Ok(xs)] && rs[..1][..0] == [];
    assert Collect(rs[..1]) == Ok([] + xs);
    assert [] + xs == xs;
  }

  /** Two records with the same name merge into one entry, the first, with both amounts. */
  lemma {:induction false} MergeTwoSameName(r1: Subaward, r2: Subaward)
    requires r1.name == r2.name && !IsSentinel(r2)
    ensures MergeAll([], [r1, r2]) == [Added(r1, r2.amount)]
  {
    MergeAllSnoc([], [], r1);
    assert MergeAll([], []) == [];
    assert MergeOne([], r1) == [r1];
    MergeAllSnoc([], [r1], r2);
    assert [r1] + [r2] == [r1, r2];
    assert FirstWithName([r1], r2.name) == Some(0);
    assert [r1][0 := Added(r1, r2.amount)] == [Added(r1, r2.amount)];
  }
}
