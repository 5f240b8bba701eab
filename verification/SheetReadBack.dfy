/**
 The exported sheet (ssr/tools/export_scorecard_sync.py) read as a roster again
 (ssr/tools/validate_anchor_roster.py).
 */
module SheetReadBack {
  import opened Wrappers
  import opened Text
  import opened Sorting
  import opened Grouping
  import opened RosterRow
  import opened Roster
  import opened ScorecardExport
  import opened RosterPipeline

  // ----- one record -----

  /** A record of the sheet as a roster row: every cell is text, and `show` prints the coordinates. */
  function SheetRow(show: Float -> string, s: SyncRow): Row {
    map[AnchorTileId := Text(s.anchorTileId),
        W3wAddress := Text(s.w3wAddress),
        Latitude := Text(show(s.latitude)),
        Longitude := Text(show(s.longitude)),
        ActivationDate := Text(s.activationDate),
        Status := Text(s.status),
        SourceSystem := Text(s.sourceSystem),
        SourceRecordId := Text(s.sourceRecordId)]
  }

  function SheetRowBy(show: Float -> string): SyncRow -> Row {
    (s: SyncRow) => SheetRow(show, s)
  }

  /** The number is printed as some text that is read as the same number. */
  predicate PrintsBack(o: Readers, show: Float -> string, x: Float) {
    Strip(show(x)) != "" && o.parseFloat(show(x)) == Some(x)
  }

  predicate CoordinatesPrintBack(o: Readers, show: Float -> string, n: NormalRow) {
    PrintsBack(o, show, n.latitude) && PrintsBack(o, show, n.longitude)
  }

  /** The cells of a record, as the validator reads them. */
  predicate SheetCells(row: Row, n: NormalRow) {
    && Cell(row, AnchorTileId) == n.anchorTileId && Cell(row, W3wAddress) == n.w3wAddress
    && Cell(row, ActivationDate) == n.activationDate && Cell(row, SourceSystem) == n.sourceSystem
    && CellOr(row, Status, "active") == n.status
    && OrNone(Cell(row, SourceRecordId)) == n.sourceRecordId
  }

  /** The columns the sheet does not have. */
  predicate NoOtherCells(row: Row) {
    && Cell(row, VerticalDatum) == "" && Cell(row, SourceExportedAt) == ""
    && CellOr(row, SurfaceCrs, "EPSG:4326") == "EPSG:4326"
  }

  lemma RecordIdAgain(row: Row, n: NormalRow)
    requires OptionalFields(n) && SourceRecordId in row
    requires row[SourceRecordId] == Text(if n.sourceRecordId.Some? then n.sourceRecordId.value else "")
    ensures OrNone(Cell(row, SourceRecordId)) == n.sourceRecordId
  {
    TextCell(row, SourceRecordId, if n.sourceRecordId.Some? then n.sourceRecordId.value else "", "");
  }

  lemma SheetCellsAgain(show: Float -> string, n: NormalRow, number: nat)
    requires TextFields(n) && OptionalFields(n)
    ensures SheetCells(SheetRow(show, SyncRowFor(n, number)), n)
  {
    var row := SheetRow(show, SyncRowFor(n, number));
    TextCell(row, AnchorTileId, n.anchorTileId, "");
    TextCell(row, W3wAddress, n.w3wAddress, "");
    TextCell(row, ActivationDate, n.activationDate, "");
    TextCell(row, SourceSystem, n.sourceSystem, "");
    TextCell(row, Status, n.status, "active");
    RecordIdAgain(row, n);
  }

  lemma NoOtherCellsAgain(show: Float -> string, s: SyncRow)
    ensures NoOtherCells(SheetRow(show, s))
  {
    DefaultsTrimmed();
    StripOfTrimmed("EPSG:4326");
    StripOfTrimmed("");
  }

  /** A column of the row holds the printed number. */
  predicate Printed(row: Row, field: Column, show: Float -> string, x: Float) {
    field in row && row[field] == Text(show(x))
  }

  lemma SheetNumbers(show: Float -> string, n: NormalRow, number: nat)
    ensures var row := SheetRow(show, SyncRowFor(n, number));
            Printed(row, Latitude, show, n.latitude) && Printed(row, Longitude, show, n.longitude)
  {
  }

  /** A coordinate in range is read back unchanged, from a cell that is not blank, exactly when it prints back. */
  lemma CoordinateBackIff(o: Readers, show: Float -> string, row: Row, field: Column, x: Float, low: real, high: real)
    requires Printed(row, field, show, x) && x.Between(low, high)
    ensures Cell(row, field) != "" && Coordinate(o, row, field, low, high) == Success(x)
            <==> PrintsBack(o, show, x)
  {
  }

  /** What is left of a row that went through the sheet. */
  function Kept(n: NormalRow, latitude: Float, longitude: Float): NormalRow {
    n.(latitude := latitude, longitude := longitude,
       surfaceCrs := "EPSG:4326", verticalDatum := None, sourceExportedAt := None)
  }

  lemma NormalFormBack(o: Readers, row: Row, n: NormalRow)
    requires SheetCells(row, n) && NoOtherCells(row) && n.status != "" && ReadsAsDate(o, n.activationDate)
    requires Coordinate(o, row, Latitude, -90.0, 90.0).Success?
    requires Coordinate(o, row, Longitude, -180.0, 180.0).Success?
    ensures Normalize(o, row)
         == Success(Kept(n, Coordinate(o, row, Latitude, -90.0, 90.0).value,
                         Coordinate(o, row, Longitude, -180.0, 180.0).value))
  {
  }

  /** A record is accepted as soon as both of its coordinates are. */
  lemma RecordAcceptable(o: Readers, row: Row, n: NormalRow)
    requires Validated(o, n) && SheetCells(row, n) && NoOtherCells(row)
    requires Cell(row, Latitude) != "" && Cell(row, Longitude) != ""
    requires Coordinate(o, row, Latitude, -90.0, 90.0).Success?
    requires Coordinate(o, row, Longitude, -180.0, 180.0).Success?
    ensures Acceptable(o, row)
  {
  }

  /** A record whose coordinates print back is accepted, and yields the row less what the sheet drops. */
  lemma RecordBack(o: Readers, show: Float -> string, n: NormalRow, number: nat)
    requires Validated(o, n) && CoordinatesPrintBack(o, show, n)
    ensures var row := SheetRow(show, SyncRowFor(n, number));
            Acceptable(o, row) && Normalize(o, row) == Success(Kept(n, n.latitude, n.longitude))
  {
    var row := SheetRow(show, SyncRowFor(n, number));
    SheetCellsAgain(show, n, number);
    NoOtherCellsAgain(show, SyncRowFor(n, number));
    SheetNumbers(show, n, number);
    CoordinateBackIff(o, show, row, Latitude, n.latitude, -90.0, 90.0);
    CoordinateBackIff(o, show, row, Longitude, n.longitude, -180.0, 180.0);
    RecordAcceptable(o, row, n);
    NormalFormBack(o, row, n);
  }

  /** An accepted record keeps the identity of its row, and its coordinates only if they print back. */
  lemma RecordAccepted(o: Readers, show: Float -> string, n: NormalRow, number: nat, m: NormalRow)
    requires Validated(o, n)
    requires Acceptable(o, SheetRow(show, SyncRowFor(n, number)))
    requires Normalize(o, SheetRow(show, SyncRowFor(n, number))) == Success(m)
    ensures m == Kept(n, m.latitude, m.longitude)
    ensures m.latitude == n.latitude && m.longitude == n.longitude ==> CoordinatesPrintBack(o, show, n)
  {
    var row := SheetRow(show, SyncRowFor(n, number));
    SheetCellsAgain(show, n, number);
    NoOtherCellsAgain(show, SyncRowFor(n, number));
    SheetNumbers(show, n, number);
    NormalFormBack(o, row, n);
    CoordinateBackIff(o, show, row, Latitude, n.latitude, -90.0, 90.0);
    CoordinateBackIff(o, show, row, Longitude, n.longitude, -180.0, 180.0);
  }

  // ----- the whole sheet -----

  /** The sheet of rows already in order, read as a roster. */
  function SheetRows(show: Float -> string, ordered: seq<NormalRow>): seq<Row> {
    Map(SheetRowBy(show), Number(ordered, 2))
  }

  lemma SheetRowsAt(show: Float -> string, ordered: seq<NormalRow>)
    ensures |SheetRows(show, ordered)| == |ordered|
    ensures forall i :: 0 <= i < |ordered| ==>
              SheetRows(show, ordered)[i] == SheetRow(show, SyncRowFor(ordered[i], i + 2))
  {
    NumberAt(ordered, 2);
    MapAt(SheetRowBy(show), Number(ordered, 2));
  }

  lemma OrderedDistinct(out: seq<NormalRow>, ordered: seq<NormalRow>, f: NormalRow -> string, i: nat, j: nat)
    requires multiset(ordered) == multiset(out) && Distinct(Map(f, out))
    requires i < j < |ordered|
    ensures f(ordered[i]) != f(ordered[j])
  {
    MapPermutation(f, out, ordered);
    PermutationDistinct(Map(f, out), Map(f, ordered));
    MapAt(f, ordered);
    assert Map(f, ordered)[i] != Map(f, ordered)[j];
  }

  lemma OrderedDifferent(out: seq<NormalRow>, ordered: seq<NormalRow>)
    requires multiset(ordered) == multiset(out)
    requires Distinct(Map(IdOf(), out)) && Distinct(Map(AddressOf(), out))
    ensures AllDifferent(ordered)
  {
    forall i, j | 0 <= i < j < |ordered|
      ensures ordered[i].anchorTileId != ordered[j].anchorTileId && ordered[i].w3wAddress != ordered[j].w3wAddress
    {
      OrderedDistinct(out, ordered, IdOf(), i, j);
      OrderedDistinct(out, ordered, AddressOf(), i, j);
    }
  }

  lemma OrderedValidated(o: Readers, rows: seq<Row>, expected: int, out: seq<NormalRow>, ordered: seq<NormalRow>)
    requires Verdict(Readings(ReadBy(o), rows), expected) == Success(out)
    requires multiset(ordered) == multiset(out)
    ensures AllValidated(o, ordered)
  {
    MultisetMembers(ordered, out);
    OutputValidated(o, rows, expected, out);
    ValidatedRows(o, rows, expected, out);
    OrderedDifferent(out, ordered);
    forall i | 0 <= i < |ordered| ensures Validated(o, ordered[i]) {
      assert ordered[i] in ordered;
    }
  }

  lemma SheetTilesDiffer(o: Readers, show: Float -> string, ordered: seq<NormalRow>, i: nat, j: nat)
    requires AllValidated(o, ordered) && i < j < |ordered|
    ensures DifferentTiles(SheetRow(show, SyncRowFor(ordered[i], i + 2)), SheetRow(show, SyncRowFor(ordered[j], j + 2)))
  {
    SheetCellsAgain(show, ordered[i], i + 2);
    SheetCellsAgain(show, ordered[j], j + 2);
  }

  ghost predicate AllPrintBack(o: Readers, show: Float -> string, rows: seq<NormalRow>) {
    forall i :: 0 <= i < |rows| ==> CoordinatesPrintBack(o, show, rows[i])
  }

  lemma SheetAccepted(o: Readers, show: Float -> string, ordered: seq<NormalRow>)
    requires AllValidated(o, ordered) && AllPrintBack(o, show, ordered)
    ensures Verdict(Readings(ReadBy(o), SheetRows(show, ordered)), |ordered|).Success?
  {
    var sheet := SheetRows(show, ordered);
    SheetRowsAt(show, ordered);
    forall i | 0 <= i < |sheet| ensures Acceptable(o, sheet[i]) {
      RecordBack(o, show, ordered[i], i + 2);
    }
    forall i, j | 0 <= i < j < |sheet| ensures DifferentTiles(sheet[i], sheet[j]) {
      SheetTilesDiffer(o, show, ordered, i, j);
    }
    AcceptsIff(o, sheet, |ordered|);
  }

  /** The rows are those given, apart from coordinates and from what the sheet drops. */
  ghost predicate SameButCoordinates(ordered: seq<NormalRow>, back: seq<NormalRow>) {
    && |back| == |ordered|
    && forall i :: 0 <= i < |ordered| ==> back[i] == Kept(ordered[i], back[i].latitude, back[i].longitude)
  }

  lemma SheetOutput(o: Readers, show: Float -> string, ordered: seq<NormalRow>, back: seq<NormalRow>)
    requires AllValidated(o, ordered)
    requires Verdict(Readings(ReadBy(o), SheetRows(show, ordered)), |ordered|) == Success(back)
    ensures SameButCoordinates(ordered, back)
    ensures forall i :: 0 <= i < |ordered| ==>
              (back[i].latitude == ordered[i].latitude && back[i].longitude == ordered[i].longitude
               <==> CoordinatesPrintBack(o, show, ordered[i]))
  {
    var sheet := SheetRows(show, ordered);
    SheetRowsAt(show, ordered);
    AcceptsIff(o, sheet, |ordered|);
    AcceptedRowsNormalized(o, sheet, |ordered|);
    forall i | 0 <= i < |ordered|
      ensures back[i] == Kept(ordered[i], back[i].latitude, back[i].longitude)
      ensures back[i].latitude == ordered[i].latitude && back[i].longitude == ordered[i].longitude
              <==> CoordinatesPrintBack(o, show, ordered[i])
    {
      RecordAccepted(o, show, ordered[i], i + 2, back[i]);
      if CoordinatesPrintBack(o, show, ordered[i]) {
        RecordBack(o, show, ordered[i], i + 2);
      }
    }
  }

  /** Rows in the order of their keys stay in it when only other fields change. */
  lemma OrderStays(fold: Fold, ordered: seq<NormalRow>, back: seq<NormalRow>)
    requires Sorted(ByKey(fold), ordered) && SameButCoordinates(ordered, back)
    ensures Sort(ByKey(fold), back) == back
  {
    forall i, j | 0 <= i < j < |back| ensures ByKey(fold)(back[i], back[j]) {
      assert ByKey(fold)(ordered[i], ordered[j]);
    }
    ByKeyPreorder(fold);
    StableSortUnique(ByKey(fold), back, back);
  }

  lemma NumbersEqualIff(ordered: seq<NormalRow>, back: seq<NormalRow>)
    requires SameButCoordinates(ordered, back)
    ensures Number(back, 2) == Number(ordered, 2)
            <==> forall i :: 0 <= i < |ordered| ==>
                   back[i].latitude == ordered[i].latitude && back[i].longitude == ordered[i].longitude
  {
    NumberAt(back, 2);
    NumberAt(ordered, 2);
    if Number(back, 2) == Number(ordered, 2) {
      forall i | 0 <= i < |ordered|
        ensures back[i].latitude == ordered[i].latitude && back[i].longitude == ordered[i].longitude
      {
        assert SyncRowFor(back[i], 2 + i) == SyncRowFor(ordered[i], 2 + i);
      }
    }
  }

  /** The sheet is accepted as a roster and exported from it as the same sheet. */
  ghost predicate TakenBack(o: Readers, fold: Fold, show: Float -> string, sheet: seq<SyncRow>, expected: int) {
    var verdict := Verdict(Readings(ReadBy(o), Map(SheetRowBy(show), sheet)), expected);
    verdict.Success? && BuildSyncRows(fold, verdict.value) == sheet
  }

  lemma OrderedTakenBackIff(o: Readers, fold: Fold, show: Float -> string, ordered: seq<NormalRow>)
    requires AllValidated(o, ordered) && Sorted(ByKey(fold), ordered)
    ensures TakenBack(o, fold, show, Number(ordered, 2), |ordered|) <==> AllPrintBack(o, show, ordered)
  {
    if AllPrintBack(o, show, ordered) {
      SheetAccepted(o, show, ordered);
    }
    var verdict := Verdict(Readings(ReadBy(o), SheetRows(show, ordered)), |ordered|);
    if verdict.Success? {
      SheetOutput(o, show, ordered, verdict.value);
      OrderStays(fold, ordered, verdict.value);
      NumbersEqualIff(ordered, verdict.value);
    }
  }

  lemma PrintBackPermutation(o: Readers, show: Float -> string, a: seq<NormalRow>, b: seq<NormalRow>)
    requires forall n :: n in a <==> n in b
    ensures AllPrintBack(o, show, a) ==> AllPrintBack(o, show, b)
  {
    if AllPrintBack(o, show, a) {
      forall i | 0 <= i < |b| ensures CoordinatesPrintBack(o, show, b[i]) {
        assert b[i] in b;
        var k :| 0 <= k < |a| && a[k] == b[i];
      }
    }
  }

  /**
   The exported sheet is a roster again.  Read back, the sheet of an accepted roster is
   accepted and exported as the very same sheet exactly when the coordinates of its rows
   print back.
   */
  lemma SheetTakenBackIff(o: Readers, fold: Fold, show: Float -> string, rows: seq<Row>, expected: int,
                          out: seq<NormalRow>)
    requires Verdict(Readings(ReadBy(o), rows), expected) == Success(out)
    ensures TakenBack(o, fold, show, BuildSyncRows(fold, out), expected) <==> AllPrintBack(o, show, out)
  {
    var ordered := Sort(ByKey(fold), out);
    ByKeyPreorder(fold);
    SortSorted(ByKey(fold), out);
    SortPermutes(ByKey(fold), out);
    OrderedValidated(o, rows, expected, out, ordered);
    AcceptedRowsNormalized(o, rows, expected);
    OrderedTakenBackIff(o, fold, show, ordered);
    PrintBackPermutation(o, show, out, ordered);
    PrintBackPermutation(o, show, ordered, out);
  }
}
