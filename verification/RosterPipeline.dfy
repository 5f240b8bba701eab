/**
 The roster from validation to export, and from normalised output back into validation
 (ssr/tools/validate_anchor_roster.py and ssr/tools/export_scorecard_sync.py).
 */
module RosterPipeline {
  import opened Wrappers
  import opened Text
  import opened Sorting
  import opened Grouping
  import opened RosterAddress
  import opened RosterRow
  import opened Roster
  import opened ScorecardExport

  // ----- validation, then export -----

  lemma AcceptedPair(o: Readers, rows: seq<Row>, expected: int, out: seq<NormalRow>, i: nat, j: nat)
    requires Verdict(Readings(ReadBy(o), rows), expected) == Success(out)
    requires i < j < |rows|
    ensures |out| == |rows|
    ensures out[i].anchorTileId != out[j].anchorTileId && out[i].w3wAddress != out[j].w3wAddress
  {
    AcceptsIff(o, rows, expected);
    AcceptedRowsNormalized(o, rows, expected);
    assert DifferentTiles(rows[i], rows[j]);
    NormalRowIs(o, rows[i], out[i]);
    NormalRowIs(o, rows[j], out[j]);
  }

  /** Both coordinates are numbers within their bounds. */
  predicate OnEarth(n: NormalRow) {
    && n.latitude.Finite? && -90.0 <= n.latitude.value <= 90.0
    && n.longitude.Finite? && -180.0 <= n.longitude.value <= 180.0
  }

  /**
   The coordinates of an accepted roster are the very numbers read from its rows, and all of
   them are within bounds.
   */
  lemma AcceptedCoordinates(o: Readers, rows: seq<Row>, expected: int, out: seq<NormalRow>, i: nat)
    requires Verdict(Readings(ReadBy(o), rows), expected) == Success(out) && i < |rows|
    ensures |out| == |rows|
    ensures NumberIn(o, rows[i], Latitude) == Some(out[i].latitude)
    ensures NumberIn(o, rows[i], Longitude) == Some(out[i].longitude)
    ensures out[i].latitude.Finite? && -90.0 <= out[i].latitude.value <= 90.0
    ensures out[i].longitude.Finite? && -180.0 <= out[i].longitude.value <= 180.0
  {
    AcceptsIff(o, rows, expected);
    AcceptedRowsNormalized(o, rows, expected);
    NormalRowIs(o, rows[i], out[i]);
  }

  /** Validated rows have distinct ids, distinct addresses, and only addresses of the grammar. */
  lemma ValidatedRows(o: Readers, rows: seq<Row>, expected: int, out: seq<NormalRow>)
    requires Verdict(Readings(ReadBy(o), rows), expected) == Success(out)
    ensures Distinct(Map(IdOf(), out)) && Distinct(Map(AddressOf(), out))
    ensures forall i :: 0 <= i < |out| ==> IsAddress(out[i].w3wAddress)
  {
    OutputValidated(o, rows, expected, out);
    MapAt(IdOf(), out);
    MapAt(AddressOf(), out);
  }

  /**
   The sheet exported from a validated roster has pairwise distinct canonical addresses, none
   of them a surface address, and is the same for every order of the rows exactly when the
   folded pairs of id and address are distinct.
   */
  lemma ValidatedExport(o: Readers, fold: Fold, rows: seq<Row>, expected: int, out: seq<NormalRow>)
    requires Verdict(Readings(ReadBy(o), rows), expected) == Success(out)
    ensures var sheet := BuildSyncRows(fold, out);
            && |sheet| == expected
            && (forall i, j :: 0 <= i < j < |sheet| ==>
                  sheet[i].canonicalAnchorAddress != sheet[j].canonicalAnchorAddress)
            && (forall i :: 0 <= i < |sheet| ==> !IsAddress(sheet[i].canonicalAnchorAddress))
    ensures SameSheetForAllOrders(fold, out) <==> FoldedKeysDistinct(fold, out)
  {
    ValidatedRows(o, rows, expected, out);
    AcceptedRowsNormalized(o, rows, expected);
    OrderIndependentSheetIff(fold, out);
    ExportIsSorted(fold, out);
    var sheet := BuildSyncRows(fold, out);
    forall i, j | 0 <= i < j < |sheet| ensures sheet[i].canonicalAnchorAddress != sheet[j].canonicalAnchorAddress {
      CanonicalAddressesDistinct(fold, out, i, j);
    }
    var ordered := Sort(ByKey(fold), out);
    SortPermutes(ByKey(fold), out);
    NumberAt(ordered, 2);
    forall i | 0 <= i < |sheet| ensures !IsAddress(sheet[i].canonicalAnchorAddress) {
      CanonicalIsNoSurfaceAddress(ordered[i].w3wAddress);
    }
  }

  // ----- normalised output, validated again -----

  function OptionalText(x: Option<string>): Value {
    if x.Some? then Text(x.value) else Other("None", None)
  }

  /** A normal row as a row again: numbers stay numbers, and an absent field is present as `None`. */
  function AsRow(show: Float -> string, n: NormalRow): Row {
    map[AnchorTileId := Text(n.anchorTileId),
        W3wAddress := Text(n.w3wAddress),
        Latitude := Other(show(n.latitude), Some(n.latitude)),
        Longitude := Other(show(n.longitude), Some(n.longitude)),
        ActivationDate := Text(n.activationDate),
        SourceSystem := Text(n.sourceSystem),
        Status := Text(n.status),
        SurfaceCrs := Text(n.surfaceCrs),
        VerticalDatum := OptionalText(n.verticalDatum),
        SourceRecordId := OptionalText(n.sourceRecordId),
        SourceExportedAt := OptionalText(n.sourceExportedAt)]
  }

  function AsRowBy(show: Float -> string): NormalRow -> Row {
    (n: NormalRow) => AsRow(show, n)
  }

  /** Numbers print as something, and "None" is no date. */
  ghost predicate Sensible(o: Readers, show: Float -> string) {
    (forall x :: Strip(show(x)) != "") && !ReadsAsDate(o, "None")
  }

  predicate TextFields(n: NormalRow) {
    && Trimmed(n.anchorTileId) && Trimmed(n.w3wAddress) && Trimmed(n.activationDate)
    && Trimmed(n.sourceSystem) && Trimmed(n.status) && Trimmed(n.surfaceCrs)
    && n.anchorTileId != "" && n.w3wAddress != "" && n.activationDate != "" && n.sourceSystem != ""
    && n.status != "" && n.surfaceCrs != ""
  }

  predicate OptionalFields(n: NormalRow) {
    && (n.verticalDatum.Some? ==> n.verticalDatum.value != "" && Trimmed(n.verticalDatum.value))
    && (n.sourceRecordId.Some? ==> n.sourceRecordId.value != "" && Trimmed(n.sourceRecordId.value))
    && (n.sourceExportedAt.Some? ==> n.sourceExportedAt.value != "" && Trimmed(n.sourceExportedAt.value))
  }

  lemma CellTrimmed(row: Row, column: Column, default: string)
    ensures Trimmed(CellOr(row, column, default))
  {
    StripIsTrimmed(if column in row then Str(row[column]) else default);
  }

  /** Normal rows of acceptable rows hold trimmed, non-empty texts. */
  lemma NormalTexts(o: Readers, row: Row, n: NormalRow)
    requires Acceptable(o, row) && Normalize(o, row) == Success(n)
    ensures TextFields(n) && OptionalFields(n)
  {
    CellTrimmed(row, AnchorTileId, "");
    CellTrimmed(row, W3wAddress, "");
    CellTrimmed(row, ActivationDate, "");
    CellTrimmed(row, SourceSystem, "");
    CellTrimmed(row, Status, "active");
    CellTrimmed(row, SurfaceCrs, "EPSG:4326");
    CellTrimmed(row, VerticalDatum, "");
    CellTrimmed(row, SourceRecordId, "");
    CellTrimmed(row, SourceExportedAt, "");
    DefaultsTrimmed();
  }

  lemma TextCell(row: Row, column: Column, text: string, default: string)
    requires column in row && row[column] == Text(text) && Trimmed(text)
    ensures CellOr(row, column, default) == text
  {
    StripOfTrimmed(text);
  }

  /** What an optional field reads as the second time: itself, or the word None. */
  lemma OptionalCell(row: Row, column: Column, x: Option<string>)
    requires column in row && row[column] == OptionalText(x)
    requires x.Some? ==> Trimmed(x.value)
    ensures Cell(row, column) == if x.Some? then x.value else "None"
  {
    if x.Some? {
      StripOfTrimmed(x.value);
    } else {
      assert "None"[0] == 'N' && "None"[3] == 'e';
      StripOfTrimmed("None");
    }
  }

  function OrNoneText(x: Option<string>): Option<string> {
    if x.Some? then x else Some("None")
  }

  /** The texts of a normal row read the same the second time. */
  lemma TextCellsAgain(show: Float -> string, n: NormalRow)
    requires TextFields(n)
    ensures var row := AsRow(show, n);
            && Cell(row, AnchorTileId) == n.anchorTileId && Cell(row, W3wAddress) == n.w3wAddress
            && Cell(row, ActivationDate) == n.activationDate && Cell(row, SourceSystem) == n.sourceSystem
            && CellOr(row, Status, "active") == n.status && CellOr(row, SurfaceCrs, "EPSG:4326") == n.surfaceCrs
  {
    var row := AsRow(show, n);
    TextCell(row, AnchorTileId, n.anchorTileId, "");
    TextCell(row, W3wAddress, n.w3wAddress, "");
    TextCell(row, ActivationDate, n.activationDate, "");
    TextCell(row, SourceSystem, n.sourceSystem, "");
    TextCell(row, Status, n.status, "active");
    TextCell(row, SurfaceCrs, n.surfaceCrs, "EPSG:4326");
  }

  /** The optional fields read as themselves or as the word None. */
  lemma OptionalCellsAgain(show: Float -> string, n: NormalRow)
    requires OptionalFields(n)
    ensures var row := AsRow(show, n);
            && OrNone(Cell(row, VerticalDatum)) == OrNoneText(n.verticalDatum)
            && OrNone(Cell(row, SourceRecordId)) == OrNoneText(n.sourceRecordId)
            && OrNone(Cell(row, SourceExportedAt)) == OrNoneText(n.sourceExportedAt)
  {
    var row := AsRow(show, n);
    OptionalCell(row, VerticalDatum, n.verticalDatum);
    OptionalCell(row, SourceRecordId, n.sourceRecordId);
    OptionalCell(row, SourceExportedAt, n.sourceExportedAt);
  }

  lemma CoordinatesAgain(o: Readers, show: Float -> string, n: NormalRow)
    requires OnEarth(n)
    ensures Coordinate(o, AsRow(show, n), Latitude, -90.0, 90.0) == Success(n.latitude)
    ensures Coordinate(o, AsRow(show, n), Longitude, -180.0, 180.0) == Success(n.longitude)
  {
  }

  function Reread(n: NormalRow): NormalRow {
    n.(verticalDatum := OrNoneText(n.verticalDatum),
       sourceRecordId := OrNoneText(n.sourceRecordId),
       sourceExportedAt := OrNoneText(n.sourceExportedAt))
  }

  /** The second normal form differs from the first only where an optional field is absent. */
  lemma SecondNormalForm(o: Readers, show: Float -> string, n: NormalRow)
    requires TextFields(n) && OptionalFields(n)
    requires OnEarth(n)
    requires ReadsAsDate(o, n.activationDate)
    ensures Normalize(o, AsRow(show, n)) == Success(Reread(n))
  {
    TextCellsAgain(show, n);
    OptionalCellsAgain(show, n);
    CoordinatesAgain(o, show, n);
  }

  lemma NormalPlace(o: Readers, row: Row, n: NormalRow)
    requires Acceptable(o, row) && Normalize(o, row) == Success(n)
    ensures OnEarth(n)
    ensures ReadsAsDate(o, n.activationDate) && IsAddress(n.w3wAddress)
    ensures n.sourceExportedAt.Some? ==> ReadsAsDate(o, n.sourceExportedAt.value)
  {
    NormalRowIs(o, row, n);
  }

  lemma NumberCells(show: Float -> string, n: NormalRow)
    ensures Cell(AsRow(show, n), Latitude) == Strip(show(n.latitude))
    ensures Cell(AsRow(show, n), Longitude) == Strip(show(n.longitude))
  {
  }

  lemma RequiredCells(show: Float -> string, n: NormalRow)
    requires TextFields(n) && Strip(show(n.latitude)) != "" && Strip(show(n.longitude)) != ""
    ensures Filled(AsRow(show, n))
  {
    TextCellsAgain(show, n);
    NumberCells(show, n);
  }

  /** What is known of every row the validator returns. */
  ghost predicate Validated(o: Readers, n: NormalRow) {
    && TextFields(n) && OptionalFields(n)
    && OnEarth(n)
    && ReadsAsDate(o, n.activationDate) && IsAddress(n.w3wAddress)
    && (n.sourceExportedAt.Some? ==> ReadsAsDate(o, n.sourceExportedAt.value))
  }

  ghost predicate AllDifferent(out: seq<NormalRow>) {
    forall i, j :: 0 <= i < j < |out| ==>
      out[i].anchorTileId != out[j].anchorTileId && out[i].w3wAddress != out[j].w3wAddress
  }

  ghost predicate AllValidated(o: Readers, out: seq<NormalRow>) {
    AllDifferent(out) && forall i :: 0 <= i < |out| ==> Validated(o, out[i])
  }

  lemma NormalFormValidated(o: Readers, row: Row, n: NormalRow)
    requires Acceptable(o, row) && Normalize(o, row) == Success(n)
    ensures Validated(o, n)
  {
    NormalTexts(o, row, n);
    NormalPlace(o, row, n);
  }

  /** The output of an accepted roster is validated. */
  lemma OutputValidated(o: Readers, rows: seq<Row>, expected: int, out: seq<NormalRow>)
    requires Verdict(Readings(ReadBy(o), rows), expected) == Success(out)
    ensures |out| == expected && AllValidated(o, out)
  {
    AcceptsIff(o, rows, expected);
    AcceptedRowsNormalized(o, rows, expected);
    forall i, j | 0 <= i < j < |out|
      ensures out[i].anchorTileId != out[j].anchorTileId && out[i].w3wAddress != out[j].w3wAddress
    {
      AcceptedPair(o, rows, expected, out, i, j);
    }
    forall i | 0 <= i < |out| ensures Validated(o, out[i]) {
      NormalFormValidated(o, rows[i], out[i]);
    }
  }

  /** A normal row is acceptable again exactly when it carries an export date. */
  lemma AcceptableAgainIff(o: Readers, show: Float -> string, n: NormalRow)
    requires Sensible(o, show) && Validated(o, n)
    ensures Acceptable(o, AsRow(show, n)) <==> n.sourceExportedAt.Some?
    ensures Normalize(o, AsRow(show, n)) == Success(Reread(n))
  {
    RequiredCells(show, n);
    TextCellsAgain(show, n);
    CoordinatesAgain(o, show, n);
    OptionalCell(AsRow(show, n), SourceExportedAt, n.sourceExportedAt);
    SecondNormalForm(o, show, n);
  }

  lemma DifferentAgain(show: Float -> string, a: NormalRow, b: NormalRow)
    requires TextFields(a) && TextFields(b)
    requires a.anchorTileId != b.anchorTileId && a.w3wAddress != b.w3wAddress
    ensures DifferentTiles(AsRow(show, a), AsRow(show, b))
  {
    TextCellsAgain(show, a);
    TextCellsAgain(show, b);
  }

  ghost predicate AllExportDated(out: seq<NormalRow>) {
    forall i :: 0 <= i < |out| ==> out[i].sourceExportedAt.Some?
  }

  ghost predicate AllOptionalPresent(out: seq<NormalRow>) {
    forall i :: 0 <= i < |out| ==>
      out[i].verticalDatum.Some? && out[i].sourceRecordId.Some? && out[i].sourceExportedAt.Some?
  }

  lemma AllAcceptableAgainIff(o: Readers, show: Float -> string, out: seq<NormalRow>)
    requires Sensible(o, show) && AllValidated(o, out)
    ensures var again := Map(AsRowBy(show), out);
            (forall i :: 0 <= i < |again| ==> Acceptable(o, again[i])) <==> AllExportDated(out)
  {
    var again := Map(AsRowBy(show), out);
    MapAt(AsRowBy(show), out);
    if AllExportDated(out) {
      forall i | 0 <= i < |again| ensures Acceptable(o, again[i]) {
        AcceptableAgainIff(o, show, out[i]);
      }
    } else {
      var i :| 0 <= i < |out| && out[i].sourceExportedAt.None?;
      AcceptableAgainIff(o, show, out[i]);
      assert !Acceptable(o, again[i]);
    }
  }

  lemma AllDifferentAgain(o: Readers, show: Float -> string, out: seq<NormalRow>)
    requires AllValidated(o, out)
    ensures var again := Map(AsRowBy(show), out);
            forall i, j :: 0 <= i < j < |again| ==> DifferentTiles(again[i], again[j])
  {
    var again := Map(AsRowBy(show), out);
    MapAt(AsRowBy(show), out);
    forall i, j | 0 <= i < j < |again| ensures DifferentTiles(again[i], again[j]) {
      DifferentAgain(show, out[i], out[j]);
    }
  }

  lemma AuthoritativeAgainIff(o: Readers, show: Float -> string, out: seq<NormalRow>)
    requires Sensible(o, show) && AllValidated(o, out)
    ensures Authoritative(o, Map(AsRowBy(show), out), |out|) <==> AllExportDated(out)
  {
    MapAt(AsRowBy(show), out);
    AllAcceptableAgainIff(o, show, out);
    AllDifferentAgain(o, show, out);
  }

  /**
   Validation does not take back all of its own output.  The normalised rows of an accepted
   roster pass a second validation exactly when every row has an export date, since an absent
   one is read as the word None, which is no date.
   */
  lemma RevalidationAcceptsIff(o: Readers, show: Float -> string, rows: seq<Row>, expected: int, out: seq<NormalRow>)
    requires Sensible(o, show) && Verdict(Readings(ReadBy(o), rows), expected) == Success(out)
    ensures Verdict(Readings(ReadBy(o), Map(AsRowBy(show), out)), expected).Success? <==> AllExportDated(out)
  {
    OutputValidated(o, rows, expected, out);
    AuthoritativeAgainIff(o, show, out);
    AcceptsIff(o, Map(AsRowBy(show), out), expected);
  }

  /** When the second validation succeeds, it returns each row as read the second time. */
  lemma SecondOutput(o: Readers, show: Float -> string, out: seq<NormalRow>, second: seq<NormalRow>)
    requires Sensible(o, show) && AllValidated(o, out)
    requires Verdict(Readings(ReadBy(o), Map(AsRowBy(show), out)), |out|) == Success(second)
    ensures |second| == |out| && forall i :: 0 <= i < |out| ==> second[i] == Reread(out[i])
  {
    var again := Map(AsRowBy(show), out);
    MapAt(AsRowBy(show), out);
    AcceptedRowsNormalized(o, again, |out|);
    forall i | 0 <= i < |out| ensures second[i] == Reread(out[i]) {
      AcceptableAgainIff(o, show, out[i]);
      assert again[i] == AsRow(show, out[i]);
    }
  }

  lemma RereadIdentityIff(out: seq<NormalRow>, second: seq<NormalRow>)
    requires |second| == |out| && forall i :: 0 <= i < |out| ==> second[i] == Reread(out[i])
    ensures second == out <==> AllOptionalPresent(out)
  {
    if !AllOptionalPresent(out) {
      var i :| 0 <= i < |out| && !(out[i].verticalDatum.Some? && out[i].sourceRecordId.Some?
                                   && out[i].sourceExportedAt.Some?);
      assert second[i] != out[i];
    }
  }

  /** It returns the same rows exactly when no row lacks any of the three optional fields. */
  lemma RevalidationIdempotentIff(o: Readers, show: Float -> string, rows: seq<Row>, expected: int, out: seq<NormalRow>)
    requires Sensible(o, show) && Verdict(Readings(ReadBy(o), rows), expected) == Success(out)
    ensures Verdict(Readings(ReadBy(o), Map(AsRowBy(show), out)), expected) == Success(out) <==> AllOptionalPresent(out)
  {
    var verdict := Verdict(Readings(ReadBy(o), Map(AsRowBy(show), out)), expected);
    RevalidationAcceptsIff(o, show, rows, expected, out);
    OutputValidated(o, rows, expected, out);
    if verdict.Success? {
      SecondOutput(o, show, out, verdict.value);
      RereadIdentityIff(out, verdict.value);
    }
  }

  /** A row that lacks an optional field in the input lacks it in its normal form. */
  lemma OptionalFieldsOfInput(o: Readers, row: Row, n: NormalRow)
    requires Normalize(o, row) == Success(n)
    ensures n.verticalDatum.Some? <==> Cell(row, VerticalDatum) != ""
    ensures n.sourceRecordId.Some? <==> Cell(row, SourceRecordId) != ""
    ensures n.sourceExportedAt.Some? <==> Cell(row, SourceExportedAt) != ""
  {
    NormalRowIs(o, row, n);
  }
}
