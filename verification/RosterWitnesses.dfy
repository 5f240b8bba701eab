/**
 Rosters of every size, accepted by the validator, for which its output is not taken back,
 not taken back unchanged, or exported in an order that depends on the input.
 */
module RosterWitnesses {
  import opened Wrappers
  import opened Text
  import opened Sorting
  import opened RosterAddress
  import opened RosterRow
  import opened Roster
  import opened RosterOrder
  import opened ScorecardExport
  import opened RosterPipeline
  import opened SheetReadBack

  const SOME_DAY := "2024-01-01"

  /** What is asked of the readers: a number is one, a day is a date, "None" is not. */
  ghost predicate Plausible(o: Readers) {
    o.parseFloat("0") == Some(Finite(0.0)) && o.isIsoDate(SOME_DAY) && !o.isIsoDate("None")
  }

  /** Readers and a printer of numbers as the lemmas below ask for exist. */
  lemma PlausibleExists() returns (o: Readers, show: Float -> string)
    ensures Plausible(o) && Sensible(o, show) && PrintsBack(o, show, Finite(0.0))
  {
    o := Readers((text: string) => if text == "0" then Some(Finite(0.0)) else None, (text: string) => text == SOME_DAY);
    show := (x: Float) => "0";
    StripOfTrimmed("0");
    NoneIsNoDate(o);
  }

  lemma {:induction false} ReplaceNothing(s: string)
    requires 'Z' !in s
    ensures ReplaceZ(s) == s
  {
    if s != "" {
      assert s[0] in s && s == [s[0]] + s[1..];
      ReplaceNothing(s[1..]);
    }
  }

  lemma NoneIsNoDate(o: Readers)
    requires !o.isIsoDate("None")
    ensures !ReadsAsDate(o, "None")
  {
    StripOfTrimmed("None");
    ReplaceNothing("None");
  }

  lemma SomeDayIsDate(o: Readers)
    requires o.isIsoDate(SOME_DAY)
    ensures ReadsAsDate(o, SOME_DAY)
  {
    StripOfTrimmed(SOME_DAY);
    ReplaceNothing(SOME_DAY);
  }

  // ----- the rosters -----

  function Xs(k: nat): string {
    if k == 0 then "" else "x" + Xs(k - 1)
  }

  lemma {:induction false} XsAre(k: nat)
    ensures |Xs(k)| == k && forall c :: c in Xs(k) ==> c == 'x'
  {
    if k > 0 {
      XsAre(k - 1);
    }
  }

  /** The first two ids differ in case only. */
  function Tile(k: nat): string {
    if k == 0 then "T" else if k == 1 then "t" else Xs(k)
  }

  function AddressFor(id: string): string {
    "///" + Labels(id, "b", "c")
  }

  lemma TileIs(k: nat)
    ensures |Tile(k)| == (if k == 0 then 1 else k) && IsLabel(Tile(k)) && Trimmed(Tile(k))
  {
    XsAre(k);
    if k >= 2 {
      assert Tile(k)[0] in Tile(k) && Tile(k)[k - 1] in Tile(k);
    }
  }

  lemma TilesDiffer(i: nat, j: nat)
    requires i < j
    ensures Tile(i) != Tile(j) && AddressFor(Tile(i)) != AddressFor(Tile(j))
  {
    TileIs(i);
    TileIs(j);
    if i == 0 && j == 1 {
      assert Tile(i)[0] != Tile(j)[0];
    }
    AddressInjective(Tile(i), Tile(j));
  }

  lemma AddressInjective(a: string, b: string)
    ensures AddressFor(a) == AddressFor(b) ==> a == b
  {
    AddressParts(a);
    AddressParts(b);
  }

  lemma AddressParts(a: string)
    ensures |AddressFor(a)| == |a| + 7 && AddressFor(a)[3..|a| + 3] == a
  {
    var tail := "." + ("b" + "." + "c");
    assert AddressFor(a) == "///" + a + tail && |tail| == 4;
  }

  lemma AddressIs(k: nat)
    ensures IsAddress(AddressFor(Tile(k))) && Trimmed(AddressFor(Tile(k))) && AddressFor(Tile(k)) != ""
  {
    TileIs(k);
    assert IsLabel("b") && IsLabel("c");
    var address := AddressFor(Tile(k));
    assert address[0] == '/' && address[|address| - 1] == 'c';
  }

  function SampleRow(k: nat, exported: bool): Row {
    var row := map[
      AnchorTileId := Text(Tile(k)),
      W3wAddress := Text(AddressFor(Tile(k))),
      Latitude := Text("0"),
      Longitude := Text("0"),
      ActivationDate := Text(SOME_DAY),
      SourceSystem := Text("s")];
    if exported then row[SourceExportedAt := Text(SOME_DAY)] else row
  }

  function SampleRoster(n: nat, exported: bool): seq<Row> {
    seq(n, (k: nat) => SampleRow(k, exported))
  }

  lemma SampleCells(k: nat, exported: bool)
    ensures var row := SampleRow(k, exported);
            && Cell(row, AnchorTileId) == Tile(k) && Cell(row, W3wAddress) == AddressFor(Tile(k))
            && Cell(row, Latitude) == "0" && Cell(row, Longitude) == "0"
            && Cell(row, ActivationDate) == SOME_DAY && Cell(row, SourceSystem) == "s"
  {
    TileIs(k);
    AddressIs(k);
    SampleEntries(k, exported);
    CellsOf(SampleRow(k, exported), Tile(k), AddressFor(Tile(k)));
  }

  predicate HasText(row: Row, column: Column, text: string) {
    column in row && row[column] == Text(text)
  }

  predicate HasEntries(row: Row, id: string, address: string) {
    && HasText(row, AnchorTileId, id) && HasText(row, W3wAddress, address)
    && HasText(row, Latitude, "0") && HasText(row, Longitude, "0")
    && HasText(row, ActivationDate, SOME_DAY) && HasText(row, SourceSystem, "s")
  }

  lemma SampleEntries(k: nat, exported: bool)
    ensures HasEntries(SampleRow(k, exported), Tile(k), AddressFor(Tile(k)))
  {
  }

  lemma CellsOf(row: Row, id: string, address: string)
    requires HasEntries(row, id, address) && Trimmed(id) && Trimmed(address)
    ensures Cell(row, AnchorTileId) == id && Cell(row, W3wAddress) == address
    ensures Cell(row, Latitude) == "0" && Cell(row, Longitude) == "0"
    ensures Cell(row, ActivationDate) == SOME_DAY && Cell(row, SourceSystem) == "s"
  {
    TextCell(row, AnchorTileId, id, "");
    TextCell(row, W3wAddress, address, "");
    TextCell(row, Latitude, "0", "");
    TextCell(row, Longitude, "0", "");
    TextCell(row, ActivationDate, SOME_DAY, "");
    TextCell(row, SourceSystem, "s", "");
  }

  lemma SampleOptionalCells(k: nat, exported: bool)
    ensures var row := SampleRow(k, exported);
            && Cell(row, VerticalDatum) == ""
            && Cell(row, SourceExportedAt) == if exported then SOME_DAY else ""
  {
    StripOfTrimmed("");
    StripOfTrimmed(SOME_DAY);
  }

  lemma SamplePresent(row: Row, k: nat, exported: bool)
    requires row == SampleRow(k, exported)
    ensures Filled(row)
  {
    SampleCells(k, exported);
    TileIs(k);
    AddressIs(k);
  }

  lemma SampleAcceptable(o: Readers, k: nat, exported: bool)
    requires Plausible(o)
    ensures Acceptable(o, SampleRow(k, exported))
  {
    var row := SampleRow(k, exported);
    SampleCells(k, exported);
    SampleOptionalCells(k, exported);
    SamplePresent(row, k, exported);
    AddressIs(k);
    SampleReads(o, k, exported);
  }

  lemma SampleReads(o: Readers, k: nat, exported: bool)
    requires Plausible(o)
    ensures var row := SampleRow(k, exported);
            && Coordinate(o, row, Latitude, -90.0, 90.0) == Success(Finite(0.0))
            && Coordinate(o, row, Longitude, -180.0, 180.0) == Success(Finite(0.0))
            && ReadsAsDate(o, SOME_DAY)
  {
    SomeDayIsDate(o);
    SampleEntries(k, exported);
    ZeroCoordinate(o, SampleRow(k, exported), Latitude, -90.0, 90.0);
    ZeroCoordinate(o, SampleRow(k, exported), Longitude, -180.0, 180.0);
  }

  lemma ZeroCoordinate(o: Readers, row: Row, field: Column, low: real, high: real)
    requires Plausible(o) && HasText(row, field, "0") && low <= 0.0 <= high
    ensures Coordinate(o, row, field, low, high) == Success(Finite(0.0))
  {
  }

  /** The validator accepts the sample roster of every size. */
  lemma SampleAccepted(o: Readers, n: nat, exported: bool)
    requires Plausible(o)
    ensures Verdict(Readings(ReadBy(o), SampleRoster(n, exported)), n).Success?
  {
    var rows := SampleRoster(n, exported);
    forall i | 0 <= i < n ensures Acceptable(o, rows[i]) {
      SampleAcceptable(o, i, exported);
    }
    forall i, j | 0 <= i < j < n ensures DifferentTiles(rows[i], rows[j]) {
      SampleCells(i, exported);
      SampleCells(j, exported);
      TilesDiffer(i, j);
    }
    AcceptsIff(o, rows, n);
  }

  /** What the validator returns for the sample roster. */
  function SampleOutput(o: Readers, n: nat, exported: bool): seq<NormalRow>
    requires Plausible(o)
  {
    SampleAccepted(o, n, exported);
    Verdict(Readings(ReadBy(o), SampleRoster(n, exported)), n).value
  }

  lemma SampleOutputAt(o: Readers, n: nat, exported: bool, k: nat)
    requires Plausible(o) && k < n
    ensures var out := SampleOutput(o, n, exported);
            && |out| == n
            && out[k].anchorTileId == Tile(k) && out[k].w3wAddress == AddressFor(Tile(k))
            && out[k].verticalDatum.None? && out[k].sourceExportedAt.Some? == exported
  {
    SampleOutputNormal(o, n, exported, k);
    SampleNormalForm(o, k, exported, SampleOutput(o, n, exported)[k]);
  }

  lemma SampleOutputNormal(o: Readers, n: nat, exported: bool, k: nat)
    requires Plausible(o) && k < n
    ensures |SampleOutput(o, n, exported)| == n
    ensures Normalize(o, SampleRow(k, exported)) == Success(SampleOutput(o, n, exported)[k])
  {
    SampleAccepted(o, n, exported);
    AcceptedRowNormal(o, SampleRoster(n, exported), n, SampleOutput(o, n, exported), k);
    assert SampleRoster(n, exported)[k] == SampleRow(k, exported);
  }

  lemma AcceptedRowNormal(o: Readers, rows: seq<Row>, expected: int, out: seq<NormalRow>, k: nat)
    requires Verdict(Readings(ReadBy(o), rows), expected) == Success(out) && k < |rows|
    ensures |out| == |rows| && Normalize(o, rows[k]) == Success(out[k])
  {
    AcceptedRowsNormalized(o, rows, expected);
  }

  lemma SampleNormalForm(o: Readers, k: nat, exported: bool, row: NormalRow)
    requires Normalize(o, SampleRow(k, exported)) == Success(row)
    ensures row.anchorTileId == Tile(k) && row.w3wAddress == AddressFor(Tile(k))
    ensures row.verticalDatum.None? && row.sourceExportedAt.Some? == exported
  {
    NormalRowIs(o, SampleRow(k, exported), row);
    OptionalFieldsOfInput(o, SampleRow(k, exported), row);
    SampleCells(k, exported);
    SampleOptionalCells(k, exported);
  }

  // ----- what goes wrong with them -----

  /** An accepted roster, of any size, whose normalised rows are refused the second time. */
  lemma OutputRefused(o: Readers, show: Float -> string, n: nat)
    requires Plausible(o) && Sensible(o, show) && n > 0
    ensures Verdict(Readings(ReadBy(o), SampleRoster(n, false)), n) == Success(SampleOutput(o, n, false))
    ensures Verdict(Readings(ReadBy(o), Map(AsRowBy(show), SampleOutput(o, n, false))), n).Failure?
  {
    var out := SampleOutput(o, n, false);
    SampleAccepted(o, n, false);
    SampleOutputAt(o, n, false, 0);
    RevalidationAcceptsIff(o, show, SampleRoster(n, false), n, out);
  }

  /** An accepted roster, of any size, whose normalised rows are accepted again and come back different. */
  lemma OutputChanged(o: Readers, show: Float -> string, n: nat)
    requires Plausible(o) && Sensible(o, show) && n > 0
    ensures Verdict(Readings(ReadBy(o), SampleRoster(n, true)), n) == Success(SampleOutput(o, n, true))
    ensures var again := Verdict(Readings(ReadBy(o), Map(AsRowBy(show), SampleOutput(o, n, true))), n);
            again.Success? && again.value != SampleOutput(o, n, true)
  {
    var out := SampleOutput(o, n, true);
    SampleAccepted(o, n, true);
    forall k | 0 <= k < n ensures |out| == n && out[k].sourceExportedAt.Some? && out[k].verticalDatum.None? {
      SampleOutputAt(o, n, true, k);
    }
    SampleOutputAt(o, n, true, 0);
    RevalidationAcceptsIff(o, show, SampleRoster(n, true), n, out);
    RevalidationIdempotentIff(o, show, SampleRoster(n, true), n, out);
  }

  lemma LowerAddress(id: string)
    ensures Lower(AddressFor(id)) == Lower("///") + (Lower(id) + Lower("." + ("b" + "." + "c")))
  {
    var tail := "." + ("b" + "." + "c");
    LowerAppend("///", id + tail);
    LowerAppend(id, tail);
    AddressTail(id, tail);
  }

  lemma AddressTail(id: string, tail: string)
    requires tail == "." + ("b" + "." + "c")
    ensures AddressFor(id) == "///" + (id + tail)
  {
    assert Labels(id, "b", "c") == id + tail;
  }

  lemma FirstTwoFoldAlike()
    ensures Lower(Tile(0)) == Lower(Tile(1))
    ensures Lower(AddressFor(Tile(0))) == Lower(AddressFor(Tile(1)))
  {
    LowerAt("T");
    LowerAt("t");
    assert Lower("T") == Lower("t");
    LowerAddress("T");
    LowerAddress("t");
  }

  /** An accepted roster, of any size from two, whose exported sheet depends on the order of its records. */
  lemma OrderShownByExport(o: Readers, n: nat)
    requires Plausible(o) && n >= 2
    ensures Verdict(Readings(ReadBy(o), SampleRoster(n, false)), n) == Success(SampleOutput(o, n, false))
    ensures !SameSheetForAllOrders(Lower, SampleOutput(o, n, false))
    ensures !SameSheetForAllRosters(o, Lower, SampleRoster(n, false), n,
                                    BuildSyncRows(Lower, SampleOutput(o, n, false)))
  {
    var out := SampleOutput(o, n, false);
    SampleAccepted(o, n, false);
    SampleOutputAt(o, n, false, 0);
    SampleOutputAt(o, n, false, 1);
    TilesDiffer(0, 1);
    FirstTwoFoldAlike();
    assert out[0] in out && out[1] in out && out[0] != out[1];
    OrderIndependentRosterIff(o, Lower, SampleRoster(n, false), n, out);
    SameSheetTransfers(o, Lower, SampleRoster(n, false), n, out);
  }

  lemma SampleCoordinates(o: Readers, k: nat, exported: bool, row: NormalRow)
    requires Plausible(o) && Normalize(o, SampleRow(k, exported)) == Success(row)
    ensures row.latitude == row.longitude == Finite(0.0)
  {
    SampleReads(o, k, exported);
  }

  /** For the same rosters whose normalised rows are refused, the exported sheet is taken back. */
  lemma SheetTakenBack(o: Readers, fold: Fold, show: Float -> string, n: nat)
    requires Plausible(o) && PrintsBack(o, show, Finite(0.0))
    ensures Verdict(Readings(ReadBy(o), SampleRoster(n, false)), n) == Success(SampleOutput(o, n, false))
    ensures TakenBack(o, fold, show, BuildSyncRows(fold, SampleOutput(o, n, false)), n)
  {
    var out := SampleOutput(o, n, false);
    SampleAccepted(o, n, false);
    AcceptedRowsNormalized(o, SampleRoster(n, false), n);
    forall k | 0 <= k < |out| ensures CoordinatesPrintBack(o, show, out[k]) {
      SampleOutputNormal(o, n, false, k);
      SampleCoordinates(o, k, false, out[k]);
    }
    SheetTakenBackIff(o, fold, show, SampleRoster(n, false), n, out);
  }
}
