/**
 One row of the anchor roster (ssr/tools/validate_anchor_roster.py): what the validator reads
 from it.  Reading a number from text and deciding whether a text is an ISO date are
 parameters (`Readers`).
 */
module RosterRow {
  import opened Wrappers
  import opened Text
  import opened Sequences
  import opened RosterAddress

  /** A floating-point value as far as range checks can tell them apart. */
  datatype Float = NaN | Infinite(positive: bool) | Finite(value: real) {
    predicate Between(low: real, high: real) {
      Finite? && low <= value <= high
    }
  }

  /** The columns the validator reads. */
  datatype Column =
    | AnchorTileId | W3wAddress | Latitude | Longitude | ActivationDate | SourceSystem
    | Status | SurfaceCrs | VerticalDatum | SourceRecordId | SourceExportedAt

  const REQUIRED_FIELDS: seq<Column> :=
    [AnchorTileId, W3wAddress, Latitude, Longitude, ActivationDate, SourceSystem]

  /** A cell: text, or anything else with what `str` prints and what `float` makes of it. */
  datatype Value = Text(text: string) | Other(printed: string, number: Option<Float>)

  type Row = map<Column, Value>

  datatype Readers = Readers(parseFloat: string -> Option<Float>, isIsoDate: string -> bool)

  function Str(v: Value): string {
    match v case Text(text) => text case Other(printed, _) => printed
  }

  function ToFloat(o: Readers, v: Value): Option<Float> {
    match v case Text(text) => o.parseFloat(text) case Other(_, number) => number
  }

  /** `str(row.get(column, default)).strip()`. */
  function CellOr(row: Row, column: Column, default: string): string {
    Strip(if column in row then Str(row[column]) else default)
  }

  function Cell(row: Row, column: Column): string {
    CellOr(row, column, "")
  }

  function ReplaceZ(s: string): string {
    if s == "" then "" else (if s[0] == 'Z' then "+00:00" else [s[0]]) + ReplaceZ(s[1..])
  }

  predicate ReadsAsDate(o: Readers, text: string) {
    o.isIsoDate(ReplaceZ(Strip(text)))
  }

  /** What can be wrong with a row whose required fields are there. */
  datatype Problem =
    | NotNumeric(field: Column)
    | OutOfRange(field: Column, number: Float)
    | BadDate(field: Column)

  datatype NormalRow = NormalRow(
    anchorTileId: string,
    w3wAddress: string,
    latitude: Float,
    longitude: Float,
    activationDate: string,
    status: string,
    surfaceCrs: string,
    verticalDatum: Option<string>,
    sourceSystem: string,
    sourceRecordId: Option<string>,
    sourceExportedAt: Option<string>)

  function OrNone(s: string): Option<string> {
    if s == "" then None else Some(s)
  }

  function OrElse(s: string, default: string): string {
    if s == "" then default else s
  }

  /** What the validator gets out of one row, whatever the other rows are. */
  datatype Reading =
    | Incomplete(missing: seq<Column>)
    | Complete(id: string, address: string, addressOk: bool, row: Result<NormalRow, Problem>, exportDateOk: bool)
  {
    predicate Ok() {
      Complete? && addressOk && row.Success? && exportDateOk
    }
  }

  function MissingAmong(row: Row, fields: seq<Column>): seq<Column> {
    if fields == [] then []
    else (if Cell(row, fields[0]) == "" then [fields[0]] else []) + MissingAmong(row, fields[1..])
  }

  /** The number read from a cell, if there is a cell and it reads as one. */
  function NumberIn(o: Readers, row: Row, field: Column): Option<Float> {
    if field in row then ToFloat(o, row[field]) else None
  }

  /** `float(row[column])` within its range, or why not. */
  function Coordinate(o: Readers, row: Row, field: Column, low: real, high: real): Result<Float, Problem> {
    var x := NumberIn(o, row, field);
    if x.None? then Failure(NotNumeric(field))
    else if !x.value.Between(low, high) then Failure(OutOfRange(field, x.value))
    else Success(x.value)
  }

  /** Latitude, longitude and activation date, in this order; the first problem counts. */
  function Normalize(o: Readers, row: Row): Result<NormalRow, Problem> {
    var latitude := Coordinate(o, row, Latitude, -90.0, 90.0);
    var longitude := Coordinate(o, row, Longitude, -180.0, 180.0);
    if latitude.Failure? then Failure(latitude.error)
    else if longitude.Failure? then Failure(longitude.error)
    else if !ReadsAsDate(o, Cell(row, ActivationDate)) then Failure(BadDate(ActivationDate))
    else Success(NormalRow(
                   Cell(row, AnchorTileId), Cell(row, W3wAddress), latitude.value, longitude.value,
                   Cell(row, ActivationDate),
                   OrElse(CellOr(row, Status, "active"), "active"),
                   OrElse(CellOr(row, SurfaceCrs, "EPSG:4326"), "EPSG:4326"),
                   OrNone(Cell(row, VerticalDatum)),
                   Cell(row, SourceSystem),
                   OrNone(Cell(row, SourceRecordId)),
                   OrNone(Cell(row, SourceExportedAt))))
  }

  function Read(o: Readers, row: Row): Reading {
    var missing := MissingAmong(row, REQUIRED_FIELDS);
    if missing != [] then Incomplete(missing)
    else
      var exported := Cell(row, SourceExportedAt);
      Complete(Cell(row, AnchorTileId), Cell(row, W3wAddress), MatchesAddress(Cell(row, W3wAddress)),
               Normalize(o, row), exported == "" || ReadsAsDate(o, exported))
  }

  function ReadBy(o: Readers): Row -> Reading {
    (row: Row) => Read(o, row)
  }

  /** A normal row in terms of the cells it comes from. */
  lemma NormalRowIs(o: Readers, row: Row, n: NormalRow)
    requires Normalize(o, row) == Success(n)
    ensures n.anchorTileId == Cell(row, AnchorTileId) && n.w3wAddress == Cell(row, W3wAddress)
    ensures n.activationDate == Cell(row, ActivationDate) && n.sourceSystem == Cell(row, SourceSystem)
    ensures NumberIn(o, row, Latitude) == Some(n.latitude) && NumberIn(o, row, Longitude) == Some(n.longitude)
    ensures n.status == if Cell(row, Status) == "" then "active" else Cell(row, Status)
    ensures n.surfaceCrs == if Cell(row, SurfaceCrs) == "" then "EPSG:4326" else Cell(row, SurfaceCrs)
    ensures n.verticalDatum == if Cell(row, VerticalDatum) == "" then None else Some(Cell(row, VerticalDatum))
    ensures n.sourceRecordId == if Cell(row, SourceRecordId) == "" then None else Some(Cell(row, SourceRecordId))
    ensures n.sourceExportedAt == if Cell(row, SourceExportedAt) == "" then None else Some(Cell(row, SourceExportedAt))
  {
    DefaultsTrimmed();
    StripOfTrimmed("active");
    StripOfTrimmed("EPSG:4326");
  }

  lemma DefaultsTrimmed()
    ensures Trimmed("active") && Trimmed("EPSG:4326")
  {
    assert "active"[0] == 'a' && "active"[5] == 'e';
    assert "EPSG:4326"[0] == 'E' && "EPSG:4326"[8] == '6';
  }

  // ----- reading dates -----

  lemma {:induction false} ReplaceZAppend(a: string, b: string)
    ensures ReplaceZ(a + b) == ReplaceZ(a) + ReplaceZ(b)
  {
    if a == "" {
      assert a + b == b;
    } else {
      ConsAppend(a, b);
      ReplaceZAppend(a[1..], b);
      AppendAssociative(if a[0] == 'Z' then "+00:00" else [a[0]], ReplaceZ(a[1..]), ReplaceZ(b));
    }
  }

  /** The text with no `Z` is left alone, and no other is. */
  lemma {:induction false} ReplaceZKeepsIff(s: string)
    ensures ReplaceZ(s) == s <==> 'Z' !in s
    ensures |ReplaceZ(s)| >= |s| && 'Z' !in ReplaceZ(s)
  {
    if s != "" {
      ReplaceZKeepsIff(s[1..]);
      TailOfCons(s[0], s[1..]);
      assert s == [s[0]] + s[1..];
    }
  }

  lemma {:induction false} TrimLeftBefore(s: string, t: string)
    requires t != "" && !IsSpace(t[0])
    ensures TrimLeft(s + t) == TrimLeft(s) + t
  {
    if s == "" {
      assert s + t == t && TrimLeft(t) == t;
    } else {
      ConsAppend(s, t);
      TrimLeftBefore(s[1..], t);
    }
  }

  lemma StripBefore(s: string, t: string)
    requires t != "" && !IsSpace(t[0]) && !IsSpace(t[|t| - 1])
    ensures Strip(s + t) == TrimLeft(s) + t
  {
    TrimLeftBefore(s, t);
    NothingToTrim(TrimLeft(s), t);
  }

  lemma NothingToTrim(s: string, t: string)
    requires t != "" && !IsSpace(t[|t| - 1])
    ensures TrimRight(s + t) == s + t
  {
    assert (s + t)[|s + t| - 1] == t[|t| - 1];
  }

  lemma SuffixRead(date: string, suffix: string)
    requires suffix != "" && !IsSpace(suffix[0]) && !IsSpace(suffix[|suffix| - 1])
    ensures ReplaceZ(Strip(date + suffix)) == ReplaceZ(TrimLeft(date)) + ReplaceZ(suffix)
  {
    StripBefore(date, suffix);
    ReplaceZAppend(TrimLeft(date), suffix);
  }

  lemma OffsetZero()
    ensures !IsSpace("+00:00"[0]) && !IsSpace("+00:00"[5]) && ReplaceZ("+00:00") == "+00:00"
  {
    ReplaceZKeepsIff("+00:00");
  }

  lemma PlainDate(o: Readers, date: string)
    requires 'Z' !in date && Trimmed(date)
    ensures ReadsAsDate(o, date) <==> o.isIsoDate(date)
  {
    StripOfTrimmed(date);
    ReplaceZKeepsIff(date);
  }

  /** A date in universal time may be written with a `Z` or with the offset zero. */
  lemma UniversalTime(o: Readers, date: string)
    ensures ReadsAsDate(o, date + "Z") <==> ReadsAsDate(o, date + "+00:00")
    ensures 'Z' !in date && Trimmed(date) ==> (ReadsAsDate(o, date) <==> o.isIsoDate(date))
  {
    OffsetZero();
    ReplaceOne();
    SuffixRead(date, "Z");
    SuffixRead(date, "+00:00");
    if 'Z' !in date && Trimmed(date) {
      PlainDate(o, date);
    }
  }

  lemma ReplaceOne()
    ensures ReplaceZ("Z") == "+00:00"
  {
    assert "Z"[1..] == "" && ReplaceZ("") == "";
  }

  // ----- what an acceptable row is -----

  /** The six cells no row may leave blank. */
  predicate Filled(row: Row) {
    && Cell(row, AnchorTileId) != "" && Cell(row, W3wAddress) != "" && Cell(row, Latitude) != ""
    && Cell(row, Longitude) != "" && Cell(row, ActivationDate) != "" && Cell(row, SourceSystem) != ""
  }

  /** The declared requirements on one row. */
  ghost predicate Acceptable(o: Readers, row: Row) {
    var latitude, longitude := NumberIn(o, row, Latitude), NumberIn(o, row, Longitude);
    && Filled(row)
    && IsAddress(Cell(row, W3wAddress))
    && latitude.Some? && latitude.value.Finite? && -90.0 <= latitude.value.value <= 90.0
    && longitude.Some? && longitude.value.Finite? && -180.0 <= longitude.value.value <= 180.0
    && ReadsAsDate(o, Cell(row, ActivationDate))
    && (Cell(row, SourceExportedAt) != "" ==> ReadsAsDate(o, Cell(row, SourceExportedAt)))
  }

  lemma {:induction false} MissingAmongIff(row: Row, fields: seq<Column>)
    ensures MissingAmong(row, fields) == [] <==> forall f :: f in fields ==> Cell(row, f) != ""
  {
    if fields != [] {
      MissingAmongIff(row, fields[1..]);
      assert fields == [fields[0]] + fields[1..] && fields[0] in fields;
      assert forall f :: f in fields[1..] ==> f in fields;
    }
  }

  lemma RequiredCellsIff(row: Row)
    ensures MissingAmong(row, REQUIRED_FIELDS) == [] <==> Filled(row)
  {
    MissingAmongIff(row, REQUIRED_FIELDS);
    forall f: Column ensures f in REQUIRED_FIELDS
                     <==> f in {AnchorTileId, W3wAddress, Latitude, Longitude, ActivationDate, SourceSystem}
    {
      RequiredField(f);
    }
  }

  lemma RequiredField(f: Column)
    ensures f in REQUIRED_FIELDS
            <==> f in {AnchorTileId, W3wAddress, Latitude, Longitude, ActivationDate, SourceSystem}
  {
    assert REQUIRED_FIELDS[0] == AnchorTileId && REQUIRED_FIELDS[1] == W3wAddress && REQUIRED_FIELDS[2] == Latitude;
    assert REQUIRED_FIELDS[3] == Longitude && REQUIRED_FIELDS[4] == ActivationDate;
    assert REQUIRED_FIELDS[5] == SourceSystem;
  }

  lemma {:induction false} MissingAmongAre(row: Row, fields: seq<Column>)
    ensures forall f :: f in MissingAmong(row, fields) <==> f in fields && Cell(row, f) == ""
    ensures Subsequence(MissingAmong(row, fields), fields)
  {
    if fields != [] {
      MissingAmongAre(row, fields[1..]);
      assert fields == [fields[0]] + fields[1..];
      SubsequenceCons(fields[0], MissingAmong(row, fields[1..]), fields[1..]);
    }
  }

  /** What is read from a row: the blank required cells, if there are any, or else its trimmed identity. */
  lemma ReadingIs(o: Readers, row: Row)
    ensures var r := Read(o, row);
            if Filled(row) then
              && r.Complete? && r.id == Cell(row, AnchorTileId) && r.address == Cell(row, W3wAddress)
              && (r.addressOk <==> IsAddress(Cell(row, W3wAddress)))
              && (r.exportDateOk
                  <==> Cell(row, SourceExportedAt) != "" ==> ReadsAsDate(o, Cell(row, SourceExportedAt)))
            else
              && r.Incomplete? && r.missing != [] && Subsequence(r.missing, REQUIRED_FIELDS)
              && forall f :: f in r.missing
                             <==> && f in {AnchorTileId, W3wAddress, Latitude, Longitude, ActivationDate, SourceSystem}
                                  && Cell(row, f) == ""
  {
    RequiredCellsIff(row);
    MatchesIff(Cell(row, W3wAddress));
    MissingAmongAre(row, REQUIRED_FIELDS);
    forall f: Column ensures f in REQUIRED_FIELDS
                     <==> f in {AnchorTileId, W3wAddress, Latitude, Longitude, ActivationDate, SourceSystem}
    {
      RequiredField(f);
    }
  }

  /** What is reported of a number: nothing within the bounds, and every other number as out of range. */
  lemma CoordinateIs(o: Readers, row: Row, field: Column, low: real, high: real)
    ensures var read, r := NumberIn(o, row, field), Coordinate(o, row, field, low, high);
            && (r == Failure(NotNumeric(field)) <==> read.None?)
            && (forall x :: r == Failure(OutOfRange(field, x))
                            <==> && read == Some(x)
                                 && (x.NaN? || x.Infinite? || (x.Finite? && (x.value < low || high < x.value))))
            && (forall x :: r == Success(x) <==> read == Some(x) && x.Finite? && low <= x.value && x.value <= high)
  {
  }

  /** A row reads without any complaint exactly when it meets the requirements. */
  lemma ReadOkIff(o: Readers, row: Row)
    ensures Read(o, row).Ok() <==> Acceptable(o, row)
  {
    RequiredCellsIff(row);
    CoordinateIs(o, row, Latitude, -90.0, 90.0);
    CoordinateIs(o, row, Longitude, -180.0, 180.0);
    MatchesIff(Cell(row, W3wAddress));
  }
}
