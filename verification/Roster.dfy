/**
 The error-collecting roster validator (ssr/tools/validate_anchor_roster.py): the loop over
 the rows with its two sets of texts seen so far.
 */
module Roster {
  import opened Wrappers
  import opened Sorting
  import opened RosterRow
  import opened Sequences

  datatype RosterError =
    | WrongCount(expected: int, found: nat)
    | MissingFields(number: nat, fields: seq<Column>)
    | DuplicateId(number: nat, id: string)
    | DuplicateAddress(number: nat, address: string)
    | InvalidAddress(number: nat, address: string)
    | RowProblem(number: nat, problem: Problem)

  /** What is read from each row, for a given way of reading one. */
  function Readings<R>(read: R -> Reading, rows: seq<R>): seq<Reading> {
    Map(read, rows)
  }

  // ----- what the loop should collect -----

  /** The ids of the rows with all required fields. */
  function SeenIds(rs: seq<Reading>): set<string> {
    if rs == [] then {}
    else SeenIds(rs[..|rs| - 1]) + (if rs[|rs| - 1].Complete? then {rs[|rs| - 1].id} else {})
  }

  /** The addresses of the rows with all required fields. */
  function SeenAddresses(rs: seq<Reading>): set<string> {
    if rs == [] then {}
    else SeenAddresses(rs[..|rs| - 1]) + (if rs[|rs| - 1].Complete? then {rs[|rs| - 1].address} else {})
  }

  function IdentityErrors(number: nat, r: Reading, idSeen: bool, addressSeen: bool): seq<RosterError>
    requires r.Complete?
  {
    (if idSeen then [DuplicateId(number, r.id)] else [])
    + (if addressSeen then [DuplicateAddress(number, r.address)] else [])
    + (if !r.addressOk then [InvalidAddress(number, r.address)] else [])
  }

  function PlaceErrors(number: nat, r: Reading): seq<RosterError>
    requires r.Complete?
  {
    if r.row.Failure? then [RowProblem(number, r.row.error)]
    else if !r.exportDateOk then [RowProblem(number, BadDate(SourceExportedAt))]
    else []
  }

  /** The errors of one row after the rows `past`, in the order they are reported. */
  function RowErrors(past: seq<Reading>, r: Reading): seq<RosterError> {
    var number := |past| + 1;
    if r.Incomplete? then [MissingFields(number, r.missing)]
    else
      IdentityErrors(number, r, r.id in SeenIds(past), r.address in SeenAddresses(past)) + PlaceErrors(number, r)
  }

  function Errors(rs: seq<Reading>): seq<RosterError> {
    if rs == [] then []
    else Errors(rs[..|rs| - 1]) + RowErrors(rs[..|rs| - 1], rs[|rs| - 1])
  }

  function CountErrors(rs: seq<Reading>, expected: int): seq<RosterError> {
    if |rs| != expected then [WrongCount(expected, |rs|)] else []
  }

  function AllErrors(rs: seq<Reading>, expected: int): seq<RosterError> {
    CountErrors(rs, expected) + Errors(rs)
  }

  /** The normal forms of the rows that have one. */
  function Normalized(rs: seq<Reading>): seq<NormalRow> {
    if rs == [] then []
    else
      var last := rs[|rs| - 1];
      Normalized(rs[..|rs| - 1]) + (if last.Complete? && last.row.Success? then [last.row.value] else [])
  }

  function Verdict(rs: seq<Reading>, expected: int): Result<seq<NormalRow>, seq<RosterError>> {
    if AllErrors(rs, expected) == [] then Success(Normalized(rs)) else Failure(AllErrors(rs, expected))
  }

  // ----- the loop -----

  /** What the loop has gathered after the rows read so far. */
  ghost predicate Gathered(rs: seq<Reading>, errors: seq<RosterError>, normalized: seq<NormalRow>,
                           seenIds: set<string>, seenAddresses: set<string>)
  {
    errors == Errors(rs) && normalized == Normalized(rs) && seenIds == SeenIds(rs) && seenAddresses == SeenAddresses(rs)
  }

  /** The loop: every row is looked at, whatever was wrong with the ones before. */
  method CheckRows<R>(read: R -> Reading, rows: seq<R>)
    returns (errors: seq<RosterError>, normalized: seq<NormalRow>)
    ensures errors == Errors(Readings(read, rows))
    ensures normalized == Normalized(Readings(read, rows))
  {
    ghost var rs := Readings(read, rows);
    MapAt(read, rows);
    var seenIds: set<string> := {};
    var seenAddresses: set<string> := {};
    errors, normalized := [], [];
    for i := 0 to |rows|
      invariant Gathered(rs[..i], errors, normalized, seenIds, seenAddresses)
    {
      var reading := read(rows[i]);
      var number := i + 1;
      if reading.Incomplete? {
        StepIncomplete(rs, i, errors, normalized, seenIds, seenAddresses);
        errors := errors + [MissingFields(number, reading.missing)];
        continue;
      }
      StepComplete(rs, i, errors, normalized, seenIds, seenAddresses);
      var identity := IdentityErrors(number, reading, reading.id in seenIds, reading.address in seenAddresses);
      errors := errors + (identity + PlaceErrors(number, reading));
      seenIds, seenAddresses := seenIds + {reading.id}, seenAddresses + {reading.address};
      if reading.row.Failure? {
        continue;
      }
      normalized := normalized + [reading.row.value];
    }
    assert rs[..|rows|] == rs;
  }

  lemma ReadingsLength<R>(read: R -> Reading, rows: seq<R>)
    ensures |Readings(read, rows)| == |rows|
  {
    MapAt(read, rows);
  }

  /** Checks count and rows, collecting all errors, and returns the normal rows only without any. */
  method ValidateRows<R>(read: R -> Reading, rows: seq<R>, expected: int := 729)
    returns (r: Result<seq<NormalRow>, seq<RosterError>>)
    ensures r == Verdict(Readings(read, rows), expected)
  {
    var errors: seq<RosterError> := [];
    if |rows| != expected {
      errors := errors + [WrongCount(expected, |rows|)];
    }
    ReadingsLength(read, rows);
    assert errors == CountErrors(Readings(read, rows), expected);
    var found, normalized := CheckRows(read, rows);
    errors := errors + found;
    if errors != [] {
      return Failure(errors);
    }
    return Success(normalized);
  }

  lemma Step(rs: seq<Reading>, i: nat)
    requires i < |rs|
    ensures Errors(rs[..i + 1]) == Errors(rs[..i]) + RowErrors(rs[..i], rs[i])
    ensures Normalized(rs[..i + 1])
         == Normalized(rs[..i]) + (if rs[i].Complete? && rs[i].row.Success? then [rs[i].row.value] else [])
    ensures SeenIds(rs[..i + 1]) == SeenIds(rs[..i]) + (if rs[i].Complete? then {rs[i].id} else {})
    ensures SeenAddresses(rs[..i + 1]) == SeenAddresses(rs[..i]) + (if rs[i].Complete? then {rs[i].address} else {})
  {
    assert rs[..i + 1][..i] == rs[..i];
  }

  lemma StepIncomplete(rs: seq<Reading>, i: nat, errors: seq<RosterError>, normalized: seq<NormalRow>,
                       seenIds: set<string>, seenAddresses: set<string>)
    requires i < |rs| && rs[i].Incomplete?
    requires Gathered(rs[..i], errors, normalized, seenIds, seenAddresses)
    ensures Gathered(rs[..i + 1], errors + [MissingFields(i + 1, rs[i].missing)], normalized, seenIds, seenAddresses)
  {
    Step(rs, i);
  }

  lemma RowErrorsComplete(past: seq<Reading>, r: Reading)
    requires r.Complete?
    ensures RowErrors(past, r)
         == IdentityErrors(|past| + 1, r, r.id in SeenIds(past), r.address in SeenAddresses(past))
            + PlaceErrors(|past| + 1, r)
  {
  }

  lemma StepNormalized(rs: seq<Reading>, i: nat)
    requires i < |rs| && rs[i].Complete?
    ensures var n := Normalized(rs[..i]);
            Normalized(rs[..i + 1]) == if rs[i].row.Success? then n + [rs[i].row.value] else n
  {
    TakeNext(rs, i);
  }

  lemma StepSeen(rs: seq<Reading>, i: nat)
    requires i < |rs| && rs[i].Complete?
    ensures SeenIds(rs[..i + 1]) == SeenIds(rs[..i]) + {rs[i].id}
    ensures SeenAddresses(rs[..i + 1]) == SeenAddresses(rs[..i]) + {rs[i].address}
  {
    TakeNext(rs, i);
  }

  lemma StepErrors(rs: seq<Reading>, i: nat)
    requires i < |rs|
    ensures Errors(rs[..i + 1]) == Errors(rs[..i]) + RowErrors(rs[..i], rs[i])
  {
    TakeNext(rs, i);
  }

  lemma StepComplete(rs: seq<Reading>, i: nat, errors: seq<RosterError>, normalized: seq<NormalRow>,
                     seenIds: set<string>, seenAddresses: set<string>)
    requires i < |rs| && rs[i].Complete?
    requires Gathered(rs[..i], errors, normalized, seenIds, seenAddresses)
    ensures var r := rs[i];
            Gathered(rs[..i + 1],
                     errors + (IdentityErrors(i + 1, r, r.id in seenIds, r.address in seenAddresses)
                               + PlaceErrors(i + 1, r)),
                     if r.row.Success? then normalized + [r.row.value] else normalized,
                     seenIds + {r.id}, seenAddresses + {r.address})
  {
    StepErrors(rs, i);
    RowErrorsComplete(rs[..i], rs[i]);
    StepNormalized(rs, i);
    StepSeen(rs, i);
  }

  lemma {:induction false} SeenAre(rs: seq<Reading>, text: string)
    ensures text in SeenIds(rs) <==> exists j :: 0 <= j < |rs| && rs[j].Complete? && rs[j].id == text
    ensures text in SeenAddresses(rs) <==> exists j :: 0 <= j < |rs| && rs[j].Complete? && rs[j].address == text
  {
    if rs != [] {
      var n := |rs| - 1;
      SeenAre(rs[..n], text);
      assert forall j :: 0 <= j < n ==> rs[..n][j] == rs[j];
    }
  }

  // ----- acceptance -----

  ghost predicate PairwiseDistinct(rs: seq<Reading>) {
    forall i, j :: 0 <= i < j < |rs| && rs[i].Complete? && rs[j].Complete? ==>
      rs[i].id != rs[j].id && rs[i].address != rs[j].address
  }

  ghost predicate AllOk(rs: seq<Reading>) {
    forall i :: 0 <= i < |rs| ==> rs[i].Ok()
  }

  lemma RowErrorsIff(past: seq<Reading>, r: Reading)
    ensures RowErrors(past, r) == []
            <==> r.Ok() && r.id !in SeenIds(past) && r.address !in SeenAddresses(past)
  {
  }

  /** No errors are found exactly when every row reads well and no two share an identity. */
  lemma NoErrorsIff(rs: seq<Reading>)
    ensures Errors(rs) == [] <==> AllOk(rs) && PairwiseDistinct(rs)
  {
    ErrorsDecide(rs);
  }

  ghost predicate Decided(rs: seq<Reading>) {
    Errors(rs) == [] <==> AllOk(rs) && PairwiseDistinct(rs)
  }

  lemma {:induction false} ErrorsDecide(rs: seq<Reading>)
    ensures Decided(rs)
  {
    if rs != [] {
      var past, r := rs[..|rs| - 1], rs[|rs| - 1];
      ErrorsDecide(past);
      NoErrorsSnoc(past, r);
      ButLast(rs);
    }
  }

  lemma NoErrorsSnoc(past: seq<Reading>, r: Reading)
    requires Decided(past)
    ensures Decided(past + [r])
  {
    ErrorsSnoc(past, r);
    RowErrorsIff(past, r);
    EmptyBoth(Errors(past), RowErrors(past, r));
    AllOkDistinctSnoc(past, r);
  }

  lemma ErrorsSnoc(past: seq<Reading>, r: Reading)
    ensures Errors(past + [r]) == Errors(past) + RowErrors(past, r)
  {
    assert (past + [r])[..|past|] == past;
  }

  lemma OkSnoc(past: seq<Reading>, r: Reading)
    ensures AllOk(past + [r]) <==> AllOk(past) && r.Ok()
  {
    var rs := past + [r];
    if AllOk(rs) {
      forall i | 0 <= i < |past| ensures past[i].Ok() {
        assert rs[i].Ok();
      }
      assert rs[|past|].Ok();
    }
  }

  lemma DistinctSnoc(past: seq<Reading>, r: Reading)
    requires r.Complete?
    ensures PairwiseDistinct(past + [r])
            <==> PairwiseDistinct(past) && r.id !in SeenIds(past) && r.address !in SeenAddresses(past)
  {
    var rs := past + [r];
    SeenAre(past, r.id);
    SeenAre(past, r.address);
    assert rs[|past|] == r && forall j :: 0 <= j < |past| ==> rs[j] == past[j];
  }

  lemma AllOkDistinctSnoc(past: seq<Reading>, r: Reading)
    ensures AllOk(past + [r]) && PairwiseDistinct(past + [r])
            <==> && AllOk(past) && PairwiseDistinct(past)
                 && r.Ok() && r.id !in SeenIds(past) && r.address !in SeenAddresses(past)
  {
    OkSnoc(past, r);
    if r.Ok() {
      DistinctSnoc(past, r);
    }
  }

  lemma {:induction false} NormalizedOfOk(rs: seq<Reading>)
    requires AllOk(rs)
    ensures |Normalized(rs)| == |rs|
    ensures forall i :: 0 <= i < |rs| ==> Normalized(rs)[i] == rs[i].row.value
  {
    if rs != [] {
      var n := |rs| - 1;
      forall i | 0 <= i < n ensures rs[..n][i].Ok() {
        assert rs[i].Ok();
      }
      NormalizedOfOk(rs[..n]);
      assert rs[n].Ok();
    }
  }

  /** What the validator is for, stated on the rows themselves. */
  ghost predicate Authoritative(o: Readers, rows: seq<Row>, expected: int) {
    && |rows| == expected
    && (forall i :: 0 <= i < |rows| ==> Acceptable(o, rows[i]))
    && (forall i, j :: 0 <= i < j < |rows| ==> DifferentTiles(rows[i], rows[j]))
  }

  predicate DifferentTiles(a: Row, b: Row) {
    Cell(a, AnchorTileId) != Cell(b, AnchorTileId) && Cell(a, W3wAddress) != Cell(b, W3wAddress)
  }

  /** The error-collecting loop accepts exactly the authoritative rosters. */
  lemma AcceptsIff(o: Readers, rows: seq<Row>, expected: int)
    ensures Verdict(Readings(ReadBy(o), rows), expected).Success? <==> Authoritative(o, rows, expected)
  {
    var rs := Readings(ReadBy(o), rows);
    MapAt(ReadBy(o), rows);
    NoErrorsIff(rs);
    AllOkOnRows(o, rows);
    if AllOk(rs) {
      DistinctOnRows(o, rows);
    }
  }

  lemma AllOkOnRows(o: Readers, rows: seq<Row>)
    ensures AllOk(Readings(ReadBy(o), rows)) <==> forall i :: 0 <= i < |rows| ==> Acceptable(o, rows[i])
  {
    var rs := Readings(ReadBy(o), rows);
    MapAt(ReadBy(o), rows);
    if AllOk(rs) {
      forall i | 0 <= i < |rows| ensures Acceptable(o, rows[i]) {
        assert rs[i].Ok();
        ReadOkIff(o, rows[i]);
      }
    } else {
      var i :| 0 <= i < |rs| && !rs[i].Ok();
      ReadOkIff(o, rows[i]);
      assert !Acceptable(o, rows[i]);
    }
  }

  lemma DistinctOnRows(o: Readers, rows: seq<Row>)
    requires AllOk(Readings(ReadBy(o), rows))
    ensures PairwiseDistinct(Readings(ReadBy(o), rows))
            <==> forall i, j :: 0 <= i < j < |rows| ==> DifferentTiles(rows[i], rows[j])
  {
    var rs := Readings(ReadBy(o), rows);
    MapAt(ReadBy(o), rows);
    if PairwiseDistinct(rs) {
      forall i, j | 0 <= i < j < |rows| ensures DifferentTiles(rows[i], rows[j]) {
        assert rs[i].Ok() && rs[j].Ok();
        DifferentReadings(o, rows[i], rows[j]);
      }
    } else {
      var i, j :| 0 <= i < j < |rs| && rs[i].Complete? && rs[j].Complete?
                  && !(rs[i].id != rs[j].id && rs[i].address != rs[j].address);
      DifferentReadings(o, rows[i], rows[j]);
      assert !DifferentTiles(rows[i], rows[j]);
    }
  }

  lemma DifferentReadings(o: Readers, a: Row, b: Row)
    requires Read(o, a).Complete? && Read(o, b).Complete?
    ensures DifferentTiles(a, b) <==> Read(o, a).id != Read(o, b).id && Read(o, a).address != Read(o, b).address
  {
  }

  lemma ReadNormalizes(o: Readers, row: Row)
    requires ReadBy(o)(row).Ok()
    ensures Normalize(o, row) == Success(ReadBy(o)(row).row.value)
  {
  }

  /** An accepted roster comes back row for row, each in its normal form. */
  lemma AcceptedRowsNormalized(o: Readers, rows: seq<Row>, expected: int)
    requires Verdict(Readings(ReadBy(o), rows), expected).Success?
    ensures var out := Verdict(Readings(ReadBy(o), rows), expected).value;
            && |out| == |rows| == expected
            && forall i :: 0 <= i < |rows| ==> Normalize(o, rows[i]) == Success(out[i])
  {
    var rs := Readings(ReadBy(o), rows);
    MapAt(ReadBy(o), rows);
    NoErrorsIff(rs);
    NormalizedOfOk(rs);
    forall i | 0 <= i < |rows| ensures Normalize(o, rows[i]) == Success(Normalized(rs)[i]) {
      assert rs[i].Ok();
      ReadNormalizes(o, rows[i]);
    }
  }

  // ----- which errors are reported -----

  function RowNumber(e: RosterError): nat {
    match e
    case WrongCount(_, _) => 0
    case MissingFields(n, _) => n
    case DuplicateId(n, _) => n
    case DuplicateAddress(n, _) => n
    case InvalidAddress(n, _) => n
    case RowProblem(n, _) => n
  }

  ghost predicate IdTaken(past: seq<Reading>, id: string) {
    exists j :: 0 <= j < |past| && past[j].Complete? && past[j].id == id
  }

  ghost predicate AddressTaken(past: seq<Reading>, address: string) {
    exists j :: 0 <= j < |past| && past[j].Complete? && past[j].address == address
  }

  /** What must be the case for an error to be reported of a row that follows others, kind by kind. */
  ghost predicate DeservedBy(past: seq<Reading>, r: Reading, e: RosterError) {
    match e
    case WrongCount(_, _) => false
    case MissingFields(_, fields) => r == Incomplete(fields)
    case DuplicateId(_, id) => r.Complete? && r.id == id && IdTaken(past, id)
    case DuplicateAddress(_, address) => r.Complete? && r.address == address && AddressTaken(past, address)
    case InvalidAddress(_, address) => r.Complete? && r.address == address && !r.addressOk
    case RowProblem(_, problem) =>
      && r.Complete?
      && (r.row == Failure(problem) || (r.row.Success? && !r.exportDateOk && problem == BadDate(SourceExportedAt)))
  }

  /** The row whose number the error carries deserves it. */
  ghost predicate Deserved(rs: seq<Reading>, e: RosterError) {
    var n := RowNumber(e);
    1 <= n <= |rs| && DeservedBy(rs[..n - 1], rs[n - 1], e)
  }

  lemma IdentityErrorIff(number: nat, r: Reading, idSeen: bool, addressSeen: bool, e: RosterError)
    requires r.Complete?
    ensures e in IdentityErrors(number, r, idSeen, addressSeen)
            <==> || (idSeen && e == DuplicateId(number, r.id))
                 || (addressSeen && e == DuplicateAddress(number, r.address))
                 || (!r.addressOk && e == InvalidAddress(number, r.address))
  {
  }

  lemma PlaceErrorIff(number: nat, r: Reading, e: RosterError)
    requires r.Complete?
    ensures e in PlaceErrors(number, r)
            <==> || (r.row.Failure? && e == RowProblem(number, r.row.error))
                 || (r.row.Success? && !r.exportDateOk && e == RowProblem(number, BadDate(SourceExportedAt)))
  {
  }

  lemma TakenIff(past: seq<Reading>, r: Reading)
    requires r.Complete?
    ensures r.id in SeenIds(past) <==> IdTaken(past, r.id)
    ensures r.address in SeenAddresses(past) <==> AddressTaken(past, r.address)
  {
    SeenAre(past, r.id);
    SeenAre(past, r.address);
  }

  lemma RowErrorIff(past: seq<Reading>, r: Reading, e: RosterError)
    ensures e in RowErrors(past, r) <==> RowNumber(e) == |past| + 1 && DeservedBy(past, r, e)
  {
    if r.Complete? {
      TakenIff(past, r);
      RowErrorsComplete(past, r);
      IdentityErrorIff(|past| + 1, r, r.id in SeenIds(past), r.address in SeenAddresses(past), e);
      PlaceErrorIff(|past| + 1, r, e);
    }
  }

  lemma DeservedPrefix(rs: seq<Reading>, n: nat, e: RosterError)
    requires n <= |rs| && RowNumber(e) <= n
    ensures Deserved(rs[..n], e) <==> Deserved(rs, e)
  {
    var k := RowNumber(e);
    if k > 0 {
      assert rs[..n][..k - 1] == rs[..k - 1] && rs[..n][k - 1] == rs[k - 1];
    }
  }

  lemma DeservedLast(rs: seq<Reading>, e: RosterError)
    requires rs != []
    ensures var n := |rs| - 1;
            Deserved(rs, e)
            <==> Deserved(rs[..n], e) || (RowNumber(e) == n + 1 && DeservedBy(rs[..n], rs[n], e))
  {
    var n := |rs| - 1;
    if RowNumber(e) <= n {
      DeservedPrefix(rs, n, e);
    }
  }

  lemma ErrorsMember(rs: seq<Reading>, e: RosterError)
    requires rs != []
    ensures var n := |rs| - 1;
            e in Errors(rs) <==> e in Errors(rs[..n]) || e in RowErrors(rs[..n], rs[n])
  {
  }

  /** Every error that is deserved is reported, with its row number, and no other one is. */
  lemma {:induction false} ReportedIff(rs: seq<Reading>, e: RosterError)
    ensures e in Errors(rs) <==> Deserved(rs, e)
  {
    if rs != [] {
      var n := |rs| - 1;
      ReportedIff(rs[..n], e);
      ErrorsMember(rs, e);
      RowErrorIff(rs[..n], rs[n], e);
      DeservedLast(rs, e);
    }
  }

  /** The same with the error about the number of rows, which comes first. */
  lemma AllReportedIff(rs: seq<Reading>, expected: int, e: RosterError)
    ensures e in AllErrors(rs, expected)
            <==> Deserved(rs, e) || (|rs| != expected && e == WrongCount(expected, |rs|))
    ensures |rs| != expected ==> AllErrors(rs, expected)[0] == WrongCount(expected, |rs|)
  {
    ReportedIff(rs, e);
  }

  /** The errors are reported row by row, from the first row to the last. */
  lemma {:induction false} ReportedInOrder(rs: seq<Reading>, i: nat, j: nat)
    requires i < j < |Errors(rs)|
    ensures 1 <= RowNumber(Errors(rs)[i]) <= RowNumber(Errors(rs)[j]) <= |rs|
  {
    var errors := Errors(rs);
    ReportedIff(rs, errors[i]);
    ReportedIff(rs, errors[j]);
    var n := |rs| - 1;
    var earlier, last := Errors(rs[..n]), RowErrors(rs[..n], rs[n]);
    if j < |earlier| {
      ReportedInOrder(rs[..n], i, j);
    } else {
      assert errors[j] in last;
      RowErrorIff(rs[..n], rs[n], errors[j]);
    }
  }

  lemma FilledReading(o: Readers, row: Row)
    requires Filled(row)
    ensures Read(o, row).Complete? && Read(o, row).row == Normalize(o, row)
    ensures Read(o, row).exportDateOk <==> !BadExportDate(o, row)
  {
    RequiredCellsIff(row);
  }

  predicate BadExportDate(o: Readers, row: Row) {
    Cell(row, SourceExportedAt) != "" && !ReadsAsDate(o, Cell(row, SourceExportedAt))
  }

  lemma DeservedProblem(rs: seq<Reading>, i: nat, problem: Problem)
    requires i < |rs| && rs[i].Complete?
    ensures Deserved(rs, RowProblem(i + 1, problem))
            <==> || rs[i].row == Failure(problem)
                 || (rs[i].row.Success? && !rs[i].exportDateOk && problem == BadDate(SourceExportedAt))
  {
  }

  /**
   The first thing wrong with the data of a filled row, kind by kind: the latitude, then the
   longitude, then the activation date, then the export date, if there is one.
   */
  ghost predicate FirstProblem(o: Readers, row: Row, problem: Problem) {
    var latitude, longitude := NumberIn(o, row, Latitude), NumberIn(o, row, Longitude);
    var northSouth := latitude.Some? && !Outside(latitude.value, -90.0, 90.0);
    var inRange := northSouth && longitude.Some? && !Outside(longitude.value, -180.0, 180.0);
    match problem
    case NotNumeric(f) => (f == Latitude && latitude.None?) || (f == Longitude && northSouth && longitude.None?)
    case OutOfRange(f, x) =>
      || (f == Latitude && latitude == Some(x) && Outside(x, -90.0, 90.0))
      || (f == Longitude && northSouth && longitude == Some(x) && Outside(x, -180.0, 180.0))
    case BadDate(f) =>
      && inRange
      && if ReadsAsDate(o, Cell(row, ActivationDate)) then f == SourceExportedAt && BadExportDate(o, row)
         else f == ActivationDate
  }

  /** Not a number between the bounds. */
  predicate Outside(x: Float, low: real, high: real) {
    x.NaN? || x.Infinite? || (x.Finite? && (x.value < low || high < x.value))
  }

  lemma FirstProblemIff(o: Readers, row: Row, problem: Problem)
    ensures FirstProblem(o, row, problem)
            <==> || Normalize(o, row) == Failure(problem)
                 || (Normalize(o, row).Success? && BadExportDate(o, row) && problem == BadDate(SourceExportedAt))
  {
    CoordinateIs(o, row, Latitude, -90.0, 90.0);
    CoordinateIs(o, row, Longitude, -180.0, 180.0);
  }

  /**
   A filled row is reported for its data exactly with the first thing wrong with them: a
   number that is none, a latitude beyond 90 degrees on either side, NaN or an infinity, a
   longitude likewise beyond 180, or a date that is none.
   */
  lemma ProblemReportedIff(o: Readers, rows: seq<Row>, i: nat, problem: Problem)
    requires i < |rows| && Filled(rows[i])
    ensures RowProblem(i + 1, problem) in Errors(Readings(ReadBy(o), rows)) <==> FirstProblem(o, rows[i], problem)
  {
    var rs := Readings(ReadBy(o), rows);
    MapAt(ReadBy(o), rows);
    ReportedIff(rs, RowProblem(i + 1, problem));
    FilledReading(o, rows[i]);
    DeservedProblem(rs, i, problem);
    FirstProblemIff(o, rows[i], problem);
  }

  // ----- accounting for duplicates -----

  function DuplicateIds(errors: seq<RosterError>): nat {
    if errors == [] then 0
    else DuplicateIds(errors[..|errors| - 1]) + (if errors[|errors| - 1].DuplicateId? then 1 else 0)
  }

  function CompleteRows(rs: seq<Reading>): nat {
    if rs == [] then 0 else CompleteRows(rs[..|rs| - 1]) + (if rs[|rs| - 1].Complete? then 1 else 0)
  }

  lemma {:induction false} DuplicateIdsAppend(a: seq<RosterError>, b: seq<RosterError>)
    ensures DuplicateIds(a + b) == DuplicateIds(a) + DuplicateIds(b)
  {
    if b == [] {
      assert a + b == a;
    } else {
      DuplicateIdsAppend(a, b[..|b| - 1]);
      assert (a + b)[..|a + b| - 1] == a + b[..|b| - 1];
    }
  }

  lemma RowDuplicateIds(past: seq<Reading>, r: Reading)
    ensures DuplicateIds(RowErrors(past, r)) == if r.Complete? && r.id in SeenIds(past) then 1 else 0
  {
    if r.Complete? {
      var number := |past| + 1;
      var idSeen, addressSeen := r.id in SeenIds(past), r.address in SeenAddresses(past);
      RowErrorsComplete(past, r);
      DuplicateIdsAppend(IdentityErrors(number, r, idSeen, addressSeen), PlaceErrors(number, r));
      IdentityDuplicateIds(number, r, idSeen, addressSeen);
    }
  }

  lemma IdentityDuplicateIds(number: nat, r: Reading, idSeen: bool, addressSeen: bool)
    requires r.Complete?
    ensures DuplicateIds(IdentityErrors(number, r, idSeen, addressSeen)) == if idSeen then 1 else 0
  {
    var a := if idSeen then [DuplicateId(number, r.id)] else [];
    var b := if addressSeen then [DuplicateAddress(number, r.address)] else [];
    var c := if !r.addressOk then [InvalidAddress(number, r.address)] else [];
    DuplicateIdsAppend(a + b, c);
    DuplicateIdsAppend(a, b);
  }

  /** Every row with all required fields either adds a new id or is reported as a duplicate. */
  lemma {:induction false} DuplicatesAccounted(rs: seq<Reading>)
    ensures |SeenIds(rs)| + DuplicateIds(Errors(rs)) == CompleteRows(rs)
  {
    if rs != [] {
      var past, r := rs[..|rs| - 1], rs[|rs| - 1];
      DuplicatesAccounted(past);
      DuplicateIdsAppend(Errors(past), RowErrors(past, r));
      RowDuplicateIds(past, r);
      if r.Complete? {
        SetGrows(SeenIds(past), r);
      }
    }
  }

  lemma SetGrows(ids: set<string>, r: Reading)
    requires r.Complete?
    ensures |ids + {r.id}| == |ids| + (if r.id in ids then 0 else 1)
  {
    if r.id in ids {
      assert ids + {r.id} == ids;
    }
  }
}
