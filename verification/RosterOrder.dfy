/**
 The order of the records in a roster (ssr/tools/validate_anchor_roster.py): whether it is
 accepted does not depend on it, and exactly when the exported sheet does not either.
 */
module RosterOrder {
  import opened Wrappers
  import opened Sorting
  import opened Grouping
  import opened RosterRow
  import opened Roster
  import opened ScorecardExport
  import opened RosterPipeline

  function CellBy(column: Column): Row -> string {
    (row: Row) => Cell(row, column)
  }

  function NormalizeBy(o: Readers): Row -> Result<NormalRow, Problem> {
    (row: Row) => Normalize(o, row)
  }

  function Succeeded(): NormalRow -> Result<NormalRow, Problem> {
    (n: NormalRow) => Success(n)
  }

  lemma DifferentTilesIff(rows: seq<Row>)
    ensures Distinct(Map(CellBy(AnchorTileId), rows)) && Distinct(Map(CellBy(W3wAddress), rows))
            <==> forall i, j :: 0 <= i < j < |rows| ==> DifferentTiles(rows[i], rows[j])
  {
    MapAt(CellBy(AnchorTileId), rows);
    MapAt(CellBy(W3wAddress), rows);
    if Distinct(Map(CellBy(AnchorTileId), rows)) && Distinct(Map(CellBy(W3wAddress), rows)) {
      forall i, j | 0 <= i < j < |rows| ensures DifferentTiles(rows[i], rows[j]) {
        assert Map(CellBy(AnchorTileId), rows)[i] != Map(CellBy(AnchorTileId), rows)[j];
        assert Map(CellBy(W3wAddress), rows)[i] != Map(CellBy(W3wAddress), rows)[j];
      }
    }
  }

  lemma PermutedTilesDiffer(rows: seq<Row>, p: seq<Row>)
    requires multiset(p) == multiset(rows)
    requires forall i, j :: 0 <= i < j < |rows| ==> DifferentTiles(rows[i], rows[j])
    ensures forall i, j :: 0 <= i < j < |p| ==> DifferentTiles(p[i], p[j])
  {
    DifferentTilesIff(rows);
    MapPermutation(CellBy(AnchorTileId), rows, p);
    MapPermutation(CellBy(W3wAddress), rows, p);
    PermutationDistinct(Map(CellBy(AnchorTileId), rows), Map(CellBy(AnchorTileId), p));
    PermutationDistinct(Map(CellBy(W3wAddress), rows), Map(CellBy(W3wAddress), p));
    DifferentTilesIff(p);
  }

  lemma PermutedAuthoritative(o: Readers, rows: seq<Row>, p: seq<Row>, expected: int)
    requires Authoritative(o, rows, expected) && multiset(p) == multiset(rows)
    ensures Authoritative(o, p, expected)
  {
    assert |multiset(p)| == |p| && |multiset(rows)| == |rows|;
    MultisetMembers(p, rows);
    PermutedTilesDiffer(rows, p);
    forall i | 0 <= i < |p| ensures Acceptable(o, p[i]) {
      assert p[i] in rows;
    }
  }

  /** The output of an accepted roster is the list of its normal forms. */
  lemma OutputIsNormalForms(o: Readers, rows: seq<Row>, expected: int, out: seq<NormalRow>)
    requires Verdict(Readings(ReadBy(o), rows), expected) == Success(out)
    ensures Map(NormalizeBy(o), rows) == Map(Succeeded(), out)
  {
    AcceptedRowsNormalized(o, rows, expected);
    MapAt(NormalizeBy(o), rows);
    MapAt(Succeeded(), out);
  }

  lemma SucceededDetermines(a: seq<NormalRow>, b: seq<NormalRow>)
    ensures Map(Succeeded(), a) == Map(Succeeded(), b) ==> a == b
  {
    MapAt(Succeeded(), a);
    MapAt(Succeeded(), b);
    if Map(Succeeded(), a) == Map(Succeeded(), b) {
      forall i | 0 <= i < |a| ensures a[i] == b[i] {
        assert Map(Succeeded(), a)[i] == Map(Succeeded(), b)[i];
      }
    }
  }

  /** A permutation whose image under `Succeeded` is a permutation is one itself. */
  lemma SucceededPermutation(a: seq<NormalRow>, b: seq<NormalRow>)
    requires multiset(Map(Succeeded(), a)) == multiset(Map(Succeeded(), b))
    ensures multiset(a) == multiset(b)
  {
    var p := LiftPermutation(Succeeded(), b, Map(Succeeded(), a));
    SucceededDetermines(p, a);
  }

  /** Any order of an accepted roster is accepted, and yields the same normal rows in some order. */
  lemma PermutedRosterAccepted(o: Readers, rows: seq<Row>, p: seq<Row>, expected: int, out: seq<NormalRow>)
    requires Verdict(Readings(ReadBy(o), rows), expected) == Success(out) && multiset(p) == multiset(rows)
    ensures var verdict := Verdict(Readings(ReadBy(o), p), expected);
            verdict.Success? && multiset(verdict.value) == multiset(out)
  {
    AcceptsIff(o, rows, expected);
    PermutedAuthoritative(o, rows, p, expected);
    AcceptsIff(o, p, expected);
    var q := Verdict(Readings(ReadBy(o), p), expected).value;
    OutputIsNormalForms(o, rows, expected, out);
    OutputIsNormalForms(o, p, expected, q);
    MapPermutation(NormalizeBy(o), p, rows);
    SucceededPermutation(q, out);
  }

  /** Every order of the normal rows comes from some order of the roster. */
  lemma OrderOfRows(o: Readers, rows: seq<Row>, expected: int, out: seq<NormalRow>, q: seq<NormalRow>)
    returns (p: seq<Row>)
    requires Verdict(Readings(ReadBy(o), rows), expected) == Success(out) && multiset(q) == multiset(out)
    ensures multiset(p) == multiset(rows) && Verdict(Readings(ReadBy(o), p), expected) == Success(q)
  {
    OutputIsNormalForms(o, rows, expected, out);
    MapPermutation(Succeeded(), q, out);
    p := LiftPermutation(NormalizeBy(o), rows, Map(Succeeded(), q));
    PermutedRosterAccepted(o, rows, p, expected, out);
    var got := Verdict(Readings(ReadBy(o), p), expected).value;
    OutputIsNormalForms(o, p, expected, got);
    SucceededDetermines(got, q);
  }

  /** The sheet exported from a roster in another order, if that is accepted, is this one. */
  ghost predicate ExportsAs(o: Readers, fold: Fold, rows: seq<Row>, expected: int, sheet: seq<SyncRow>) {
    var verdict := Verdict(Readings(ReadBy(o), rows), expected);
    verdict.Success? && BuildSyncRows(fold, verdict.value) == sheet
  }

  ghost predicate SameSheetForAllRosters(o: Readers, fold: Fold, rows: seq<Row>, expected: int, sheet: seq<SyncRow>) {
    forall p :: multiset(p) == multiset(rows) ==> ExportsAs(o, fold, p, expected, sheet)
  }

  lemma SameSheetTransfers(o: Readers, fold: Fold, rows: seq<Row>, expected: int, out: seq<NormalRow>)
    requires Verdict(Readings(ReadBy(o), rows), expected) == Success(out)
    ensures SameSheetForAllRosters(o, fold, rows, expected, BuildSyncRows(fold, out))
            <==> SameSheetForAllOrders(fold, out)
  {
    var sheet := BuildSyncRows(fold, out);
    if SameSheetForAllOrders(fold, out) {
      forall p | multiset(p) == multiset(rows) ensures ExportsAs(o, fold, p, expected, sheet) {
        PermutedRosterAccepted(o, rows, p, expected, out);
      }
    }
    if SameSheetForAllRosters(o, fold, rows, expected, sheet) {
      forall q | multiset(q) == multiset(out) ensures BuildSyncRows(fold, q) == sheet {
        var p := OrderOfRows(o, rows, expected, out, q);
        assert ExportsAs(o, fold, p, expected, sheet);
      }
    }
  }

  /**
   All orders of an accepted roster are exported as one and the same sheet exactly when the
   folded pairs of id and address are distinct.
   */
  lemma OrderIndependentRosterIff(o: Readers, fold: Fold, rows: seq<Row>, expected: int, out: seq<NormalRow>)
    requires Verdict(Readings(ReadBy(o), rows), expected) == Success(out)
    ensures SameSheetForAllRosters(o, fold, rows, expected, BuildSyncRows(fold, out))
            <==> FoldedKeysDistinct(fold, out)
  {
    SameSheetTransfers(o, fold, rows, expected, out);
    ValidatedRows(o, rows, expected, out);
    OrderIndependentSheetIff(fold, out);
  }
}
