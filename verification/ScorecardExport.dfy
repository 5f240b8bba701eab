/**
 The scorecard synchronization export (ssr/tools/export_scorecard_sync.py).  Case folding is
 a parameter.
 */
module ScorecardExport {
  import opened Text
  import opened Sequences
  import opened Sorting
  import opened Grouping
  import opened RosterAddress
  import opened RosterRow

  type Fold = string -> string

  datatype SyncRow = SyncRow(
    scorecardRow: nat,
    anchorTileId: string,
    canonicalAnchorAddress: string,
    w3wAddress: string,
    latitude: Float,
    longitude: Float,
    activationDate: string,
    status: string,
    sourceSystem: string,
    sourceRecordId: string)

  function CanonicalZ0(w3wAddress: string): string {
    w3wAddress + "@Z+0000"
  }

  /** The order of pairs of an id and an address: folded id first, folded address between equal ids. */
  predicate PairLeq(fold: Fold, a: (string, string), b: (string, string)) {
    if fold(a.0) != fold(b.0) then LexLeq(fold(a.0), fold(b.0)) else LexLeq(fold(a.1), fold(b.1))
  }

  /** The order of the sort keys. */
  predicate KeyLeq(fold: Fold, a: NormalRow, b: NormalRow) {
    PairLeq(fold, (a.anchorTileId, a.w3wAddress), (b.anchorTileId, b.w3wAddress))
  }

  function ByKey(fold: Fold): (NormalRow, NormalRow) -> bool {
    (a: NormalRow, b: NormalRow) => KeyLeq(fold, a, b)
  }

  function SyncRowFor(row: NormalRow, number: nat): SyncRow {
    SyncRow(number, row.anchorTileId, CanonicalZ0(row.w3wAddress), row.w3wAddress,
            row.latitude, row.longitude, row.activationDate, row.status, row.sourceSystem,
            if row.sourceRecordId.Some? then row.sourceRecordId.value else "")
  }

  function Number(rows: seq<NormalRow>, first: nat): seq<SyncRow> {
    if rows == [] then [] else [SyncRowFor(rows[0], first)] + Number(rows[1..], first + 1)
  }

  /** Row 1 of the sheet is its header, so the first record is row 2. */
  function BuildSyncRows(fold: Fold, rows: seq<NormalRow>): seq<SyncRow> {
    Number(Sort(ByKey(fold), rows), 2)
  }

  // ----- order and contents -----

  lemma KeyLeqTotal(fold: Fold, a: NormalRow, b: NormalRow)
    ensures KeyLeq(fold, a, b) || KeyLeq(fold, b, a)
  {
    LexTotal(fold(a.anchorTileId), fold(b.anchorTileId));
    LexTotal(fold(a.w3wAddress), fold(b.w3wAddress));
  }

  lemma KeyLeqTransitive(fold: Fold, a: NormalRow, b: NormalRow, c: NormalRow)
    requires KeyLeq(fold, a, b) && KeyLeq(fold, b, c)
    ensures KeyLeq(fold, a, c)
  {
    var x, y, z := fold(a.anchorTileId), fold(b.anchorTileId), fold(c.anchorTileId);
    if x != y && y != z {
      LexTransitive(x, y, z);
      if x == z {
        LexAntisymmetric(x, y);
      }
    } else if x == y == z {
      LexTransitive(fold(a.w3wAddress), fold(b.w3wAddress), fold(c.w3wAddress));
    }
  }

  lemma ByKeyPreorder(fold: Fold)
    ensures TotalPreorder(ByKey(fold))
  {
    forall a, b ensures ByKey(fold)(a, b) || ByKey(fold)(b, a) { KeyLeqTotal(fold, a, b); }
    forall a, b, c | ByKey(fold)(a, b) && ByKey(fold)(b, c) ensures ByKey(fold)(a, c) {
      KeyLeqTransitive(fold, a, b, c);
    }
  }

  lemma {:induction false} NumberAt(rows: seq<NormalRow>, first: nat)
    ensures |Number(rows, first)| == |rows|
    ensures forall i :: 0 <= i < |rows| ==> Number(rows, first)[i] == SyncRowFor(rows[i], first + i)
  {
    if rows != [] {
      NumberAt(rows[1..], first + 1);
    }
  }

  /** The records are numbered 2 to n + 1 and sorted by folded id and, between equal ones, by folded address. */
  lemma ExportIsSorted(fold: Fold, rows: seq<NormalRow>)
    ensures var out := BuildSyncRows(fold, rows);
            && |out| == |rows|
            && (forall i :: 0 <= i < |out| ==> out[i].scorecardRow == i + 2)
            && (forall i, j :: 0 <= i < j < |out| ==>
                  && LexLeq(fold(out[i].anchorTileId), fold(out[j].anchorTileId))
                  && (fold(out[i].anchorTileId) == fold(out[j].anchorTileId) ==>
                        LexLeq(fold(out[i].w3wAddress), fold(out[j].w3wAddress))))
  {
    var ordered := Sort(ByKey(fold), rows);
    ByKeyPreorder(fold);
    SortSorted(ByKey(fold), rows);
    SortPermutes(ByKey(fold), rows);
    NumberAt(ordered, 2);
    var out := BuildSyncRows(fold, rows);
    forall i, j | 0 <= i < j < |out|
      ensures LexLeq(fold(out[i].anchorTileId), fold(out[j].anchorTileId))
      ensures fold(out[i].anchorTileId) == fold(out[j].anchorTileId) ==>
                LexLeq(fold(out[i].w3wAddress), fold(out[j].w3wAddress))
    {
      assert ByKey(fold)(ordered[i], ordered[j]);
      KeyLeqIsLexicographic(fold, ordered[i], ordered[j]);
    }
  }

  lemma KeyLeqIsLexicographic(fold: Fold, a: NormalRow, b: NormalRow)
    requires KeyLeq(fold, a, b)
    ensures LexLeq(fold(a.anchorTileId), fold(b.anchorTileId))
    ensures fold(a.anchorTileId) == fold(b.anchorTileId) ==> LexLeq(fold(a.w3wAddress), fold(b.w3wAddress))
  {
    LexTotal(fold(a.anchorTileId), fold(b.anchorTileId));
  }

  predicate FoldedLeq(fold: Fold, a: string, b: string) {
    LexLeq(fold(a), fold(b))
  }

  function ByFolded(fold: Fold): (string, string) -> bool {
    (a: string, b: string) => FoldedLeq(fold, a, b)
  }

  lemma ByFoldedPreorder(fold: Fold)
    ensures TotalPreorder(ByFolded(fold))
  {
    forall a, b ensures ByFolded(fold)(a, b) || ByFolded(fold)(b, a) { LexTotal(fold(a), fold(b)); }
    forall a, b, c | ByFolded(fold)(a, b) && ByFolded(fold)(b, c) ensures ByFolded(fold)(a, c) {
      LexTransitive(fold(a), fold(b), fold(c));
    }
  }

  /** The id column of the sheet. */
  function IdColumn(fold: Fold, rows: seq<NormalRow>): seq<string> {
    Map(IdOf(), Sort(ByKey(fold), rows))
  }

  lemma IdColumnAt(fold: Fold, rows: seq<NormalRow>)
    ensures |IdColumn(fold, rows)| == |BuildSyncRows(fold, rows)|
    ensures forall i :: 0 <= i < |IdColumn(fold, rows)| ==>
              IdColumn(fold, rows)[i] == BuildSyncRows(fold, rows)[i].anchorTileId
  {
    MapAt(IdOf(), Sort(ByKey(fold), rows));
    NumberAt(Sort(ByKey(fold), rows), 2);
  }

  lemma IdColumnSorted(fold: Fold, rows: seq<NormalRow>)
    ensures Sorted(ByFolded(fold), IdColumn(fold, rows))
    ensures multiset(IdColumn(fold, rows)) == multiset(Map(IdOf(), rows))
  {
    IdColumnAt(fold, rows);
    ExportIsSorted(fold, rows);
    SortPermutes(ByKey(fold), rows);
    MapPermutation(IdOf(), Sort(ByKey(fold), rows), rows);
  }

  /** Different ids of the rows fold to different texts. */
  ghost predicate FoldedIdsDistinct(fold: Fold, rows: seq<NormalRow>) {
    forall a, b :: a in Map(IdOf(), rows) && b in Map(IdOf(), rows) && fold(a) == fold(b) ==> a == b
  }

  /**
   The addresses only break ties: when different ids fold to different texts, rosters with
   the same ids, whatever their addresses and their order, list them in the same order.
   */
  lemma IdColumnIgnoresAddresses(fold: Fold, rows: seq<NormalRow>, others: seq<NormalRow>)
    requires FoldedIdsDistinct(fold, rows) && multiset(Map(IdOf(), rows)) == multiset(Map(IdOf(), others))
    ensures var s, t := BuildSyncRows(fold, rows), BuildSyncRows(fold, others);
            |s| == |t| && forall i :: 0 <= i < |s| ==> s[i].anchorTileId == t[i].anchorTileId
  {
    var a, b := IdColumn(fold, rows), IdColumn(fold, others);
    IdColumnSorted(fold, rows);
    IdColumnSorted(fold, others);
    ByFoldedPreorder(fold);
    MultisetMembers(a, Map(IdOf(), rows));
    forall x, y | x in a && y in a && Tied(ByFolded(fold), x, y) ensures x == y {
      LexAntisymmetric(fold(x), fold(y));
    }
    OrderedUnique(ByFolded(fold), a, b);
    IdColumnAt(fold, rows);
    IdColumnAt(fold, others);
  }

  function Unnumbered(): SyncRow -> SyncRow {
    (s: SyncRow) => s.(scorecardRow := 0)
  }

  function Exported(): NormalRow -> SyncRow {
    (row: NormalRow) => SyncRowFor(row, 0)
  }

  lemma {:induction false} UnnumberedRows(rows: seq<NormalRow>, first: nat)
    ensures Map(Unnumbered(), Number(rows, first)) == Map(Exported(), rows)
  {
    if rows != [] {
      UnnumberedRows(rows[1..], first + 1);
      assert Number(rows, first)[1..] == Number(rows[1..], first + 1);
    }
  }

  /** Numbers aside, the sheet holds exactly one record for each row. */
  lemma ExportIsPermutation(fold: Fold, rows: seq<NormalRow>)
    ensures multiset(Map(Unnumbered(), BuildSyncRows(fold, rows))) == multiset(Map(Exported(), rows))
  {
    var ordered := Sort(ByKey(fold), rows);
    UnnumberedRows(ordered, 2);
    SortPermutes(ByKey(fold), rows);
    MapPermutation(Exported(), ordered, rows);
  }

  /** The record says of the row what the row says. */
  predicate Records(s: SyncRow, row: NormalRow) {
    && s.anchorTileId == row.anchorTileId && s.w3wAddress == row.w3wAddress
    && s.canonicalAnchorAddress == row.w3wAddress + "@Z+0000"
    && s.latitude == row.latitude && s.longitude == row.longitude
    && s.activationDate == row.activationDate && s.status == row.status
    && s.sourceSystem == row.sourceSystem
    && s.sourceRecordId == (if row.sourceRecordId.Some? then row.sourceRecordId.value else "")
  }

  lemma NumberRecords(rows: seq<NormalRow>, first: nat, i: nat)
    requires i < |rows|
    ensures |Number(rows, first)| == |rows| && Records(Number(rows, first)[i], rows[i])
  {
    NumberAt(rows, first);
    assert Records(SyncRowFor(rows[i], first + i), rows[i]);
  }

  predicate RecordsSome(s: SyncRow, rows: seq<NormalRow>) {
    exists k :: 0 <= k < |rows| && Records(s, rows[k])
  }

  predicate RecordedBySome(row: NormalRow, out: seq<SyncRow>) {
    exists k :: 0 <= k < |out| && Records(out[k], row)
  }

  lemma EveryRecordHasARow(fold: Fold, rows: seq<NormalRow>, i: nat)
    requires i < |BuildSyncRows(fold, rows)|
    ensures RecordsSome(BuildSyncRows(fold, rows)[i], rows)
  {
    var ordered := Sort(ByKey(fold), rows);
    SortPermutes(ByKey(fold), rows);
    NumberAt(ordered, 2);
    NumberRecords(ordered, 2, i);
    assert ordered[i] in multiset(ordered);
    var k :| 0 <= k < |rows| && rows[k] == ordered[i];
  }

  lemma EveryRowHasARecord(fold: Fold, rows: seq<NormalRow>, k: nat)
    requires k < |rows|
    ensures RecordedBySome(rows[k], BuildSyncRows(fold, rows))
  {
    var ordered := Sort(ByKey(fold), rows);
    SortPermutes(ByKey(fold), rows);
    assert rows[k] in multiset(rows);
    var i :| 0 <= i < |ordered| && ordered[i] == rows[k];
    NumberRecords(ordered, 2, i);
  }

  /** Every record is of some row, and every row has a record. */
  lemma ExportIsFaithful(fold: Fold, rows: seq<NormalRow>)
    ensures var out := BuildSyncRows(fold, rows);
            && (forall i :: 0 <= i < |out| ==> RecordsSome(out[i], rows))
            && (forall k :: 0 <= k < |rows| ==> RecordedBySome(rows[k], out))
  {
    var out := BuildSyncRows(fold, rows);
    forall i | 0 <= i < |out| ensures RecordsSome(out[i], rows) { EveryRecordHasARow(fold, rows, i); }
    forall k | 0 <= k < |rows| ensures RecordedBySome(rows[k], out) { EveryRowHasARecord(fold, rows, k); }
  }

  // ----- canonical addresses -----

  function AddressOf(): NormalRow -> string {
    (row: NormalRow) => row.w3wAddress
  }

  /** For rows with distinct addresses the canonical addresses are distinct. */
  lemma CanonicalAddressesDistinct(fold: Fold, rows: seq<NormalRow>, i: nat, j: nat)
    requires Distinct(Map(AddressOf(), rows))
    requires i < j < |BuildSyncRows(fold, rows)|
    ensures BuildSyncRows(fold, rows)[i].canonicalAnchorAddress != BuildSyncRows(fold, rows)[j].canonicalAnchorAddress
  {
    var ordered := Sort(ByKey(fold), rows);
    SortPermutes(ByKey(fold), rows);
    MapPermutation(AddressOf(), rows, ordered);
    PermutationDistinct(Map(AddressOf(), rows), Map(AddressOf(), ordered));
    MapAt(AddressOf(), ordered);
    NumberAt(ordered, 2);
    var a, b := ordered[i].w3wAddress, ordered[j].w3wAddress;
    assert a != b by {
      assert Map(AddressOf(), ordered)[i] != Map(AddressOf(), ordered)[j];
    }
    SuffixInjective(a, b);
  }

  lemma SuffixInjective(a: string, b: string)
    ensures CanonicalZ0(a) == CanonicalZ0(b) ==> a == b
  {
    var suffix := "@Z+0000";
    assert CanonicalZ0(a)[..|CanonicalZ0(a)| - |suffix|] == a;
    assert CanonicalZ0(b)[..|CanonicalZ0(b)| - |suffix|] == b;
  }

  /** No canonical address passes for a surface address. */
  lemma CanonicalIsNoSurfaceAddress(address: string)
    ensures !IsAddress(CanonicalZ0(address))
  {
    if IsAddress(CanonicalZ0(address)) {
      assert CanonicalZ0(address)[|address|] == '@';
      AddressCharacters(CanonicalZ0(address), |address|);
    }
  }

  // ----- order independence -----

  function IdOf(): NormalRow -> string {
    (row: NormalRow) => row.anchorTileId
  }

  /** No two different rows have the same folded id and the same folded address. */
  ghost predicate FoldedKeysDistinct(fold: Fold, rows: seq<NormalRow>) {
    forall x, y :: x in rows && y in rows && x != y ==>
      fold(x.anchorTileId) != fold(y.anchorTileId) || fold(x.w3wAddress) != fold(y.w3wAddress)
  }

  lemma TiedKeys(fold: Fold, x: NormalRow, y: NormalRow)
    ensures Tied(ByKey(fold), x, y)
            <==> fold(x.anchorTileId) == fold(y.anchorTileId) && fold(x.w3wAddress) == fold(y.w3wAddress)
  {
    var a, b := fold(x.anchorTileId), fold(y.anchorTileId);
    var c, d := fold(x.w3wAddress), fold(y.w3wAddress);
    LexTotal(c, c);
    if Tied(ByKey(fold), x, y) {
      if a != b {
        LexAntisymmetric(a, b);
      } else {
        LexAntisymmetric(c, d);
      }
    }
  }

  lemma FoldedKeysDistinctIff(fold: Fold, rows: seq<NormalRow>)
    ensures FoldedKeysDistinct(fold, rows) <==> TieFree(ByKey(fold), rows)
  {
    forall x, y ensures Tied(ByKey(fold), x, y)
                        <==> fold(x.anchorTileId) == fold(y.anchorTileId) && fold(x.w3wAddress) == fold(y.w3wAddress)
    {
      TiedKeys(fold, x, y);
    }
  }

  lemma IdDeterminesRow(rows: seq<NormalRow>, x: NormalRow, y: NormalRow)
    requires Distinct(Map(IdOf(), rows)) && x in rows && y in rows && x.anchorTileId == y.anchorTileId
    ensures x == y
  {
    MapAt(IdOf(), rows);
    var i :| 0 <= i < |rows| && rows[i] == x;
    var j :| 0 <= j < |rows| && rows[j] == y;
    assert Map(IdOf(), rows)[i] == Map(IdOf(), rows)[j];
    assert i == j || i < j || j < i;
  }

  /** With distinct ids, equal sheets come from equal orders of the rows. */
  lemma SheetDeterminesOrder(rows: seq<NormalRow>, p: seq<NormalRow>, q: seq<NormalRow>)
    requires Distinct(Map(IdOf(), rows))
    requires forall x :: x in p ==> x in rows
    requires forall x :: x in q ==> x in rows
    requires Number(p, 2) == Number(q, 2)
    ensures p == q
  {
    NumberAt(p, 2);
    NumberAt(q, 2);
    forall i | 0 <= i < |p| ensures p[i] == q[i] {
      assert SyncRowFor(p[i], 2 + i) == SyncRowFor(q[i], 2 + i);
      assert p[i] in p && q[i] in q;
      IdDeterminesRow(rows, p[i], q[i]);
    }
  }

  ghost predicate SameSheetForAllOrders(fold: Fold, rows: seq<NormalRow>) {
    forall p :: multiset(p) == multiset(rows) ==> BuildSyncRows(fold, p) == BuildSyncRows(fold, rows)
  }

  lemma SameSheetSameOrder(fold: Fold, rows: seq<NormalRow>, p: seq<NormalRow>)
    requires Distinct(Map(IdOf(), rows)) && multiset(p) == multiset(rows)
    requires BuildSyncRows(fold, p) == BuildSyncRows(fold, rows)
    ensures Sort(ByKey(fold), p) == Sort(ByKey(fold), rows)
  {
    SortPermutes(ByKey(fold), p);
    SortPermutes(ByKey(fold), rows);
    MultisetMembers(p, rows);
    SheetDeterminesOrder(rows, Sort(ByKey(fold), p), Sort(ByKey(fold), rows));
  }

  lemma OrderMatters(fold: Fold, rows: seq<NormalRow>, x: NormalRow, y: NormalRow)
    requires Distinct(Map(IdOf(), rows))
    requires x in rows && y in rows && x != y && Tied(ByKey(fold), x, y)
    ensures !SameSheetForAllOrders(fold, rows)
  {
    ByKeyPreorder(fold);
    var p, q := SortTieDiffers(ByKey(fold), rows, x, y);
    if SameSheetForAllOrders(fold, rows) {
      SameSheetSameOrder(fold, rows, p);
      SameSheetSameOrder(fold, rows, q);
    }
  }

  /**
   For rows with distinct ids the sheet is independent of the input order exactly when the
   folded pairs of id and address are distinct.
   */
  lemma OrderIndependentSheetIff(fold: Fold, rows: seq<NormalRow>)
    requires Distinct(Map(IdOf(), rows))
    ensures SameSheetForAllOrders(fold, rows) <==> FoldedKeysDistinct(fold, rows)
  {
    FoldedKeysDistinctIff(fold, rows);
    ByKeyPreorder(fold);
    if TieFree(ByKey(fold), rows) {
      forall p | multiset(p) == multiset(rows) ensures BuildSyncRows(fold, p) == BuildSyncRows(fold, rows) {
        SortCanonical(ByKey(fold), rows, p);
      }
    } else {
      var x, y :| x in rows && y in rows && Tied(ByKey(fold), x, y) && x != y;
      OrderMatters(fold, rows, x, y);
    }
  }

  function LowerChar(c: char): char {
    if 'A' <= c <= 'Z' then (c as int + 32) as char else c
  }

  /** ASCII lower case, one possible folding. */
  function Lower(s: string): string {
    if s == "" then "" else [LowerChar(s[0])] + Lower(s[1..])
  }

  lemma {:induction false} LowerAt(s: string)
    ensures |Lower(s)| == |s|
    ensures forall i :: 0 <= i < |s| ==> Lower(s)[i] == LowerChar(s[i])
  {
    if s != "" {
      LowerAt(s[1..]);
    }
  }

  lemma {:induction false} LowerAppend(a: string, b: string)
    ensures Lower(a + b) == Lower(a) + Lower(b)
  {
    if a == "" {
      assert a + b == b;
    } else {
      ConsAppend(a, b);
      LowerAppend(a[1..], b);
      Prepend(LowerChar(a[0]), Lower(a[1..]), Lower(b));
    }
  }
}
