/** The deterministic synthetic genesis split (setc/source_coin/testnet.py). */
module Testnet {
  import opened Arithmetic
  import opened Wrappers
  import opened Text
  import opened Sorting
  import opened TextOrder
  import opened Grouping

  datatype SplitError = NothingToAllocate | ConservationViolated

  /** The members of a list, each once: the contents of `set(participant_ids)`. */
  function Members(s: seq<string>): seq<string> {
    if s == [] then []
    else
      var ms := Members(s[..|s| - 1]);
      if s[|s| - 1] in ms then ms else ms + [s[|s| - 1]]
  }

  lemma {:induction false} MembersAre(s: seq<string>)
    ensures Distinct(Members(s))
    ensures forall x :: x in Members(s) <==> x in s
  {
    if s != [] {
      MembersAre(s[..|s| - 1]);
      assert s == s[..|s| - 1] + [s[|s| - 1]];
    }
  }

  function Ids(participants: seq<string>): seq<string> {
    Sort(CodePointOrder, Members(participants))
  }

  lemma IdsDistinct(participants: seq<string>)
    ensures forall x :: x in Ids(participants) <==> x in participants
    ensures Distinct(Ids(participants))
  {
    IdsAre(participants);
  }

  /** The ids are the participants, each once, in increasing order. */
  lemma IdsAre(participants: seq<string>)
    ensures forall x :: x in Ids(participants) <==> x in participants
    ensures var ids := Ids(participants);
            forall i, j :: 0 <= i < j < |ids| ==> ids[i] != ids[j] && LexLeq(ids[i], ids[j])
  {
    var ms := Members(participants);
    MembersAre(participants);
    SortPermutes(CodePointOrder, ms);
    CodePointOrderIsTotal(ms);
    SortSorted(CodePointOrder, ms);
    PermutationDistinct(ms, Ids(participants));
    var ids := Ids(participants);
    forall i, j | 0 <= i < j < |ids| ensures ids[i] != ids[j] && LexLeq(ids[i], ids[j]) {
      assert CodePointOrder(ids[i], ids[j]);
    }
  }

  /** Repetition and order of the input do not matter: only the set of participants does. */
  lemma IdsDependOnSet(p: seq<string>, q: seq<string>)
    requires forall x :: x in p <==> x in q
    ensures Ids(p) == Ids(q)
  {
    MembersAre(p);
    MembersAre(q);
    DistinctSameMembers(Members(p), Members(q));
    CodePointOrderIsTotal(Members(q));
    SortCanonical(CodePointOrder, Members(q), Members(p));
  }

  /** What the participant at one position is given. */
  function Amount(total: nat, n: nat, position: nat): nat
    requires n > 0
  {
    total / n + (if position < total % n then 1 else 0)
  }

  function IndexOf(ids: seq<string>, id: string): (i: nat)
    requires id in ids
    ensures i < |ids| && ids[i] == id
  {
    if ids[0] == id then 0 else 1 + IndexOf(ids[1..], id)
  }

  function Split(total: nat, ids: seq<string>): map<string, int>
    requires ids != []
  {
    map id | id in ids :: Amount(total, |ids|, IndexOf(ids, id))
  }

  lemma SplitAt(total: nat, ids: seq<string>, i: nat)
    requires Distinct(ids) && i < |ids|
    ensures ids[i] in Split(total, ids) && Split(total, ids)[ids[i]] == Amount(total, |ids|, i)
  {
    var j := IndexOf(ids, ids[i]);
    assert i < j || j < i || i == j;
  }

  /** `sum(allocation.values())`, in insertion order. */
  function SumValues(m: map<string, int>, ids: seq<string>): int
    requires forall id :: id in ids ==> id in m
  {
    if ids == [] then 0 else SumValues(m, ids[..|ids| - 1]) + m[ids[|ids| - 1]]
  }

  /** What the first `k` participants get together, at `base` each and one extra for the first `extra`. */
  function Handed(k: nat, base: nat, extra: nat): nat {
    k * base + (if k < extra then k else extra)
  }

  lemma HandedOneMore(k: nat, base: nat, extra: nat)
    ensures Handed(k + 1, base, extra) == Handed(k, base, extra) + base + (if k < extra then 1 else 0)
  {
    OneMore(k, base);
  }

  lemma HandedToAll(total: nat, n: nat)
    requires n > 0
    ensures Handed(n, total / n, total % n) == total
  {
  }

  lemma {:induction false} PrefixSum(m: map<string, int>, ids: seq<string>, base: nat, extra: nat, k: nat)
    requires k <= |ids| && forall id :: id in ids ==> id in m
    requires forall i :: 0 <= i < |ids| ==> m[ids[i]] == base + (if i < extra then 1 else 0)
    ensures SumValues(m, ids[..k]) == Handed(k, base, extra)
  {
    if k > 0 {
      PrefixSum(m, ids, base, extra, k - 1);
      SumValuesSnoc(m, ids, k - 1);
      HandedOneMore(k - 1, base, extra);
    }
  }

  lemma SumValuesSnoc(m: map<string, int>, ids: seq<string>, k: nat)
    requires k < |ids| && forall id :: id in ids ==> id in m
    ensures SumValues(m, ids[..k + 1]) == SumValues(m, ids[..k]) + m[ids[k]]
  {
    assert ids[..k + 1][..k] == ids[..k];
  }

  /** The split hands out exactly the total. */
  lemma SplitConserves(total: nat, ids: seq<string>)
    requires ids != [] && Distinct(ids)
    ensures SumValues(Split(total, ids), ids) == total
  {
    var base, extra := total / |ids|, total % |ids|;
    forall i | 0 <= i < |ids| ensures Split(total, ids)[ids[i]] == base + (if i < extra then 1 else 0) {
      SplitAt(total, ids, i);
    }
    PrefixSum(Split(total, ids), ids, base, extra, |ids|);
    assert ids[..|ids|] == ids;
    HandedToAll(total, |ids|);
  }

  // ----- the imperative computation -----

  method DeterministicSyntheticAllocation(total: int, participants: seq<string>)
    returns (r: Result<map<string, int>, SplitError>)
    ensures r.Failure? <==> total <= 0 || participants == []
    ensures r != Failure(ConservationViolated)
    ensures r.Success? ==> Ids(participants) != [] && r.value == Split(total, Ids(participants))
  {
    var ids := Ids(participants);
    IdsDistinct(participants);
    if total <= 0 || ids == [] {
      if participants != [] {
        assert participants[0] in ids;
      }
      return Failure(NothingToAllocate);
    }
    assert ids[0] in participants;
    var base, remainder := total / |ids|, total % |ids|;
    var allocation: map<string, int> := map id | id in ids :: base;
    for i := 0 to remainder
      invariant allocation.Keys == set id | id in ids
      invariant forall j :: 0 <= j < |ids| ==> allocation[ids[j]] == base + (if j < i then 1 else 0)
    {
      allocation := allocation[ids[i] := allocation[ids[i]] + 1];
    }
    SplitIsUnique(total, ids, allocation);
    SplitConserves(total, ids);
    var sum := SumAllocation(allocation, ids);
    if sum != total {
      return Failure(ConservationViolated);
    }
    return Success(allocation);
  }

  method SumAllocation(m: map<string, int>, ids: seq<string>) returns (sum: int)
    requires forall id :: id in ids ==> id in m
    ensures sum == SumValues(m, ids)
  {
    sum := 0;
    for i := 0 to |ids|
      invariant sum == SumValues(m, ids[..i])
    {
      assert ids[..i + 1][..i] == ids[..i];
      sum := sum + m[ids[i]];
    }
    assert ids[..|ids|] == ids;
  }

  lemma SplitIsUnique(total: nat, ids: seq<string>, m: map<string, int>)
    requires ids != [] && Distinct(ids)
    requires m.Keys == set id | id in ids
    requires forall j :: 0 <= j < |ids| ==> m[ids[j]] == Amount(total, |ids|, j)
    ensures m == Split(total, ids)
  {
    forall id | id in ids ensures m[id] == Split(total, ids)[id] {
      assert ids[IndexOf(ids, id)] == id;
    }
  }

  // ----- fairness -----

  function Extras(total: nat, ids: seq<string>): set<string>
    requires ids != []
  {
    set id | id in ids && Split(total, ids)[id] == total / |ids| + 1
  }

  function ToSet(ids: seq<string>): set<string> {
    set id | id in ids
  }

  /** A list without repetitions has as many members as entries. */
  lemma {:induction false} SetSize(ids: seq<string>)
    requires Distinct(ids)
    ensures |ToSet(ids)| == |ids|
  {
    if ids != [] {
      var n := |ids| - 1;
      SetSize(ids[..n]);
      assert ids == ids[..n] + [ids[n]];
      assert ToSet(ids) == ToSet(ids[..n]) + {ids[n]};
    }
  }

  /**
   Everyone gets the base amount, and exactly `total mod n` participants, the first ones in
   order, get one more.
   */
  lemma SplitIsFair(total: nat, ids: seq<string>)
    requires ids != [] && Distinct(ids)
    ensures forall id :: id in ids ==> 0 <= Split(total, ids)[id] - total / |ids| <= 1
    ensures |Extras(total, ids)| == total % |ids|
    ensures forall i, j :: 0 <= i < j < |ids| ==> Split(total, ids)[ids[i]] >= Split(total, ids)[ids[j]]
  {
    var r := total % |ids|;
    forall id ensures id in Extras(total, ids) <==> id in ids[..r] {
      ExtraIff(total, ids, id);
    }
    SetSize(ids[..r]);
    assert Extras(total, ids) == ToSet(ids[..r]);
    forall i, j | 0 <= i < j < |ids| ensures Split(total, ids)[ids[i]] >= Split(total, ids)[ids[j]] {
      SplitAt(total, ids, i);
      SplitAt(total, ids, j);
    }
  }

  lemma ExtraIff(total: nat, ids: seq<string>, id: string)
    requires ids != [] && Distinct(ids)
    ensures id in Extras(total, ids) <==> id in ids[..total % |ids|]
  {
    var r := total % |ids|;
    if id in ids {
      var i := IndexOf(ids, id);
      if i < r {
        assert ids[..r][i] == id;
      }
    }
  }

  lemma DivModStep(total: nat, n: nat)
    requires n > 0
    ensures total % n + 1 < n ==> (total + 1) / n == total / n && (total + 1) % n == total % n + 1
    ensures total % n + 1 == n ==> (total + 1) / n == total / n + 1 && (total + 1) % n == 0
  {
    var b, r := total / n, total % n;
    if r + 1 < n {
      DivModUnique(total + 1, n, b, r + 1);
    } else {
      OneMore(b, n);
      DivModUnique(total + 1, n, b + 1, 0);
    }
  }

  lemma DivModUnique(t: nat, n: nat, b: nat, r: nat)
    requires n > 0 && r < n && t == b * n + r
    ensures t / n == b && t % n == r
  {
    var b', r' := t / n, t % n;
    assert t == b' * n + r';
    if b > b' {
      OneMore(b', n);
    } else if b < b' {
      OneMore(b, n);
    }
  }

  /** One more unit of total goes to the participant at sorted position `total mod n`, and to nobody else. */
  lemma SplitIncrement(total: nat, ids: seq<string>)
    requires ids != [] && Distinct(ids)
    ensures var lucky := ids[total % |ids|];
            Split(total + 1, ids) == Split(total, ids)[lucky := Split(total, ids)[lucky] + 1]
  {
    var n := |ids|;
    var p := total % n;
    SplitAt(total, ids, p);
    DivModStep(total, n);
    forall id | id in ids
      ensures Split(total + 1, ids)[id] == Split(total, ids)[id] + (if id == ids[p] then 1 else 0)
    {
      var i := IndexOf(ids, id);
      SplitAt(total, ids, i);
      SplitAt(total + 1, ids, i);
      assert id == ids[p] <==> i == p;
    }
  }
}
