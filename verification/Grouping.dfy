/**
 What a dictionary of running totals holds: for every key, the sum over the items that
 carry it.  `Keys` lists the keys in insertion order, as a Python dict iterates.
 */
module Grouping {
  import opened Sums

  ghost predicate Distinct<T>(s: seq<T>) {
    forall i, j :: 0 <= i < j < |s| ==> s[i] != s[j]
  }

  function ShareOf<T>(key: T -> string, value: T -> real, k: string): T -> real {
    (x: T) => if key(x) == k then value(x) else 0.0
  }

  /** Rescans all items for the total of one key. */
  function GroupTotal<T>(key: T -> string, value: T -> real, items: seq<T>, k: string): real {
    SumBy(ShareOf(key, value, k), items)
  }

  function TotalOf<T>(key: T -> string, value: T -> real, items: seq<T>): string -> real {
    (k: string) => GroupTotal(key, value, items, k)
  }

  function Keys<T>(key: T -> string, items: seq<T>): seq<string> {
    if items == [] then []
    else
      var n := |items| - 1;
      var ks := Keys(key, items[..n]);
      if key(items[n]) in ks then ks else ks + [key(items[n])]
  }

  /** The key of every item is listed, and no key is listed twice. */
  lemma {:induction false} KeysAre<T>(key: T -> string, items: seq<T>)
    ensures forall x :: x in items ==> key(x) in Keys(key, items)
    ensures Distinct(Keys(key, items))
  {
    if items != [] {
      var n := |items| - 1;
      KeysAre(key, items[..n]);
      assert items == items[..n] + [items[n]];
    }
  }

  /** Every listed key is the key of some item. */
  lemma {:induction false} KeyHolder<T>(key: T -> string, items: seq<T>, k: string) returns (x: T)
    requires k in Keys(key, items)
    ensures x in items && key(x) == k
  {
    var n := |items| - 1;
    if key(items[n]) == k {
      x := items[n];
    } else {
      x := KeyHolder(key, items[..n], k);
      assert items == items[..n] + [items[n]];
    }
  }

  lemma {:induction false} AbsentKey<T>(key: T -> string, value: T -> real, items: seq<T>, k: string)
    requires forall x :: x in items ==> key(x) != k
    ensures GroupTotal(key, value, items, k) == 0.0
  {
    SumZero(ShareOf(key, value, k), items);
  }

  lemma {:induction false} SumSingle(ks: seq<string>, f: string -> real, k: string)
    requires Distinct(ks) && k in ks
    requires forall j :: j in ks && j != k ==> f(j) == 0.0
    ensures SumBy(f, ks) == f(k)
  {
    var n := |ks| - 1;
    assert ks == ks[..n] + [ks[n]];
    if ks[n] == k {
      forall j | j in ks[..n] ensures f(j) == 0.0 {
        assert j != k;
      }
      SumZero(f, ks[..n]);
    } else {
      SumSingle(ks[..n], f, k);
    }
  }

  /** Regrouping loses nothing: the group totals sum to the sum of all items. */
  lemma {:induction false} RegroupConserves<T>(key: T -> string, value: T -> real, items: seq<T>, ks: seq<string>)
    requires Distinct(ks)
    requires forall x :: x in items ==> key(x) in ks
    ensures SumBy(TotalOf(key, value, items), ks) == SumBy(value, items)
  {
    if items == [] {
      SumZero(TotalOf(key, value, items), ks);
    } else {
      var n := |items| - 1;
      var last := items[n];
      assert items == items[..n] + [last];
      RegroupConserves(key, value, items[..n], ks);
      var one := (k: string) => if key(last) == k then value(last) else 0.0;
      SumSingle(ks, one, key(last));
      SumAdd(TotalOf(key, value, items[..n]), one, TotalOf(key, value, items), ks);
    }
  }

  /** Two duplicate-free lists of the same members are permutations of each other. */
  lemma DistinctSameMembers<T>(a: seq<T>, b: seq<T>)
    requires Distinct(a) && Distinct(b)
    requires forall x :: x in a <==> x in b
    ensures multiset(a) == multiset(b)
  {
    DistinctOnce(a);
    DistinctOnce(b);
    forall x ensures multiset(a)[x] == multiset(b)[x] {
      assert x in a <==> x in multiset(a);
      assert x in b <==> x in multiset(b);
    }
  }

  lemma {:induction false} DistinctOnce<T>(a: seq<T>)
    requires Distinct(a)
    ensures forall x :: multiset(a)[x] <= 1
  {
    if a != [] {
      var n := |a| - 1;
      assert a == a[..n] + [a[n]];
      DistinctOnce(a[..n]);
      assert a[n] !in a[..n];
      assert a[n] !in multiset(a[..n]);
    }
  }

  lemma RepeatCounted<T>(b: seq<T>, i: nat, j: nat)
    requires i < j < |b| && b[i] == b[j]
    ensures multiset(b)[b[i]] >= 2
  {
    assert b == b[..i] + [b[i]] + b[i + 1..];
    assert b[j] == b[i + 1..][j - i - 1];
    assert b[j] in multiset(b[i + 1..]);
  }

  /** A permutation of a duplicate-free list is duplicate-free. */
  lemma PermutationDistinct<T>(a: seq<T>, b: seq<T>)
    requires Distinct(a) && multiset(a) == multiset(b)
    ensures Distinct(b)
  {
    DistinctOnce(a);
    if !Distinct(b) {
      var i, j :| 0 <= i < j < |b| && b[i] == b[j];
      RepeatCounted(b, i, j);
    }
  }

  /** Neither the keys nor their totals depend on the order of the items. */
  lemma GroupPermutation<T>(key: T -> string, value: T -> real, a: seq<T>, b: seq<T>)
    requires multiset(a) == multiset(b)
    ensures multiset(Keys(key, a)) == multiset(Keys(key, b))
    ensures forall k :: GroupTotal(key, value, a, k) == GroupTotal(key, value, b, k)
  {
    KeysAre(key, a);
    KeysAre(key, b);
    forall x ensures x in a <==> x in b {
      assert x in a <==> x in multiset(a);
      assert x in b <==> x in multiset(b);
    }
    forall k ensures k in Keys(key, a) <==> k in Keys(key, b) {
      if k in Keys(key, a) {
        var x := KeyHolder(key, a, k);
        assert x in b;
      }
      if k in Keys(key, b) {
        var x := KeyHolder(key, b, k);
        assert x in a;
      }
    }
    DistinctSameMembers(Keys(key, a), Keys(key, b));
    forall k ensures GroupTotal(key, value, a, k) == GroupTotal(key, value, b, k) {
      SumPermutation(ShareOf(key, value, k), a, b);
    }
  }
}
