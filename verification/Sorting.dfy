/**
 Python's `sorted`: the stable sort by a total preorder on keys.  Any stable sorting
 algorithm computes this function (`StableSortUnique`), so the insertion sort below
 stands for the library's own.
 */
module Sorting {

  ghost predicate TotalPreorder<T(!new)>(leq: (T, T) -> bool) {
    && (forall x, y :: leq(x, y) || leq(y, x))
    && (forall x, y, z :: leq(x, y) && leq(y, z) ==> leq(x, z))
  }

  ghost predicate Sorted<T>(leq: (T, T) -> bool, s: seq<T>) {
    forall i, j :: 0 <= i < j < |s| ==> leq(s[i], s[j])
  }

  /** Inserts `x` in front of the first element it does not exceed. */
  function Insert<T>(leq: (T, T) -> bool, x: T, s: seq<T>): seq<T> {
    if s == [] || leq(x, s[0]) then [x] + s else [s[0]] + Insert(leq, x, s[1..])
  }

  function Sort<T>(leq: (T, T) -> bool, s: seq<T>): seq<T> {
    if s == [] then [] else Insert(leq, s[0], Sort(leq, s[1..]))
  }

  lemma {:induction false} InsertPermutes<T>(leq: (T, T) -> bool, x: T, s: seq<T>)
    ensures multiset(Insert(leq, x, s)) == multiset{x} + multiset(s)
  {
    if s == [] || leq(x, s[0]) {
    } else {
      InsertPermutes(leq, x, s[1..]);
      assert s == [s[0]] + s[1..];
    }
  }

  /** Sorting loses and invents nothing. */
  lemma {:induction false} SortPermutes<T>(leq: (T, T) -> bool, s: seq<T>)
    ensures multiset(Sort(leq, s)) == multiset(s)
    ensures |Sort(leq, s)| == |s|
    ensures forall x :: x in Sort(leq, s) <==> x in s
  {
    if s != [] {
      SortPermutes(leq, s[1..]);
      InsertPermutes(leq, s[0], Sort(leq, s[1..]));
      assert s == [s[0]] + s[1..];
    }
    assert |multiset(Sort(leq, s))| == |multiset(s)|;
    MultisetMembers(Sort(leq, s), s);
  }

  lemma MultisetMembers<T>(a: seq<T>, b: seq<T>)
    requires multiset(a) == multiset(b)
    ensures forall x :: x in a <==> x in b
  {
    forall x ensures x in a <==> x in b {
      assert x in a <==> x in multiset(a);
      assert x in b <==> x in multiset(b);
    }
  }

  lemma {:induction false} InsertSorted<T(!new)>(leq: (T, T) -> bool, x: T, s: seq<T>)
    requires TotalPreorder(leq) && Sorted(leq, s)
    ensures Sorted(leq, Insert(leq, x, s))
  {
    if s == [] {
    } else if leq(x, s[0]) {
      forall j | 0 <= j < |s| ensures leq(x, s[j]) {
        assert leq(s[0], s[0]);
      }
    } else {
      var t := Insert(leq, x, s[1..]);
      InsertSorted(leq, x, s[1..]);
      InsertPermutes(leq, x, s[1..]);
      forall j | 0 <= j < |t| ensures leq(s[0], t[j]) {
        assert t[j] in multiset(t);
        assert t[j] == x || t[j] in s[1..];
      }
    }
  }

  /** The result is in order. */
  lemma {:induction false} SortSorted<T(!new)>(leq: (T, T) -> bool, s: seq<T>)
    requires TotalPreorder(leq)
    ensures Sorted(leq, Sort(leq, s))
  {
    if s != [] {
      SortSorted(leq, s[1..]);
      InsertSorted(leq, s[0], Sort(leq, s[1..]));
    }
  }

  predicate Tied<T>(leq: (T, T) -> bool, x: T, y: T) {
    leq(x, y) && leq(y, x)
  }

  /** The elements of `s` whose key ties with that of `x`, in order. */
  function TiedWith<T>(leq: (T, T) -> bool, x: T, s: seq<T>): seq<T> {
    if s == [] then []
    else (if Tied(leq, x, s[0]) then [s[0]] else []) + TiedWith(leq, x, s[1..])
  }

  lemma {:induction false} TiedWithInsert<T(!new)>(leq: (T, T) -> bool, x: T, y: T, s: seq<T>)
    requires TotalPreorder(leq)
    ensures TiedWith(leq, x, Insert(leq, y, s)) == TiedWith(leq, x, [y] + s)
  {
    if s == [] || leq(y, s[0]) {
    } else {
      var t := Insert(leq, y, s[1..]);
      TiedWithInsert(leq, x, y, s[1..]);
    }
  }

  /** Elements with tied keys keep their relative order. */
  lemma {:induction false} SortStable<T(!new)>(leq: (T, T) -> bool, x: T, s: seq<T>)
    requires TotalPreorder(leq)
    ensures TiedWith(leq, x, Sort(leq, s)) == TiedWith(leq, x, s)
  {
    if s != [] {
      SortStable(leq, x, s[1..]);
      TiedWithInsert(leq, x, s[0], Sort(leq, s[1..]));
      assert ([s[0]] + Sort(leq, s[1..]))[1..] == Sort(leq, s[1..]);
    }
  }

  lemma HeadOfSorted<T(!new)>(leq: (T, T) -> bool, a: seq<T>, b: seq<T>)
    requires TotalPreorder(leq) && Sorted(leq, a) && Sorted(leq, b)
    requires a != [] && b != [] && multiset(a) == multiset(b)
    ensures Tied(leq, a[0], b[0])
  {
    MultisetMembers(a, b);
    assert a[0] in b && b[0] in a;
    assert leq(a[0], a[0]) && leq(b[0], b[0]);
  }

  lemma MultisetTail<T>(a: seq<T>, b: seq<T>)
    requires a != [] && b != [] && a[0] == b[0] && multiset(a) == multiset(b)
    ensures multiset(a[1..]) == multiset(b[1..])
  {
    assert a == [a[0]] + a[1..] && b == [b[0]] + b[1..];
    assert multiset(a[1..]) == multiset(a) - multiset{a[0]};
    assert multiset(b[1..]) == multiset(b) - multiset{b[0]};
  }

  /** Ordered and stable with respect to `s` leaves one possible result. */
  lemma {:induction false} OrderedStableUnique<T(!new)>(leq: (T, T) -> bool, a: seq<T>, b: seq<T>)
    requires TotalPreorder(leq) && Sorted(leq, a) && Sorted(leq, b)
    requires multiset(a) == multiset(b)
    requires forall x :: TiedWith(leq, x, a) == TiedWith(leq, x, b)
    ensures a == b
  {
    if a == [] {
      assert |multiset(b)| == 0;
    } else {
      assert b != [] by { assert |multiset(a)| == |a|; }
      HeadOfSorted(leq, a, b);
      var x := a[0];
      assert leq(x, x);
      assert TiedWith(leq, x, a)[0] == a[0];
      assert TiedWith(leq, x, b)[0] == b[0];
      MultisetTail(a, b);
      forall y ensures TiedWith(leq, y, a[1..]) == TiedWith(leq, y, b[1..]) {
        assert TiedWith(leq, y, a) == TiedWith(leq, y, b);
        var h := if Tied(leq, y, a[0]) then [a[0]] else [];
        assert TiedWith(leq, y, a) == h + TiedWith(leq, y, a[1..]);
        assert TiedWith(leq, y, b) == h + TiedWith(leq, y, b[1..]);
        assert TiedWith(leq, y, a[1..]) == TiedWith(leq, y, a)[|h|..];
        assert TiedWith(leq, y, b[1..]) == TiedWith(leq, y, b)[|h|..];
      }
      OrderedStableUnique(leq, a[1..], b[1..]);
      assert a == [a[0]] + a[1..] && b == [b[0]] + b[1..];
    }
  }

  /** Every stable sort of `s` by `leq` returns `Sort(leq, s)`. */
  lemma StableSortUnique<T(!new)>(leq: (T, T) -> bool, s: seq<T>, r: seq<T>)
    requires TotalPreorder(leq) && Sorted(leq, r) && multiset(r) == multiset(s)
    requires forall x :: TiedWith(leq, x, r) == TiedWith(leq, x, s)
    ensures r == Sort(leq, s)
  {
    SortSorted(leq, s);
    SortPermutes(leq, s);
    forall x ensures TiedWith(leq, x, r) == TiedWith(leq, x, Sort(leq, s)) {
      SortStable(leq, x, s);
    }
    OrderedStableUnique(leq, r, Sort(leq, s));
  }

  /** No two different elements of `s` tie. */
  ghost predicate TieFree<T>(leq: (T, T) -> bool, s: seq<T>) {
    forall x, y :: x in s && y in s && Tied(leq, x, y) ==> x == y
  }

  lemma {:induction false} OrderedUnique<T(!new)>(leq: (T, T) -> bool, a: seq<T>, b: seq<T>)
    requires TotalPreorder(leq) && Sorted(leq, a) && Sorted(leq, b)
    requires multiset(a) == multiset(b) && TieFree(leq, a)
    ensures a == b
  {
    if a == [] {
      assert |multiset(b)| == 0;
    } else {
      assert b != [] by { assert |multiset(a)| == |a|; }
      HeadOfSorted(leq, a, b);
      MultisetMembers(a, b);
      assert b[0] in a;
      MultisetTail(a, b);
      OrderedUnique(leq, a[1..], b[1..]);
      assert a == [a[0]] + a[1..] && b == [b[0]] + b[1..];
    }
  }

  /** Without ties, sorting forgets the input order. */
  lemma SortCanonical<T(!new)>(leq: (T, T) -> bool, s: seq<T>, p: seq<T>)
    requires TotalPreorder(leq) && TieFree(leq, s)
    requires multiset(p) == multiset(s)
    ensures Sort(leq, p) == Sort(leq, s)
  {
    SortSorted(leq, s);
    SortSorted(leq, p);
    SortPermutes(leq, s);
    SortPermutes(leq, p);
    OrderedUnique(leq, Sort(leq, s), Sort(leq, p));
  }

  lemma RemoveAt<T>(s: seq<T>, i: nat)
    requires i < |s|
    ensures multiset(s) == multiset{s[i]} + multiset(s[..i] + s[i + 1..])
  {
    assert s == s[..i] + [s[i]] + s[i + 1..];
  }

  lemma RemoveHead<T>(s: seq<T>)
    requires s != []
    ensures multiset(s) == multiset{s[0]} + multiset(s[1..])
  {
    assert s == [s[0]] + s[1..];
  }

  /** Takes the head of one permutation out of the other. */
  lemma PermutationStep<T>(a: seq<T>, b: seq<T>) returns (i: nat)
    requires a != [] && multiset(a) == multiset(b)
    ensures i < |b| && b[i] == a[0]
    ensures multiset(a[1..]) == multiset(b[..i] + b[i + 1..])
  {
    assert a[0] in multiset(b);
    i :| 0 <= i < |b| && b[i] == a[0];
    RemoveHead(a);
    RemoveAt(b, i);
    CancelOne(a[0], multiset(a[1..]), multiset(b[..i] + b[i + 1..]));
  }

  lemma CancelOne<T>(x: T, p: multiset<T>, q: multiset<T>)
    requires multiset{x} + p == multiset{x} + q
    ensures p == q
  {
    assert p == (multiset{x} + p) - multiset{x};
    assert q == (multiset{x} + q) - multiset{x};
  }

  /** Moves two different members to the front. */
  lemma PairToFront<T>(s: seq<T>, x: T, y: T) returns (rest: seq<T>)
    requires x in s && y in s && x != y
    ensures multiset([x, y] + rest) == multiset(s)
    ensures multiset([y, x] + rest) == multiset(s)
  {
    var i :| 0 <= i < |s| && s[i] == x;
    var t := s[..i] + s[i + 1..];
    RemoveAt(s, i);
    assert y in multiset(s) && y in multiset(t);
    var j :| 0 <= j < |t| && t[j] == y;
    rest := t[..j] + t[j + 1..];
    RemoveAt(t, j);
    assert multiset([x, y]) == multiset{x, y} && multiset([y, x]) == multiset{x, y};
  }

  /** With a tie between different elements, two orders of the same input sort differently. */
  lemma SortTieDiffers<T(!new)>(leq: (T, T) -> bool, s: seq<T>, x: T, y: T) returns (p: seq<T>, q: seq<T>)
    requires TotalPreorder(leq)
    requires x in s && y in s && x != y && Tied(leq, x, y)
    ensures multiset(p) == multiset(s) && multiset(q) == multiset(s)
    ensures Sort(leq, p) != Sort(leq, q)
  {
    var rest := PairToFront(s, x, y);
    p, q := [x, y] + rest, [y, x] + rest;
    SortStable(leq, x, p);
    SortStable(leq, x, q);
    assert leq(x, x);
    assert TiedWith(leq, x, p)[0] == x;
    assert TiedWith(leq, x, q)[0] == y;
  }

  /** Sorting is independent of the input order exactly when no two different elements tie. */
  lemma OrderIndependentIff<T(!new)>(leq: (T, T) -> bool, s: seq<T>)
    requires TotalPreorder(leq)
    ensures (forall p :: multiset(p) == multiset(s) ==> Sort(leq, p) == Sort(leq, s)) <==> TieFree(leq, s)
  {
    if TieFree(leq, s) {
      forall p | multiset(p) == multiset(s) ensures Sort(leq, p) == Sort(leq, s) {
        SortCanonical(leq, s, p);
      }
    } else {
      var x, y :| x in s && y in s && Tied(leq, x, y) && x != y;
      var p, q := SortTieDiffers(leq, s, x, y);
      assert Sort(leq, p) != Sort(leq, s) || Sort(leq, q) != Sort(leq, s);
    }
  }

  // ----- mapping -----

  function Map<T, U>(f: T -> U, s: seq<T>): seq<U> {
    if s == [] then [] else [f(s[0])] + Map(f, s[1..])
  }

  lemma {:induction false} MapAt<T, U>(f: T -> U, s: seq<T>)
    ensures |Map(f, s)| == |s|
    ensures forall i :: 0 <= i < |s| ==> Map(f, s)[i] == f(s[i])
  {
    if s != [] {
      MapAt(f, s[1..]);
    }
  }

  /** Only the elements of `Map(f, s)` are images of elements of `s`. */
  lemma {:induction false} MapMember<T, U>(f: T -> U, s: seq<T>, y: U) returns (x: T)
    requires y in Map(f, s)
    ensures x in s && f(x) == y
  {
    MapAt(f, s);
    var i :| 0 <= i < |s| && Map(f, s)[i] == y;
    x := s[i];
  }

  lemma {:induction false} MapRemove<T, U>(f: T -> U, s: seq<T>, i: nat)
    requires i < |s|
    ensures multiset(Map(f, s)) == multiset{f(s[i])} + multiset(Map(f, s[..i] + s[i + 1..]))
  {
    MapAt(f, s);
    MapAt(f, s[..i] + s[i + 1..]);
    RemoveAt(Map(f, s), i);
    assert Map(f, s)[..i] + Map(f, s)[i + 1..] == Map(f, s[..i] + s[i + 1..]);
  }

  /** The image of a permutation is a permutation of the image. */
  lemma {:induction false} MapPermutation<T, U>(f: T -> U, a: seq<T>, b: seq<T>)
    requires multiset(a) == multiset(b)
    ensures multiset(Map(f, a)) == multiset(Map(f, b))
    decreases |a|
  {
    if a == [] {
      assert |multiset(b)| == 0;
    } else {
      var i := PermutationStep(a, b);
      MapPermutation(f, a[1..], b[..i] + b[i + 1..]);
      MapRemove(f, b, i);
    }
  }

  lemma EmptyImage<T, U>(f: T -> U, s: seq<T>)
    requires multiset(Map(f, s)) == multiset([])
    ensures s == []
  {
    MapAt(f, s);
    assert |multiset(Map(f, s))| == 0;
  }

  /** Takes the head of a permuted image out of the image. */
  lemma HeadOfImage<T, U>(f: T -> U, s: seq<T>, q: seq<U>) returns (i: nat)
    requires q != [] && multiset(q) == multiset(Map(f, s))
    ensures i < |s| && f(s[i]) == q[0]
    ensures multiset(q[1..]) == multiset(Map(f, s[..i] + s[i + 1..]))
  {
    MapAt(f, s);
    assert q[0] in multiset(Map(f, s));
    i :| 0 <= i < |s| && Map(f, s)[i] == q[0];
    MapRemove(f, s, i);
    RemoveHead(q);
    CancelOne(q[0], multiset(q[1..]), multiset(Map(f, s[..i] + s[i + 1..])));
  }

  ghost predicate Lifts<T, U>(f: T -> U, p: seq<T>, s: seq<T>, q: seq<U>) {
    multiset(p) == multiset(s) && Map(f, p) == q
  }

  lemma LiftCons<T, U>(f: T -> U, s: seq<T>, i: nat, p: seq<T>, q: seq<U>)
    requires i < |s| && q != [] && f(s[i]) == q[0]
    requires Lifts(f, p, s[..i] + s[i + 1..], q[1..])
    ensures Lifts(f, [s[i]] + p, s, q)
  {
    RemoveAt(s, i);
    MapCons(f, s[i], p);
    assert q == [q[0]] + q[1..];
  }

  /** Every permutation of an image is the image of a permutation. */
  lemma {:induction false} LiftPermutation<T, U>(f: T -> U, s: seq<T>, q: seq<U>) returns (p: seq<T>)
    requires multiset(q) == multiset(Map(f, s))
    ensures Lifts(f, p, s, q)
    decreases |q|
  {
    if q == [] {
      EmptyImage(f, s);
      p := [];
    } else {
      var i := HeadOfImage(f, s, q);
      var lifted := LiftPermutation(f, s[..i] + s[i + 1..], q[1..]);
      LiftCons(f, s, i, lifted, q);
      p := [s[i]] + lifted;
    }
  }

  lemma MapCons<T, U>(f: T -> U, x: T, s: seq<T>)
    ensures Map(f, [x] + s) == [f(x)] + Map(f, s)
  {
    assert ([x] + s)[1..] == s;
  }

  /** Mapping by a function that respects the two orders commutes with sorting. */
  lemma {:induction false} MapSort<T(!new), U>(f: T -> U, leq: (T, T) -> bool, leq': (U, U) -> bool, s: seq<T>)
    requires forall x, y :: leq(x, y) <==> leq'(f(x), f(y))
    ensures Map(f, Sort(leq, s)) == Sort(leq', Map(f, s))
  {
    if s != [] {
      MapSort(f, leq, leq', s[1..]);
      MapInsert(f, leq, leq', s[0], Sort(leq, s[1..]));
    }
  }

  lemma {:induction false} MapInsert<T(!new), U>(
      f: T -> U, leq: (T, T) -> bool, leq': (U, U) -> bool, x: T, s: seq<T>)
    requires forall x, y :: leq(x, y) <==> leq'(f(x), f(y))
    ensures Map(f, Insert(leq, x, s)) == Insert(leq', f(x), Map(f, s))
  {
    if s == [] || leq(x, s[0]) {
      assert ([x] + s)[1..] == s;
    } else {
      var t := Insert(leq, x, s[1..]);
      MapInsert(f, leq, leq', x, s[1..]);
      assert ([s[0]] + t)[1..] == t;
    }
  }
}
