/** Finite sums of exact reals over sequences, standing for `sum` and `fsum`. */
module Sums {
  import opened Sequences
  import opened Sorting

  function SumBy<T>(f: T -> real, s: seq<T>): real {
    if s == [] then 0.0 else SumBy(f, s[..|s| - 1]) + f(s[|s| - 1])
  }

  lemma {:induction false} SumAppend<T>(f: T -> real, a: seq<T>, b: seq<T>)
    ensures SumBy(f, a + b) == SumBy(f, a) + SumBy(f, b)
  {
    if b == [] {
      assert a + b == a;
    } else {
      SumAppend(f, a, b[..|b| - 1]);
      assert (a + b)[..|a + b| - 1] == a + b[..|b| - 1];
    }
  }

  lemma SumExtract<T>(f: T -> real, s: seq<T>, i: nat)
    requires i < |s|
    ensures SumBy(f, s) == SumBy(f, s[..i] + s[i + 1..]) + f(s[i])
  {
    SplitAround(s, i);
    SumAround(f, s[..i], s[i], s[i + 1..]);
  }

  lemma SumOne<T>(f: T -> real, x: T)
    ensures SumBy(f, [x]) == f(x)
  {
    assert [x][..0] == [];
  }

  lemma SumAround<T>(f: T -> real, a: seq<T>, x: T, b: seq<T>)
    ensures SumBy(f, a + ([x] + b)) == SumBy(f, a + b) + f(x)
  {
    SumAppend(f, a, [x] + b);
    SumAppend(f, [x], b);
    SumAppend(f, a, b);
    SumOne(f, x);
  }

  lemma RemoveLast<T>(s: seq<T>)
    requires s != []
    ensures multiset(s) == multiset{s[|s| - 1]} + multiset(s[..|s| - 1])
  {
    assert s == s[..|s| - 1] + [s[|s| - 1]];
  }

  /** A sum does not depend on the order of its terms. */
  lemma {:induction false} SumPermutation<T>(f: T -> real, a: seq<T>, b: seq<T>)
    requires multiset(a) == multiset(b)
    ensures SumBy(f, a) == SumBy(f, b)
    decreases |a|
  {
    if a == [] {
      assert |multiset(b)| == 0;
    } else {
      var n := |a| - 1;
      RemoveLast(a);
      assert a[n] in multiset(b);
      var i :| 0 <= i < |b| && b[i] == a[n];
      RemoveAt(b, i);
      CancelOne(a[n], multiset(a[..n]), multiset(b[..i] + b[i + 1..]));
      SumPermutation(f, a[..n], b[..i] + b[i + 1..]);
      SumExtract(f, b, i);
    }
  }

  lemma {:induction false} SumCongruent<T>(f: T -> real, g: T -> real, s: seq<T>)
    requires forall x :: x in s ==> f(x) == g(x)
    ensures SumBy(f, s) == SumBy(g, s)
  {
    if s != [] {
      SumCongruent(f, g, s[..|s| - 1]);
    }
  }

  lemma {:induction false} SumAdd<T>(f: T -> real, g: T -> real, h: T -> real, s: seq<T>)
    requires forall x :: x in s ==> h(x) == f(x) + g(x)
    ensures SumBy(h, s) == SumBy(f, s) + SumBy(g, s)
  {
    if s != [] {
      SumAdd(f, g, h, s[..|s| - 1]);
    }
  }

  lemma {:induction false} SumScale<T>(k: real, f: T -> real, g: T -> real, s: seq<T>)
    requires forall x :: x in s ==> g(x) == k * f(x)
    ensures SumBy(g, s) == k * SumBy(f, s)
  {
    if s != [] {
      SumScale(k, f, g, s[..|s| - 1]);
    }
  }

  /** Termwise `<=` carries over to the sums, which are equal exactly when all terms are. */
  lemma {:induction false} SumMonotone<T>(f: T -> real, g: T -> real, s: seq<T>)
    requires forall x :: x in s ==> f(x) <= g(x)
    ensures SumBy(f, s) <= SumBy(g, s)
    ensures SumBy(f, s) == SumBy(g, s) <==> forall x :: x in s ==> f(x) == g(x)
  {
    if s != [] {
      var t := s[..|s| - 1];
      assert s == t + [s[|s| - 1]];
      SumMonotone(f, g, t);
    }
  }

  lemma {:induction false} SumZero<T>(f: T -> real, s: seq<T>)
    requires forall x :: x in s ==> f(x) == 0.0
    ensures SumBy(f, s) == 0.0
  {
    if s != [] {
      SumZero(f, s[..|s| - 1]);
    }
  }

  lemma {:induction false} SumNonNegative<T>(f: T -> real, s: seq<T>)
    requires forall x :: x in s ==> f(x) >= 0.0
    ensures SumBy(f, s) >= 0.0
    ensures forall x :: x in s ==> f(x) <= SumBy(f, s)
  {
    if s != [] {
      var t := s[..|s| - 1];
      assert s == t + [s[|s| - 1]];
      SumNonNegative(f, t);
    }
  }

  function CappedAt<T>(f: T -> real, cap: real): T -> real {
    (x: T) => if cap < f(x) then cap else f(x)
  }

  ghost predicate AtMostOneTerm<T>(f: T -> real, s: seq<T>) {
    forall i, j :: 0 <= i < j < |s| ==> f(s[i]) == 0.0 || f(s[j]) == 0.0
  }

  /** A sum with at most one non-zero term is zero or that term. */
  lemma OneTermSum<T>(f: T -> real, s: seq<T>)
    requires AtMostOneTerm(f, s)
    ensures SumBy(f, s) == 0.0 || exists x :: x in s && SumBy(f, s) == f(x)
  {
    if i :| 0 <= i < |s| && f(s[i]) != 0.0 {
      var rest := s[..i] + s[i + 1..];
      forall x | x in rest ensures f(x) == 0.0 {
        var j :| 0 <= j < |rest| && rest[j] == x;
        assert x == s[if j < i then j else j + 1];
      }
      SumZero(f, rest);
      SumExtract(f, s, i);
      assert s[i] in s && SumBy(f, s) == f(s[i]);
    } else {
      SumZero(f, s);
    }
  }

  /** A term at the cap and another non-zero one together exceed it. */
  lemma TwoTermsExceed<T>(f: T -> real, s: seq<T>, k: nat, l: nat)
    requires forall x :: x in s ==> f(x) >= 0.0
    requires k < |s| && l < |s| && k != l && f(s[l]) > 0.0
    ensures SumBy(f, s) > f(s[k])
  {
    var rest := s[..k] + s[k + 1..];
    SumExtract(f, s, k);
    assert rest[if l < k then l else l - 1] == s[l];
    assert forall x :: x in rest ==> x in s;
    SumNonNegative(f, rest);
  }

  lemma CappedSumExceeds<T>(f: T -> real, s: seq<T>, cap: real)
    requires cap > 0.0 && forall x :: x in s ==> f(x) >= 0.0
    requires SumBy(f, s) > cap && !AtMostOneTerm(f, s)
    ensures SumBy(CappedAt(f, cap), s) > cap
  {
    var g := CappedAt(f, cap);
    if k :| 0 <= k < |s| && f(s[k]) > cap {
      var i, j :| 0 <= i < j < |s| && f(s[i]) != 0.0 && f(s[j]) != 0.0;
      TwoTermsExceed(g, s, k, if k == i then j else i);
    } else {
      SumCongruent(f, g, s);
    }
  }

  /**
   Capping each term keeps the whole sum within the cap exactly when the cap is zero, when
   the sum kept within it anyway, or when there is only one term to cap.
   */
  lemma CappedSumIff<T>(f: T -> real, s: seq<T>, cap: real)
    requires cap >= 0.0 && forall x :: x in s ==> f(x) >= 0.0
    ensures SumBy(CappedAt(f, cap), s) <= cap <==> cap == 0.0 || SumBy(f, s) <= cap || AtMostOneTerm(f, s)
  {
    var g := CappedAt(f, cap);
    if cap == 0.0 {
      SumZero(g, s);
    } else if SumBy(f, s) <= cap {
      SumMonotone(g, f, s);
    } else if AtMostOneTerm(f, s) {
      OneTermSum(g, s);
    } else {
      CappedSumExceeds(f, s, cap);
    }
  }
}
