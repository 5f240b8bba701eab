/** Small facts about concatenation, for proofs that follow a sequence from one end. */
module Sequences {

  /** The elements of `s` stand in `all` in this order. */
  ghost predicate Subsequence<T>(s: seq<T>, all: seq<T>) {
    || s == []
    || (all != [] && ((s[0] == all[0] && Subsequence(s[1..], all[1..])) || Subsequence(s, all[1..])))
  }

  lemma SubsequenceCons<T>(x: T, s: seq<T>, all: seq<T>)
    requires Subsequence(s, all)
    ensures Subsequence([x] + s, [x] + all) && Subsequence([] + s, [x] + all)
  {
    TailOfCons(x, s);
    TailOfCons(x, all);
    assert [] + s == s;
  }

  lemma ConsAppend<T>(a: seq<T>, b: seq<T>)
    requires a != []
    ensures (a + b)[0] == a[0] && (a + b)[1..] == a[1..] + b
  {
  }

  lemma Prepend<T>(x: T, a: seq<T>, b: seq<T>)
    ensures [x] + (a + b) == ([x] + a) + b
  {
  }

  lemma TailOfCons<T>(x: T, s: seq<T>)
    ensures ([x] + s)[0] == x && ([x] + s)[1..] == s
  {
  }

  lemma TakeNext<T>(s: seq<T>, i: nat)
    requires i < |s|
    ensures s[..i + 1] == s[..i] + [s[i]] && s[..i + 1][..i] == s[..i]
  {
  }

  lemma ButLast<T>(s: seq<T>)
    requires s != []
    ensures s[..|s| - 1] + [s[|s| - 1]] == s
  {
  }

  lemma EmptyBoth<T>(a: seq<T>, b: seq<T>)
    ensures a + b == [] <==> a == [] && b == []
  {
    assert |a + b| == |a| + |b|;
  }

  lemma AppendAssociative<T>(a: seq<T>, b: seq<T>, c: seq<T>)
    ensures (a + b) + c == a + (b + c)
  {
  }

  lemma SplitAround<T>(s: seq<T>, i: nat)
    requires i < |s|
    ensures s == s[..i] + ([s[i]] + s[i + 1..])
  {
  }
}
