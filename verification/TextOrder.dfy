/** Sorting texts, as `sorted` does on strings. */
module TextOrder {
  import opened Text
  import opened Sorting

  predicate CodePointOrder(a: string, b: string) { LexLeq(a, b) }

  lemma LexIsPreorder()
    ensures forall a: string, b: string :: LexLeq(a, b) || LexLeq(b, a)
    ensures forall a: string, b: string, c: string :: LexLeq(a, b) && LexLeq(b, c) ==> LexLeq(a, c)
  {
    forall a: string, b: string ensures LexLeq(a, b) || LexLeq(b, a) { LexTotal(a, b); }
    forall a: string, b: string, c: string | LexLeq(a, b) && LexLeq(b, c) ensures LexLeq(a, c) {
      LexTransitive(a, b, c);
    }
  }

  /** Texts are totally ordered, and only equal ones tie. */
  lemma CodePointOrderIsTotal(s: seq<string>)
    ensures TotalPreorder(CodePointOrder)
    ensures TieFree(CodePointOrder, s)
  {
    LexIsPreorder();
    forall a: string, b: string | a in s && b in s && Tied(CodePointOrder, a, b) ensures a == b {
      LexAntisymmetric(a, b);
    }
  }

  /** Sorting texts is a canonical form of the multiset of texts. */
  lemma SortedTextsEqualIff(a: seq<string>, b: seq<string>)
    ensures Sort(CodePointOrder, a) == Sort(CodePointOrder, b) <==> multiset(a) == multiset(b)
  {
    CodePointOrderIsTotal(a);
    SortPermutes(CodePointOrder, a);
    SortPermutes(CodePointOrder, b);
    if multiset(a) == multiset(b) {
      SortCanonical(CodePointOrder, a, b);
    }
  }
}
