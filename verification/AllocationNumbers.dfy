/**
 What the allocation decides in the candidates' own numbers: which lines there are, what
 each amounts to, which error is raised when, and that score and confidence play one part.
 */
module AllocationNumbers {
  import opened Wrappers
  import opened Text
  import opened Sorting
  import opened TextOrder
  import opened Sums
  import opened Grouping
  import opened Allocation

  // ----- the lines -----

  /** The line is for the candidate and carries over what it says. */
  predicate IsLineOf(line: AllocationLine, c: AllocationCandidate) {
    && line.candidateReferenceId == c.referenceId
    && line.target == c.target
    && line.authorityKey == c.authorityKey
    && line.confidence == c.confidence
    && line.intelligenceResultIds == c.intelligenceResultIds
  }

  /** The amount is within both caps. */
  predicate WithinBothCaps(available: real, policy: AllocationPolicy, line: AllocationLine) {
    && line.proposedAmount <= available * policy.maximumCandidateShare
    && (line.target in policy.targetCaps ==> line.proposedAmount <= available * policy.targetCaps[line.target])
  }

  /** The amount is exactly at one of the caps. */
  predicate AtACap(available: real, policy: AllocationPolicy, line: AllocationLine) {
    || line.proposedAmount == available * policy.maximumCandidateShare
    || (line.target in policy.targetCaps && line.proposedAmount == available * policy.targetCaps[line.target])
  }

  /** The amount is the candidate's part of what is available, or less, and then because of a cap. */
  predicate AmountIsDue(available: real, total: real, policy: AllocationPolicy, line: AllocationLine,
                        c: AllocationCandidate)
  {
    && WithinBothCaps(available, policy, line)
    && line.proposedAmount * total <= available * (c.score * c.confidence)
    && (line.proposedAmount * total == available * (c.score * c.confidence) || AtACap(available, policy, line))
  }

  lemma LineIsDue(available: real, total: Positive, policy: AllocationPolicy, c: AllocationCandidate)
    ensures var line := LineFor(available, total, policy, c);
            IsLineOf(line, c) && AmountIsDue(available, total, policy, line, c)
  {
    var amount := Uncapped(available, total, c);
    assert Weight(c) == c.score * c.confidence;
    Undivide(available * Weight(c), total);
    var line := LineFor(available, total, policy, c);
    QuotientOrder(line.proposedAmount, available * Weight(c), total);
  }

  /**
   All there is to know of the lines: they are one for each candidate whose confidence
   reaches the minimum, in the order of the reference ids, each with the amount due to it
   out of the sum of score times confidence.
   */
  lemma LinesInNumbers(available: real, candidates: seq<AllocationCandidate>, policy: AllocationPolicy,
                       lines: seq<AllocationLine>)
    returns (ordered: seq<AllocationCandidate>)
    requires available != 0.0 && Outcome(available, candidates, policy) == Success(lines)
    ensures forall c :: multiset(ordered)[c]
                        == if c.confidence >= policy.minimumConfidence then multiset(candidates)[c] else 0
    ensures forall i, j :: 0 <= i < j < |ordered| ==> LexLeq(ordered[i].referenceId, ordered[j].referenceId)
    ensures |lines| == |ordered|
    ensures ordered != [] ==> Aggregate(ordered) > 0.0
    ensures forall i :: 0 <= i < |lines| ==>
              IsLineOf(lines[i], ordered[i]) && AmountIsDue(available, Aggregate(ordered), policy, lines[i], ordered[i])
  {
    var eligible := Eligible(policy, candidates);
    ordered := Sort(ByReference, eligible);
    EligibleMultiset(policy, candidates);
    SortPermutes(ByReference, eligible);
    SortedByReference(eligible);
    AggregatePermutation(ordered, eligible);
    if eligible != [] {
      var total: Positive := SumBy(Weight, eligible);
      MapAt(LineBy(available, total, policy), ordered);
      forall i | 0 <= i < |lines|
        ensures IsLineOf(lines[i], ordered[i]) && AmountIsDue(available, total, policy, lines[i], ordered[i])
      {
        LineIsDue(available, total, policy, ordered[i]);
      }
    }
  }

  lemma SortedByReference(cs: seq<AllocationCandidate>)
    ensures var ordered := Sort(ByReference, cs);
            forall i, j :: 0 <= i < j < |ordered| ==> LexLeq(ordered[i].referenceId, ordered[j].referenceId)
  {
    LexIsPreorder();
    SortSorted(ByReference, cs);
    var ordered := Sort(ByReference, cs);
    forall i, j | 0 <= i < j < |ordered| ensures LexLeq(ordered[i].referenceId, ordered[j].referenceId) {
      assert ByReference(ordered[i], ordered[j]);
    }
  }

  lemma AggregatePermutation(a: seq<AllocationCandidate>, b: seq<AllocationCandidate>)
    requires multiset(a) == multiset(b)
    ensures Aggregate(a) == Aggregate(b) == SumBy(Weight, b)
  {
    WeightsAddUp(a);
    WeightsAddUp(b);
    SumPermutation(Weight, a, b);
  }

  /** Where no cap binds, two lines are to each other as score times confidence of their candidates. */
  lemma LinesInProportion(available: real, total: real, policy: AllocationPolicy,
                          x: AllocationLine, c: AllocationCandidate, y: AllocationLine, d: AllocationCandidate)
    requires total > 0.0
    requires AmountIsDue(available, total, policy, x, c) && !AtACap(available, policy, x)
    requires AmountIsDue(available, total, policy, y, d) && !AtACap(available, policy, y)
    ensures x.proposedAmount * (d.score * d.confidence) == y.proposedAmount * (c.score * c.confidence)
  {
    CrossProducts(available, total, x.proposedAmount, c.score * c.confidence, y.proposedAmount, d.score * d.confidence);
  }

  lemma CrossProducts(available: real, total: Positive, x: real, v: real, y: real, w: real)
    requires x * total == available * v && y * total == available * w
    ensures x * w == y * v
  {
    assert (x * w) * total == (x * total) * w == (available * v) * w;
    assert (y * v) * total == (y * total) * v == (available * w) * v;
    assert (available * v) * w == (available * w) * v;
    Cancel(x * w, y * v, total);
  }

  lemma Cancel(x: real, y: real, total: Positive)
    requires x * total == y * total
    ensures x == y
  {
  }

  /** A candidate without score, or without confidence, is due nothing, however the policy caps. */
  lemma NothingForNothing(available: real, total: real, policy: AllocationPolicy, line: AllocationLine,
                          c: AllocationCandidate)
    requires available > 0.0 && total > 0.0 && policy.Valid() && c.Valid()
    requires IsLineOf(line, c) && AmountIsDue(available, total, policy, line, c)
    ensures c.score == 0.0 || c.confidence == 0.0 ==> line.proposedAmount == 0.0
    ensures line.proposedAmount == 0.0
            ==> || c.score == 0.0 || c.confidence == 0.0 || policy.maximumCandidateShare == 0.0
                || (c.target in policy.targetCaps && policy.targetCaps[c.target] == 0.0)
  {
    ZeroProduct(c.score, c.confidence);
    ZeroProduct(available, c.score * c.confidence);
    ZeroProduct(line.proposedAmount, total);
    ZeroProduct(available, policy.maximumCandidateShare);
    if line.target in policy.targetCaps {
      ZeroProduct(available, policy.targetCaps[line.target]);
      NotNegative(available, policy.targetCaps[line.target]);
    }
    NotNegative(available, policy.maximumCandidateShare);
    NotNegative(c.score, c.confidence);
    NotNegative(available, c.score * c.confidence);
    SignOfProduct(line.proposedAmount, total);
  }

  lemma ZeroProduct(x: real, y: real)
    ensures x * y == 0.0 <==> x == 0.0 || y == 0.0
  {
  }

  lemma NotNegative(x: real, y: real)
    requires x >= 0.0 && y >= 0.0
    ensures x * y >= 0.0
  {
  }

  lemma SignOfProduct(x: real, total: Positive)
    ensures x * total <= 0.0 <==> x <= 0.0
  {
  }

  // ----- the errors -----

  lemma WeightOf(c: AllocationCandidate)
    requires c.Valid()
    ensures Weight(c) >= 0.0
    ensures Weight(c) == 0.0 <==> c.score == 0.0 || c.confidence == 0.0
  {
    NotNegative(c.score, c.confidence);
    ZeroProduct(c.score, c.confidence);
  }

  lemma WeightsZeroIff(cs: seq<AllocationCandidate>)
    requires AllValid(cs)
    ensures SumBy(Weight, cs) <= 0.0 <==> forall c :: c in cs ==> c.score == 0.0 || c.confidence == 0.0
  {
    forall c | c in cs
      ensures Weight(c) >= 0.0 && (Weight(c) == 0.0 <==> c.score == 0.0 || c.confidence == 0.0)
    {
      WeightOf(c);
    }
    SumNonNegative(Weight, cs);
    if forall c :: c in cs ==> Weight(c) == 0.0 {
      SumZero(Weight, cs);
    }
  }

  ghost predicate SomeEligible(candidates: seq<AllocationCandidate>, policy: AllocationPolicy) {
    exists c :: c in candidates && c.confidence >= policy.minimumConfidence
  }

  /** No candidate that may get anything has both score and confidence to show. */
  ghost predicate NothingToWeigh(candidates: seq<AllocationCandidate>, policy: AllocationPolicy) {
    forall c :: c in candidates && c.confidence >= policy.minimumConfidence ==> c.score == 0.0 || c.confidence == 0.0
  }

  /** What the lines of one authority add up to. */
  function Proposed(lines: seq<AllocationLine>, authority: string): real {
    if lines == [] then 0.0
    else
      Proposed(lines[..|lines| - 1], authority)
      + (if lines[|lines| - 1].authorityKey == authority then lines[|lines| - 1].proposedAmount else 0.0)
  }

  lemma {:induction false} AuthorityTotalIs(lines: seq<AllocationLine>, authority: string)
    ensures AuthorityTotal(lines, authority) == Proposed(lines, authority)
  {
    if lines != [] {
      AuthorityTotalIs(lines[..|lines| - 1], authority);
      AuthorityTotalLast(lines, authority);
    }
  }

  ghost predicate SomeAuthorityAbove(lines: seq<AllocationLine>, ceiling: real) {
    exists authority :: Proposed(lines, authority) > ceiling
  }

  lemma SomeAuthorityIff(lines: seq<AllocationLine>, ceiling: real)
    requires ceiling >= 0.0
    ensures FailClosed(lines, ceiling).Failure? <==> SomeAuthorityAbove(lines, ceiling)
  {
    ExceedsIff(lines, ceiling);
    forall authority ensures Proposed(lines, authority) == AuthorityTotal(lines, authority) {
      AuthorityTotalIs(lines, authority);
    }
    if authority :| Proposed(lines, authority) > ceiling {
      if authority !in Keys(LineAuthority, lines) {
        AuthorityAbsent(lines, authority);
      }
    }
  }

  lemma EligibleNone(candidates: seq<AllocationCandidate>, policy: AllocationPolicy)
    ensures Eligible(policy, candidates) != [] <==> SomeEligible(candidates, policy)
  {
    EligibleMultiset(policy, candidates);
    if Eligible(policy, candidates) != [] {
      assert Eligible(policy, candidates)[0] in Eligible(policy, candidates);
    }
  }

  lemma WeightlessIff(candidates: seq<AllocationCandidate>, policy: AllocationPolicy)
    requires AllValid(candidates)
    ensures SumBy(Weight, Eligible(policy, candidates)) <= 0.0 <==> NothingToWeigh(candidates, policy)
  {
    var eligible := Eligible(policy, candidates);
    EligibleMultiset(policy, candidates);
    WeightsZeroIff(eligible);
  }

  lemma GateReasons(available: real, noneEligible: bool, weight: real,
                    checked: Result<seq<AllocationLine>, AllocationError>)
    requires checked.Failure? ==> checked.error == AuthorityConcentration
    ensures var gated, proposed := Gate(available, noneEligible, weight, checked), !noneEligible && available > 0.0;
            && (gated == Failure(NegativeAvailable) <==> available < 0.0)
            && (gated == Failure(NonPositiveWeight) <==> proposed && weight <= 0.0)
            && (gated == Failure(AuthorityConcentration) <==> proposed && weight > 0.0 && checked.Failure?)
            && (gated.Failure? ==> gated.error in {NegativeAvailable, NonPositiveWeight, AuthorityConcentration})
            && (gated == Success([]) <== available == 0.0 || (available > 0.0 && noneEligible))
  {
  }

  lemma CheckReasons(available: real, lines: seq<AllocationLine>, policy: AllocationPolicy)
    requires available > 0.0 && policy.Valid()
    ensures FailClosed(lines, Ceiling(available, policy)).Failure?
            <==> SomeAuthorityAbove(lines, available * policy.maximumAuthorityShare)
  {
    NotNegative(available, policy.maximumAuthorityShare);
    SomeAuthorityIff(lines, Ceiling(available, policy));
  }

  /** Each error of the decision is raised exactly under its own condition, and there are no others. */
  lemma ErrorReasons(available: real, candidates: seq<AllocationCandidate>, policy: AllocationPolicy)
    requires AllValid(candidates) && policy.Valid()
    ensures var outcome := Outcome(available, candidates, policy);
            var proposed := SomeEligible(candidates, policy) && available > 0.0;
            && (outcome == Failure(NegativeAvailable) <==> available < 0.0)
            && (outcome == Failure(NonPositiveWeight) <==> proposed && NothingToWeigh(candidates, policy))
            && (outcome == Failure(AuthorityConcentration)
                <==> && proposed && !NothingToWeigh(candidates, policy)
                     && SomeAuthorityAbove(LinesOrNone(available, candidates, policy),
                                           available * policy.maximumAuthorityShare))
            && (outcome.Failure? ==> outcome.error in {NegativeAvailable, NonPositiveWeight, AuthorityConcentration})
            && (outcome == Success([]) <== available == 0.0 || (available > 0.0 && !SomeEligible(candidates, policy)))
  {
    var eligible, lines := Eligible(policy, candidates), LinesOrNone(available, candidates, policy);
    EligibleNone(candidates, policy);
    WeightlessIff(candidates, policy);
    if available > 0.0 {
      CheckReasons(available, lines, policy);
    }
    GateReasons(available, eligible == [], SumBy(Weight, eligible), FailClosed(lines, Ceiling(available, policy)));
  }

  // ----- score and confidence -----

  /** Score and confidence exchanged, unless the exchange would make the candidate ineligible or eligible. */
  function Exchange(policy: AllocationPolicy, c: AllocationCandidate): AllocationCandidate {
    if c.score >= policy.minimumConfidence && c.confidence >= policy.minimumConfidence then
      c.(score := c.confidence, confidence := c.score)
    else c
  }

  function ExchangeBy(policy: AllocationPolicy): AllocationCandidate -> AllocationCandidate {
    (c: AllocationCandidate) => Exchange(policy, c)
  }

  lemma {:induction false} EligibleExchanged(policy: AllocationPolicy, cs: seq<AllocationCandidate>)
    ensures Eligible(policy, Map(ExchangeBy(policy), cs)) == Map(ExchangeBy(policy), Eligible(policy, cs))
  {
    var f := ExchangeBy(policy);
    if cs != [] {
      var n := |cs| - 1;
      MapAt(f, cs);
      MapAt(f, cs[..n]);
      assert Map(f, cs)[..n] == Map(f, cs[..n]);
      EligibleExchanged(policy, cs[..n]);
      StillEligible(policy, cs[n]);
      if IsEligible(policy, cs[n]) {
        MapSnoc(f, Eligible(policy, cs[..n]), cs[n]);
      } else {
        assert Eligible(policy, cs) == Eligible(policy, cs[..n]);
        assert Eligible(policy, Map(f, cs)) == Eligible(policy, Map(f, cs[..n]));
      }
    }
  }

  lemma StillEligible(policy: AllocationPolicy, c: AllocationCandidate)
    ensures IsEligible(policy, Exchange(policy, c)) <==> IsEligible(policy, c)
  {
  }

  lemma MapSnoc<T, U>(f: T -> U, s: seq<T>, x: T)
    ensures Map(f, s + [x]) == Map(f, s) + [f(x)]
  {
    MapAt(f, s + [x]);
    MapAt(f, s);
  }

  lemma WeightExchanged(policy: AllocationPolicy, cs: seq<AllocationCandidate>)
    ensures SumBy(Weight, Map(ExchangeBy(policy), cs)) == SumBy(Weight, cs)
  {
    forall c | c in cs ensures Weight(c) == Weight(ExchangeBy(policy)(c)) {
      Commute(c.score, c.confidence);
    }
    SumOfMap(ExchangeBy(policy), Weight, Weight, cs);
  }

  lemma Commute(x: real, y: real)
    ensures x * y == y * x
  {
  }

  /** The same lines but for the confidence they carry. */
  ghost predicate SameAmounts(a: seq<AllocationLine>, b: seq<AllocationLine>) {
    |a| == |b| && forall i :: 0 <= i < |a| ==> a[i] == b[i].(confidence := a[i].confidence)
  }

  lemma LineExchanged(available: real, total: Positive, policy: AllocationPolicy, c: AllocationCandidate)
    ensures var d := Exchange(policy, c);
            LineFor(available, total, policy, d)
            == LineFor(available, total, policy, c).(confidence := d.confidence)
  {
    Commute(c.score, c.confidence);
    assert Weight(Exchange(policy, c)) == Weight(c);
  }

  lemma LinesExchanged(available: real, total: Positive, policy: AllocationPolicy, cs: seq<AllocationCandidate>)
    ensures SameAmounts(LinesFor(available, total, policy, Map(ExchangeBy(policy), cs)),
                        LinesFor(available, total, policy, cs))
  {
    var other := Map(ExchangeBy(policy), cs);
    MapAt(ExchangeBy(policy), cs);
    MapAt(LineBy(available, total, policy), cs);
    MapAt(LineBy(available, total, policy), other);
    var a, b := LinesFor(available, total, policy, other), LinesFor(available, total, policy, cs);
    forall i | 0 <= i < |a| ensures a[i] == b[i].(confidence := a[i].confidence) {
      LineExchanged(available, total, policy, cs[i]);
    }
  }

  lemma OrderExchanged(policy: AllocationPolicy, cs: seq<AllocationCandidate>)
    ensures Sort(ByReference, Map(ExchangeBy(policy), cs)) == Map(ExchangeBy(policy), Sort(ByReference, cs))
  {
    MapSort(ExchangeBy(policy), ByReference, ByReference, cs);
  }

  lemma LinesOrNoneExchanged(available: real, candidates: seq<AllocationCandidate>, policy: AllocationPolicy)
    ensures SameAmounts(LinesOrNone(available, Map(ExchangeBy(policy), candidates), policy),
                        LinesOrNone(available, candidates, policy))
  {
    var eligible := Eligible(policy, candidates);
    EligibleExchanged(policy, candidates);
    WeightExchanged(policy, eligible);
    if SumBy(Weight, eligible) > 0.0 {
      OrderExchanged(policy, eligible);
      LinesExchanged(available, SumBy(Weight, eligible), policy, Sort(ByReference, eligible));
    }
  }

  lemma SameAmountsPrefix(a: seq<AllocationLine>, b: seq<AllocationLine>)
    requires SameAmounts(a, b) && a != []
    ensures SameAmounts(a[..|a| - 1], b[..|b| - 1])
    ensures var x, y := a[|a| - 1], b[|b| - 1];
            x.authorityKey == y.authorityKey && x.proposedAmount == y.proposedAmount
  {
    var n := |a| - 1;
    forall i | 0 <= i < n ensures a[..n][i] == b[..n][i].(confidence := a[..n][i].confidence) {
      assert a[i] == b[i].(confidence := a[i].confidence);
    }
    assert a[n] == b[n].(confidence := a[n].confidence);
  }

  lemma {:induction false} SameAuthorityTotals(a: seq<AllocationLine>, b: seq<AllocationLine>, authority: string)
    requires SameAmounts(a, b)
    ensures AuthorityTotal(a, authority) == AuthorityTotal(b, authority)
    ensures Keys(LineAuthority, a) == Keys(LineAuthority, b)
  {
    if a != [] {
      SameAmountsPrefix(a, b);
      SameAuthorityTotals(a[..|a| - 1], b[..|b| - 1], authority);
      AuthorityTotalLast(a, authority);
      AuthorityTotalLast(b, authority);
    }
  }

  lemma SameAmountsSameCheck(a: seq<AllocationLine>, b: seq<AllocationLine>, ceiling: real)
    requires SameAmounts(a, b)
    ensures FailClosed(a, ceiling).Failure? <==> FailClosed(b, ceiling).Failure?
  {
    ExceedsIff(a, ceiling);
    ExceedsIff(b, ceiling);
    forall k ensures AuthorityTotal(a, k) == AuthorityTotal(b, k) {
      SameAuthorityTotals(a, b, k);
    }
    SameAuthorityTotals(a, b, "");
  }

  /** The two decisions agree: the same error, or the same lines but for the confidence they carry. */
  ghost predicate SameDecision(a: Result<seq<AllocationLine>, AllocationError>,
                               b: Result<seq<AllocationLine>, AllocationError>)
  {
    if a.Success? && b.Success? then SameAmounts(a.value, b.value) else a == b
  }

  /**
   Score and confidence play one part: exchanging them in every candidate that is eligible
   both ways changes neither an amount nor an error.
   */
  lemma ExchangeChangesNothing(available: real, candidates: seq<AllocationCandidate>, policy: AllocationPolicy)
    ensures SameDecision(Outcome(available, Map(ExchangeBy(policy), candidates), policy),
                         Outcome(available, candidates, policy))
  {
    var other, eligible := Map(ExchangeBy(policy), candidates), Eligible(policy, candidates);
    EligibleExchanged(policy, candidates);
    WeightExchanged(policy, eligible);
    MapAt(ExchangeBy(policy), eligible);
    LinesOrNoneExchanged(available, candidates, policy);
    SameAmountsSameCheck(LinesOrNone(available, other, policy), LinesOrNone(available, candidates, policy),
                         Ceiling(available, policy));
  }
}
