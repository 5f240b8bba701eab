/**
 The regenerative allocation proposal (setc/ecology/allocation.py), over exact reals:
 eligibility, weights, the stable sort by reference, caps, and the fail-closed authority
 ceiling.
 */
module Allocation {
  import opened Wrappers
  import opened Text
  import opened Sorting
  import opened TextOrder
  import opened Sums
  import opened Grouping

  datatype AllocationTarget = Research | Enterprise | Community | Infrastructure | HumanCapital | Ecosystem

  datatype AllocationCandidate = AllocationCandidate(
    referenceId: string,
    target: AllocationTarget,
    intelligenceResultIds: seq<string>,
    score: real,
    confidence: real,
    authorityKey: string)
  {
    /** The constructor's checks all pass. */
    predicate Valid() {
      && !Blank(referenceId) && !Blank(authorityKey)
      && intelligenceResultIds != []
      && 0.0 <= score <= 1.0
      && 0.0 <= confidence <= 1.0
    }
  }

  datatype AllocationPolicy = AllocationPolicy(
    minimumConfidence: real,
    maximumCandidateShare: real,
    maximumAuthorityShare: real,
    targetCaps: map<AllocationTarget, real>)
  {
    /** The constructor's checks all pass. */
    predicate Valid() {
      && 0.0 <= minimumConfidence <= 1.0
      && 0.0 <= maximumCandidateShare <= 1.0
      && 0.0 <= maximumAuthorityShare <= 1.0
      && forall t :: t in targetCaps ==> 0.0 <= targetCaps[t] <= 1.0
    }
  }

  datatype AllocationLine = AllocationLine(
    candidateReferenceId: string,
    target: AllocationTarget,
    authorityKey: string,
    proposedAmount: real,
    confidence: real,
    intelligenceResultIds: seq<string>)

  datatype Proposal = Proposal(
    proposalId: string,
    journeyId: string,
    currencyOrUnit: string,
    availableAmount: real,
    lines: seq<AllocationLine>)

  datatype AllocationError =
    | MissingIdentity
    | NegativeAvailable
    | NonPositiveWeight
    | AuthorityConcentration
    | OverAllocation

  type Positive = r: real | r > 0.0 witness 1.0

  ghost predicate AllValid(candidates: seq<AllocationCandidate>) {
    forall c :: c in candidates ==> c.Valid()
  }

  function Weight(c: AllocationCandidate): real { c.score * c.confidence }

  predicate IsEligible(policy: AllocationPolicy, c: AllocationCandidate) {
    c.confidence >= policy.minimumConfidence
  }

  function Eligible(policy: AllocationPolicy, candidates: seq<AllocationCandidate>): seq<AllocationCandidate> {
    if candidates == [] then []
    else
      var n := |candidates| - 1;
      Eligible(policy, candidates[..n]) + (if IsEligible(policy, candidates[n]) then [candidates[n]] else [])
  }

  /** Filtering keeps every eligible candidate as often as it occurs, and no other. */
  lemma {:induction false} EligibleMultiset(policy: AllocationPolicy, candidates: seq<AllocationCandidate>)
    ensures forall c :: multiset(Eligible(policy, candidates))[c]
                        == if c.confidence >= policy.minimumConfidence then multiset(candidates)[c] else 0
    ensures forall c :: c in Eligible(policy, candidates)
                        <==> c in candidates && c.confidence >= policy.minimumConfidence
  {
    if candidates != [] {
      var n := |candidates| - 1;
      EligibleMultiset(policy, candidates[..n]);
      assert candidates == candidates[..n] + [candidates[n]];
    }
  }

  function Min(x: real, y: real): real { if y < x then y else x }

  function Uncapped(available: real, total: Positive, c: AllocationCandidate): real {
    available * Weight(c) / total
  }

  function Capped(available: real, policy: AllocationPolicy, target: AllocationTarget, amount: real): real {
    var capped := Min(amount, available * policy.maximumCandidateShare);
    if target in policy.targetCaps then Min(capped, available * policy.targetCaps[target]) else capped
  }

  function LineFor(available: real, total: Positive, policy: AllocationPolicy, c: AllocationCandidate): AllocationLine {
    AllocationLine(c.referenceId, c.target, c.authorityKey,
                   Capped(available, policy, c.target, Uncapped(available, total, c)),
                   c.confidence, c.intelligenceResultIds)
  }

  predicate ByReference(a: AllocationCandidate, b: AllocationCandidate) {
    LexLeq(a.referenceId, b.referenceId)
  }

  predicate ByLineReference(a: AllocationLine, b: AllocationLine) {
    LexLeq(a.candidateReferenceId, b.candidateReferenceId)
  }

  function LineBy(available: real, total: Positive, policy: AllocationPolicy): AllocationCandidate -> AllocationLine {
    (c: AllocationCandidate) => LineFor(available, total, policy, c)
  }

  function LinesFor(available: real, total: Positive, policy: AllocationPolicy, cs: seq<AllocationCandidate>)
    : seq<AllocationLine>
  {
    Map(LineBy(available, total, policy), cs)
  }

  function AmountOf(line: AllocationLine): real { line.proposedAmount }

  function LineAuthority(line: AllocationLine): string { line.authorityKey }

  function Deployed(lines: seq<AllocationLine>): real { SumBy(AmountOf, lines) }

  function AuthorityTotal(lines: seq<AllocationLine>, authority: string): real {
    GroupTotal(LineAuthority, AmountOf, lines, authority)
  }

  /** `any` over the totals: one of the keys has lines adding up to more than the ceiling. */
  predicate AnyAbove(keys: seq<string>, lines: seq<AllocationLine>, ceiling: real) {
    keys != [] && (AuthorityTotal(lines, keys[0]) > ceiling || AnyAbove(keys[1..], lines, ceiling))
  }

  /** Some authority's lines add up to more than the ceiling. */
  predicate ExceedsCeiling(lines: seq<AllocationLine>, ceiling: real) {
    AnyAbove(Keys(LineAuthority, lines), lines, ceiling)
  }

  lemma {:induction false} AnyAboveIff(keys: seq<string>, lines: seq<AllocationLine>, ceiling: real)
    ensures AnyAbove(keys, lines, ceiling) <==> exists k :: k in keys && AuthorityTotal(lines, k) > ceiling
  {
    if keys != [] {
      AnyAboveIff(keys[1..], lines, ceiling);
      assert forall k :: k in keys <==> k == keys[0] || k in keys[1..];
    }
  }

  ghost predicate SomeAbove(lines: seq<AllocationLine>, ceiling: real) {
    exists k :: k in Keys(LineAuthority, lines) && AuthorityTotal(lines, k) > ceiling
  }

  lemma ExceedsIff(lines: seq<AllocationLine>, ceiling: real)
    ensures ExceedsCeiling(lines, ceiling) <==> SomeAbove(lines, ceiling)
  {
    AnyAboveIff(Keys(LineAuthority, lines), lines, ceiling);
  }

  /** The lines proposed when there is something to deploy and a positive total weight. */
  function ProposedLines(available: real, candidates: seq<AllocationCandidate>, policy: AllocationPolicy)
    : seq<AllocationLine>
    requires SumBy(Weight, Eligible(policy, candidates)) > 0.0
  {
    var eligible := Eligible(policy, candidates);
    LinesFor(available, SumBy(Weight, eligible), policy, Sort(ByReference, eligible))
  }

  function FailClosed(lines: seq<AllocationLine>, ceiling: real): Result<seq<AllocationLine>, AllocationError> {
    if ExceedsCeiling(lines, ceiling) then Failure(AuthorityConcentration) else Success(lines)
  }

  function LinesOrNone(available: real, candidates: seq<AllocationCandidate>, policy: AllocationPolicy)
    : seq<AllocationLine>
  {
    if SumBy(Weight, Eligible(policy, candidates)) > 0.0 then ProposedLines(available, candidates, policy) else []
  }

  /** The order of the checks, given what each of them looks at. */
  function Gate(available: real, noneEligible: bool, weight: real,
                checked: Result<seq<AllocationLine>, AllocationError>)
    : Result<seq<AllocationLine>, AllocationError>
  {
    if available < 0.0 then Failure(NegativeAvailable)
    else if noneEligible || available == 0.0 then Success([])
    else if weight <= 0.0 then Failure(NonPositiveWeight)
    else checked
  }

  /** The decision on the lines under a given ceiling for every authority. */
  function Decision(available: real, candidates: seq<AllocationCandidate>, policy: AllocationPolicy, ceiling: real)
    : Result<seq<AllocationLine>, AllocationError>
  {
    var eligible := Eligible(policy, candidates);
    Gate(available, eligible == [], SumBy(Weight, eligible),
         FailClosed(LinesOrNone(available, candidates, policy), ceiling))
  }

  /** What no authority's lines may add up to more than. */
  function Ceiling(available: real, policy: AllocationPolicy): real {
    available * policy.maximumAuthorityShare
  }

  /** The decision on the lines, apart from the proposal's own identity. */
  function Outcome(available: real, candidates: seq<AllocationCandidate>, policy: AllocationPolicy)
    : Result<seq<AllocationLine>, AllocationError>
  {
    Decision(available, candidates, policy, Ceiling(available, policy))
  }

  // ----- the imperative computation -----

  method FilterEligible(policy: AllocationPolicy, candidates: seq<AllocationCandidate>)
    returns (eligible: seq<AllocationCandidate>)
    ensures eligible == Eligible(policy, candidates)
  {
    eligible := [];
    for i := 0 to |candidates|
      invariant eligible == Eligible(policy, candidates[..i])
    {
      assert candidates[..i + 1][..i] == candidates[..i];
      if candidates[i].confidence >= policy.minimumConfidence {
        eligible := eligible + [candidates[i]];
      }
    }
    assert candidates[..|candidates|] == candidates;
  }

  /** The sum of score times confidence. */
  function Aggregate(cs: seq<AllocationCandidate>): real {
    if cs == [] then 0.0 else Aggregate(cs[..|cs| - 1]) + cs[|cs| - 1].score * cs[|cs| - 1].confidence
  }

  lemma {:induction false} WeightsAddUp(cs: seq<AllocationCandidate>)
    ensures SumBy(Weight, cs) == Aggregate(cs)
  {
    if cs != [] {
      WeightsAddUp(cs[..|cs| - 1]);
    }
  }

  method SumWeights(cs: seq<AllocationCandidate>) returns (total: real)
    ensures total == SumBy(Weight, cs) == Aggregate(cs)
  {
    WeightsAddUp(cs);
    total := 0.0;
    for i := 0 to |cs|
      invariant total == SumBy(Weight, cs[..i])
    {
      assert cs[..i + 1][..i] == cs[..i];
      total := total + cs[i].score * cs[i].confidence;
    }
    assert cs[..|cs|] == cs;
  }

  method SumAmounts(lines: seq<AllocationLine>) returns (total: real)
    ensures total == Deployed(lines)
  {
    total := 0.0;
    for i := 0 to |lines|
      invariant total == Deployed(lines[..i])
    {
      assert lines[..i + 1][..i] == lines[..i];
      total := total + lines[i].proposedAmount;
    }
    assert lines[..|lines|] == lines;
  }

  method MakeLine(available: real, total: Positive, policy: AllocationPolicy, candidate: AllocationCandidate)
    returns (line: AllocationLine)
    ensures line == LineFor(available, total, policy, candidate)
  {
    var weight := candidate.score * candidate.confidence;
    var amount := available * weight / total;
    amount := Min(amount, available * policy.maximumCandidateShare);
    if candidate.target in policy.targetCaps {
      amount := Min(amount, available * policy.targetCaps[candidate.target]);
    }
    line := AllocationLine(candidate.referenceId, candidate.target, candidate.authorityKey,
                           amount, candidate.confidence, candidate.intelligenceResultIds);
  }

  method ProvisionalLines(available: real, total: Positive, policy: AllocationPolicy, ordered: seq<AllocationCandidate>)
    returns (provisional: seq<AllocationLine>)
    ensures provisional == LinesFor(available, total, policy, ordered)
  {
    provisional := [];
    for i := 0 to |ordered|
      invariant |provisional| == i
      invariant forall j :: 0 <= j < i ==> provisional[j] == LineFor(available, total, policy, ordered[j])
    {
      var line := MakeLine(available, total, policy, ordered[i]);
      provisional := provisional + [line];
    }
    MapAt(LineBy(available, total, policy), ordered);
  }

  /** The accumulated dictionary holds each authority's rescanned total. */
  method AuthorityTotals(lines: seq<AllocationLine>) returns (totals: map<string, real>)
    ensures forall k :: k in totals <==> k in Keys(LineAuthority, lines)
    ensures forall k :: k in totals ==> totals[k] == AuthorityTotal(lines, k)
  {
    totals := map[];
    for i := 0 to |lines|
      invariant forall k :: k in totals <==> k in Keys(LineAuthority, lines[..i])
      invariant forall k :: k in totals ==> totals[k] == AuthorityTotal(lines[..i], k)
    {
      var line := lines[i];
      assert lines[..i + 1] == lines[..i] + [line];
      TotalsSnoc(lines[..i], line);
      var prior := 0.0;
      if line.authorityKey in totals {
        prior := totals[line.authorityKey];
      } else {
        AuthorityAbsent(lines[..i], line.authorityKey);
      }
      totals := totals[line.authorityKey := prior + line.proposedAmount];
    }
    assert lines[..|lines|] == lines;
  }

  method CheckAuthorities(lines: seq<AllocationLine>, ceiling: real)
    returns (r: Result<seq<AllocationLine>, AllocationError>)
    ensures r == FailClosed(lines, ceiling)
  {
    var totals := AuthorityTotals(lines);
    ExceedsIff(lines, ceiling);
    if exists k :: k in totals && totals[k] > ceiling {
      return Failure(AuthorityConcentration);
    }
    return Success(lines);
  }

  lemma TotalsSnoc(lines: seq<AllocationLine>, line: AllocationLine)
    ensures forall k :: AuthorityTotal(lines + [line], k)
                        == AuthorityTotal(lines, k) + (if line.authorityKey == k then line.proposedAmount else 0.0)
    ensures forall k :: k in Keys(LineAuthority, lines + [line])
                        <==> k in Keys(LineAuthority, lines) || k == line.authorityKey
  {
    assert (lines + [line])[..|lines|] == lines;
    assert LineAuthority(line) == line.authorityKey && AmountOf(line) == line.proposedAmount;
    forall k ensures AuthorityTotal(lines + [line], k)
                     == AuthorityTotal(lines, k) + (if line.authorityKey == k then line.proposedAmount else 0.0)
    {
      var f := ShareOf(LineAuthority, AmountOf, k);
      assert SumBy(f, lines + [line]) == SumBy(f, lines) + f(line);
    }
  }

  lemma AuthorityAbsent(lines: seq<AllocationLine>, k: string)
    requires k !in Keys(LineAuthority, lines)
    ensures AuthorityTotal(lines, k) == 0.0
  {
    KeysAre(LineAuthority, lines);
    AbsentKey(LineAuthority, AmountOf, lines, k);
  }

  method DecideLines(available: real, candidates: seq<AllocationCandidate>, policy: AllocationPolicy)
    returns (r: Result<seq<AllocationLine>, AllocationError>)
    ensures r == Outcome(available, candidates, policy)
  {
    var eligible := FilterEligible(policy, candidates);
    if available < 0.0 {
      return Failure(NegativeAvailable);
    }
    if eligible == [] || available == 0.0 {
      return Success([]);
    }
    var total := SumWeights(eligible);
    if total <= 0.0 {
      return Failure(NonPositiveWeight);
    }
    var provisional := ProvisionalLines(available, total, policy, Sort(ByReference, eligible));
    assert provisional == LinesOrNone(available, candidates, policy);
    r := CheckAuthorities(provisional, Ceiling(available, policy));
  }

  /** Whatever lines are decided on fit into the available amount. */
  lemma OutcomeFits(available: real, candidates: seq<AllocationCandidate>, policy: AllocationPolicy)
    ensures var outcome := Outcome(available, candidates, policy);
            outcome.Success? ==> available >= 0.0 && Deployed(outcome.value) <= available
  {
    if available > 0.0 && SumBy(Weight, Eligible(policy, candidates)) > 0.0 {
      NeverOverAllocates(available, candidates, policy);
    }
  }

  /**
   Builds the proposal.  The constructor's over-allocation guard stands in the code and is
   never what fails: no outcome below is `OverAllocation`.
   */
  method BuildRegenerativeProposal(
      proposalId: string, journeyId: string, currencyOrUnit: string,
      available: real, candidates: seq<AllocationCandidate>, policy: AllocationPolicy)
    returns (r: Result<Proposal, AllocationError>)
    requires AllValid(candidates) && policy.Valid()
    ensures r != Failure(OverAllocation)
    ensures var outcome := Outcome(available, candidates, policy);
            r == if outcome.Failure? then Failure(outcome.error)
                 else if Blank(proposalId) || Blank(journeyId) || Blank(currencyOrUnit) then Failure(MissingIdentity)
                 else Success(Proposal(proposalId, journeyId, currencyOrUnit, available, outcome.value))
  {
    var decided := DecideLines(available, candidates, policy);
    if decided.Failure? {
      return Failure(decided.error);
    }
    OutcomeFits(available, candidates, policy);
    r := MakeProposal(proposalId, journeyId, currencyOrUnit, available, decided.value);
  }

  /** The proposal constructor with its checks, in order. */
  method MakeProposal(proposalId: string, journeyId: string, currencyOrUnit: string,
                      available: real, lines: seq<AllocationLine>)
    returns (r: Result<Proposal, AllocationError>)
    ensures r == if Blank(proposalId) || Blank(journeyId) || Blank(currencyOrUnit) then Failure(MissingIdentity)
                 else if available < 0.0 then Failure(NegativeAvailable)
                 else if Deployed(lines) > available then Failure(OverAllocation)
                 else Success(Proposal(proposalId, journeyId, currencyOrUnit, available, lines))
  {
    if Blank(proposalId) || Blank(journeyId) || Blank(currencyOrUnit) {
      return Failure(MissingIdentity);
    }
    if available < 0.0 {
      return Failure(NegativeAvailable);
    }
    var total := SumAmounts(lines);
    if total > available {
      return Failure(OverAllocation);
    }
    return Success(Proposal(proposalId, journeyId, currencyOrUnit, available, lines));
  }

  // ----- conservation -----

  function UncappedBy(available: real, total: Positive): AllocationCandidate -> real {
    (c: AllocationCandidate) => Uncapped(available, total, c)
  }

  function CappedBy(available: real, total: Positive, policy: AllocationPolicy): AllocationCandidate -> real {
    (c: AllocationCandidate) => Capped(available, policy, c.target, Uncapped(available, total, c))
  }

  lemma {:induction false} SumOfMap<T, U>(f: T -> U, h: U -> real, g: T -> real, s: seq<T>)
    requires forall x :: x in s ==> g(x) == h(f(x))
    ensures SumBy(h, Map(f, s)) == SumBy(g, s)
  {
    if s != [] {
      var n := |s| - 1;
      MapAt(f, s);
      MapAt(f, s[..n]);
      SumOfMap(f, h, g, s[..n]);
      assert Map(f, s)[..n] == Map(f, s[..n]);
      assert Map(f, s)[n] == f(s[n]);
    }
  }

  lemma DeployedPerCandidate(
      available: real, total: Positive, policy: AllocationPolicy, cs: seq<AllocationCandidate>)
    ensures Deployed(LinesFor(available, total, policy, cs)) == SumBy(CappedBy(available, total, policy), cs)
  {
    SumOfMap(LineBy(available, total, policy), AmountOf, CappedBy(available, total, policy), cs);
  }

  /** Before caps the shares of the whole sum to the whole. */
  lemma UncappedSumsToAvailable(available: real, cs: seq<AllocationCandidate>)
    requires SumBy(Weight, cs) > 0.0
    ensures SumBy(UncappedBy(available, SumBy(Weight, cs)), cs) == available
  {
    var total: Positive := SumBy(Weight, cs);
    SharesSum(available / total, available, total, cs);
    Undivide(available, total);
  }

  lemma SharesSum(k: real, available: real, total: Positive, cs: seq<AllocationCandidate>)
    requires k == available / total
    ensures SumBy(UncappedBy(available, total), cs) == k * SumBy(Weight, cs)
  {
    forall c | c in cs ensures UncappedBy(available, total)(c) == k * Weight(c) {
      Reassociate(available, Weight(c), total);
    }
    SumScale(k, Weight, UncappedBy(available, total), cs);
  }

  lemma Undivide(x: real, y: Positive)
    ensures (x / y) * y == x
  {
  }

  lemma Reassociate(a: real, w: real, total: Positive)
    ensures a * w / total == (a / total) * w
  {
  }

  /** No cap bites: the candidate's share of the weight stays within both of its caps. */
  ghost predicate WithinCaps(policy: AllocationPolicy, total: Positive, c: AllocationCandidate) {
    && c.score * c.confidence <= policy.maximumCandidateShare * total
    && (c.target in policy.targetCaps ==> c.score * c.confidence <= policy.targetCaps[c.target] * total)
  }

  lemma CappedVersusUncapped(available: real, total: Positive, policy: AllocationPolicy, c: AllocationCandidate)
    requires available > 0.0
    ensures CappedBy(available, total, policy)(c) <= UncappedBy(available, total)(c)
    ensures CappedBy(available, total, policy)(c) == UncappedBy(available, total)(c)
            <==> WithinCaps(policy, total, c)
  {
    var share := Weight(c) / total;
    ShareOfAvailable(available, total, c);
    CappedIsAmountIff(available, policy, c.target, Uncapped(available, total, c));
    ScaledOrder(available, share, policy.maximumCandidateShare);
    ShareOrder(Weight(c), total, policy.maximumCandidateShare);
    if c.target in policy.targetCaps {
      ScaledOrder(available, share, policy.targetCaps[c.target]);
      ShareOrder(Weight(c), total, policy.targetCaps[c.target]);
    }
  }

  lemma ShareOrder(w: real, total: Positive, cap: real)
    ensures w / total <= cap <==> w <= cap * total
  {
    Undivide(w, total);
    ScaledOrder(total, w / total, cap);
  }

  lemma CappedIsAmountIff(available: real, policy: AllocationPolicy, target: AllocationTarget, amount: real)
    ensures Capped(available, policy, target, amount) <= amount
    ensures Capped(available, policy, target, amount) == amount
            <==> && amount <= available * policy.maximumCandidateShare
                 && (target in policy.targetCaps ==> amount <= available * policy.targetCaps[target])
  {
  }

  lemma ShareOfAvailable(available: real, total: Positive, c: AllocationCandidate)
    ensures Uncapped(available, total, c) == available * (Weight(c) / total)
  {
  }

  lemma ScaledOrder(available: real, x: real, y: real)
    requires available > 0.0
    ensures available * x <= available * y <==> x <= y
  {
    if x <= y {
      assert available * (y - x) >= 0.0;
    } else {
      assert available * (x - y) > 0.0;
    }
  }

  lemma DeployedBounds(available: real, candidates: seq<AllocationCandidate>, policy: AllocationPolicy)
    requires available > 0.0 && SumBy(Weight, Eligible(policy, candidates)) > 0.0
    ensures var eligible := Eligible(policy, candidates);
            var deployed := Deployed(ProposedLines(available, candidates, policy));
            && deployed <= available
            && (deployed == available
                <==> forall c :: c in eligible ==> WithinCaps(policy, SumBy(Weight, eligible), c))
  {
    var eligible := Eligible(policy, candidates);
    var total: Positive := SumBy(Weight, eligible);
    var ordered := Sort(ByReference, eligible);
    var f, g := CappedBy(available, total, policy), UncappedBy(available, total);
    DeployedPerCandidate(available, total, policy, ordered);
    SortPermutes(ByReference, eligible);
    SumPermutation(f, ordered, eligible);
    UncappedSumsToAvailable(available, eligible);
    forall c | c in eligible ensures f(c) <= g(c) && (f(c) == g(c) <==> WithinCaps(policy, total, c)) {
      CappedVersusUncapped(available, total, policy, c);
    }
    SumMonotone(f, g, eligible);
  }

  /** In exact arithmetic the proposed lines never exceed the available amount. */
  lemma NeverOverAllocates(available: real, candidates: seq<AllocationCandidate>, policy: AllocationPolicy)
    requires available > 0.0 && SumBy(Weight, Eligible(policy, candidates)) > 0.0
    ensures Deployed(ProposedLines(available, candidates, policy)) <= available
  {
    DeployedBounds(available, candidates, policy);
  }

  /** The whole amount is deployed exactly when no cap bites on any eligible candidate. */
  lemma FullDeploymentIff(available: real, candidates: seq<AllocationCandidate>, policy: AllocationPolicy)
    requires available > 0.0 && SumBy(Weight, Eligible(policy, candidates)) > 0.0
    ensures var eligible := Eligible(policy, candidates);
            Deployed(ProposedLines(available, candidates, policy)) == available
            <==> forall c :: c in eligible ==> WithinCaps(policy, SumBy(Weight, eligible), c)
  {
    DeployedBounds(available, candidates, policy);
  }

  // ----- caps -----

  /** The amount is not negative and within the candidate cap and the target's cap, if any. */
  ghost predicate RespectsCaps(available: real, policy: AllocationPolicy, line: AllocationLine) {
    && 0.0 <= line.proposedAmount <= available * policy.maximumCandidateShare
    && (line.target in policy.targetCaps ==> line.proposedAmount <= available * policy.targetCaps[line.target])
  }

  lemma LineCaps(available: real, total: Positive, policy: AllocationPolicy, c: AllocationCandidate)
    requires available >= 0.0 && c.score >= 0.0 && c.confidence >= 0.0 && policy.Valid()
    ensures RespectsCaps(available, policy, LineFor(available, total, policy, c))
  {
    UncappedNonNegative(available, total, c);
    CappedWithin(available, policy, c.target, Uncapped(available, total, c));
  }

  lemma UncappedNonNegative(available: real, total: Positive, c: AllocationCandidate)
    requires available >= 0.0 && c.score >= 0.0 && c.confidence >= 0.0
    ensures Uncapped(available, total, c) >= 0.0
  {
    Products(c.score, c.confidence);
    Products(available, Weight(c));
    Quotient(available * Weight(c), total);
  }

  lemma CappedWithin(available: real, policy: AllocationPolicy, target: AllocationTarget, amount: real)
    requires available >= 0.0 && policy.Valid() && amount >= 0.0
    ensures 0.0 <= Capped(available, policy, target, amount) <= available * policy.maximumCandidateShare
    ensures target in policy.targetCaps ==>
              Capped(available, policy, target, amount) <= available * policy.targetCaps[target]
  {
    Products(available, policy.maximumCandidateShare);
    if target in policy.targetCaps {
      Products(available, policy.targetCaps[target]);
    }
  }

  lemma Products(x: real, y: real)
    requires x >= 0.0 && y >= 0.0
    ensures x * y >= 0.0
  {
  }

  lemma Quotient(x: real, y: Positive)
    requires x >= 0.0
    ensures x / y >= 0.0
  {
  }

  /** Every proposed line comes from an eligible candidate and respects both of its caps. */
  lemma ProposedLinesCapped(available: real, candidates: seq<AllocationCandidate>, policy: AllocationPolicy)
    requires available >= 0.0 && AllValid(candidates) && policy.Valid()
    requires SumBy(Weight, Eligible(policy, candidates)) > 0.0
    ensures |ProposedLines(available, candidates, policy)| == |Eligible(policy, candidates)|
    ensures forall line :: line in ProposedLines(available, candidates, policy) ==>
              RespectsCaps(available, policy, line)
  {
    var eligible := Eligible(policy, candidates);
    EligibleMultiset(policy, candidates);
    SortPermutes(ByReference, eligible);
    MapAt(LineBy(available, SumBy(Weight, eligible), policy), Sort(ByReference, eligible));
    LinesCapped(available, SumBy(Weight, eligible), policy, Sort(ByReference, eligible));
  }

  lemma {:induction false} LinesCapped(
      available: real, total: Positive, policy: AllocationPolicy, cs: seq<AllocationCandidate>)
    requires available >= 0.0 && policy.Valid() && AllValid(cs)
    ensures forall line :: line in LinesFor(available, total, policy, cs) ==> RespectsCaps(available, policy, line)
  {
    var lines := LinesFor(available, total, policy, cs);
    forall line | line in lines ensures RespectsCaps(available, policy, line) {
      var c := MapMember(LineBy(available, total, policy), cs, line);
      assert c.Valid();
      LineCaps(available, total, policy, c);
    }
  }

  /** The amount is the largest one that the candidate's part of the total weight and its caps allow. */
  lemma LineAmountExact(available: real, total: Positive, policy: AllocationPolicy, c: AllocationCandidate, x: real)
    ensures x <= LineFor(available, total, policy, c).proposedAmount
            <==> && x * total <= available * (c.score * c.confidence)
                 && x <= available * policy.maximumCandidateShare
                 && (c.target in policy.targetCaps ==> x <= available * policy.targetCaps[c.target])
  {
    QuotientOrder(x, available * Weight(c), total);
  }

  lemma QuotientOrder(x: real, y: real, total: Positive)
    ensures x <= y / total <==> x * total <= y
  {
    Undivide(y, total);
    ScaledOrder(total, x, y / total);
  }

  /** Uncapped amounts are in proportion to score times confidence. */
  lemma AmountsProportional(available: real, total: Positive, c: AllocationCandidate, d: AllocationCandidate)
    ensures Uncapped(available, total, c) * (d.score * d.confidence)
         == Uncapped(available, total, d) * (c.score * c.confidence)
  {
    Reassociate(available, Weight(c), total);
    Reassociate(available, Weight(d), total);
    Swap(available / total, Weight(c), Weight(d));
  }

  lemma Swap(k: real, x: real, y: real)
    ensures (k * x) * y == (k * y) * x
  {
  }

  /** Every eligible candidate gets one line, nobody else does, and the lines are ordered by id. */
  lemma ProposedLinesCoverEligible(available: real, candidates: seq<AllocationCandidate>, policy: AllocationPolicy)
    requires SumBy(Weight, Eligible(policy, candidates)) > 0.0
    ensures var eligible := Eligible(policy, candidates);
            multiset(ProposedLines(available, candidates, policy))
            == multiset(LinesFor(available, SumBy(Weight, eligible), policy, eligible))
    ensures Sorted(ByLineReference, ProposedLines(available, candidates, policy))
  {
    var eligible := Eligible(policy, candidates);
    var lines := LinesFor(available, SumBy(Weight, eligible), policy, eligible);
    LinesOfSorted(available, SumBy(Weight, eligible), policy, eligible);
    SortPermutes(ByLineReference, lines);
    ByLineReferencePreorder();
    SortSorted(ByLineReference, lines);
  }

  function TargetAmount(target: AllocationTarget): AllocationLine -> real {
    (line: AllocationLine) => if line.target == target then line.proposedAmount else 0.0
  }

  function TargetTotal(lines: seq<AllocationLine>, target: AllocationTarget): real {
    SumBy(TargetAmount(target), lines)
  }

  function OneIf(target: AllocationTarget): AllocationLine -> real {
    (line: AllocationLine) => if line.target == target then 1.0 else 0.0
  }

  /** How many lines a target has. */
  function TargetCount(lines: seq<AllocationLine>, target: AllocationTarget): real {
    SumBy(OneIf(target), lines)
  }

  /**
   The cap of a target binds line by line, so a target as a whole is only bounded by the
   number of its lines times the cap.
   */
  lemma TargetTotalBound(lines: seq<AllocationLine>, target: AllocationTarget, cap: real)
    requires forall line :: line in lines && line.target == target ==> line.proposedAmount <= cap
    ensures TargetTotal(lines, target) <= cap * TargetCount(lines, target)
  {
    SumMonotone(TargetAmount(target), CapIf(target, cap), lines);
    CapsPerLine(lines, target, cap);
  }

  function CapIf(target: AllocationTarget, cap: real): AllocationLine -> real {
    (line: AllocationLine) => if line.target == target then cap else 0.0
  }

  lemma CapsPerLine(lines: seq<AllocationLine>, target: AllocationTarget, cap: real)
    ensures SumBy(CapIf(target, cap), lines) == cap * TargetCount(lines, target)
  {
    forall line | line in lines ensures CapIf(target, cap)(line) == cap * OneIf(target)(line) {
    }
    SumScale(cap, OneIf(target), CapIf(target, cap), lines);
  }

  /** What a candidate of the target would get if the target had no cap. */
  function Demand(available: real, total: Positive, policy: AllocationPolicy, target: AllocationTarget)
    : AllocationCandidate -> real
  {
    (c: AllocationCandidate) =>
      if c.target == target then Min(Uncapped(available, total, c), available * policy.maximumCandidateShare) else 0.0
  }

  lemma TargetLines(available: real, total: Positive, policy: AllocationPolicy, target: AllocationTarget,
                    cs: seq<AllocationCandidate>)
    requires target in policy.targetCaps && 0.0 <= available * policy.targetCaps[target]
    ensures TargetTotal(LinesFor(available, total, policy, cs), target)
         == SumBy(CappedAt(Demand(available, total, policy, target), available * policy.targetCaps[target]), cs)
  {
    var g := CappedAt(Demand(available, total, policy, target), available * policy.targetCaps[target]);
    forall c | c in cs ensures g(c) == TargetAmount(target)(LineBy(available, total, policy)(c)) {
      CappedDemand(available, total, policy, target, c);
    }
    SumOfMap(LineBy(available, total, policy), TargetAmount(target), g, cs);
  }

  lemma CappedDemand(available: real, total: Positive, policy: AllocationPolicy, target: AllocationTarget,
                     c: AllocationCandidate)
    requires target in policy.targetCaps && 0.0 <= available * policy.targetCaps[target]
    ensures CappedAt(Demand(available, total, policy, target), available * policy.targetCaps[target])(c)
         == TargetAmount(target)(LineFor(available, total, policy, c))
  {
    var demand, cap := Demand(available, total, policy, target), available * policy.targetCaps[target];
    if c.target == target {
      assert LineFor(available, total, policy, c).proposedAmount == Min(demand(c), cap);
    } else {
      assert demand(c) == 0.0;
    }
  }

  lemma DemandNonNegative(available: real, total: Positive, policy: AllocationPolicy, target: AllocationTarget,
                          c: AllocationCandidate)
    requires available >= 0.0 && c.Valid() && policy.Valid()
    ensures Demand(available, total, policy, target)(c) >= 0.0
  {
    UncappedNonNegative(available, total, c);
    Products(available, policy.maximumCandidateShare);
  }

  /**
   Although target caps bind line by line, a target as a whole keeps within its cap exactly
   when the cap is zero, when its candidates would have kept within it without one, or when
   at most one of them is due anything.
   */
  lemma TargetWithinCapIff(available: real, candidates: seq<AllocationCandidate>, policy: AllocationPolicy,
                           target: AllocationTarget)
    requires available >= 0.0 && AllValid(candidates) && policy.Valid() && target in policy.targetCaps
    requires SumBy(Weight, Eligible(policy, candidates)) > 0.0
    ensures var eligible, cap := Eligible(policy, candidates), available * policy.targetCaps[target];
            var demand := Demand(available, SumBy(Weight, eligible), policy, target);
            TargetTotal(ProposedLines(available, candidates, policy), target) <= cap
            <==> cap == 0.0 || SumBy(demand, eligible) <= cap || AtMostOneTerm(demand, eligible)
  {
    var eligible, cap := Eligible(policy, candidates), available * policy.targetCaps[target];
    var total: Positive := SumBy(Weight, eligible);
    var demand, ordered := Demand(available, total, policy, target), Sort(ByReference, eligible);
    Products(available, policy.targetCaps[target]);
    TargetLines(available, total, policy, target, ordered);
    SortPermutes(ByReference, eligible);
    SumPermutation(CappedAt(demand, cap), ordered, eligible);
    EligibleMultiset(policy, candidates);
    forall c | c in eligible ensures demand(c) >= 0.0 {
      DemandNonNegative(available, total, policy, target, c);
    }
    CappedSumIff(demand, eligible, cap);
  }

  /** Two equal research candidates under a policy that caps research at a quarter. */
  function TwoResearchers(): seq<AllocationCandidate> {
    [AllocationCandidate("a", Research, ["i"], 1.0, 1.0, "x"), AllocationCandidate("b", Research, ["i"], 1.0, 1.0, "y")]
  }

  function QuarterForResearch(): AllocationPolicy {
    AllocationPolicy(0.0, 1.0, 1.0, map[Research := 0.25])
  }

  lemma EligibleOfTwo(policy: AllocationPolicy, x: AllocationCandidate, y: AllocationCandidate)
    requires IsEligible(policy, x) && IsEligible(policy, y)
    ensures Eligible(policy, [x, y]) == [x, y]
  {
    assert [x, y][..1] == [x] && [x][..0] == [];
    assert Eligible(policy, [x]) == [x];
  }

  lemma SortOfTwo(x: AllocationCandidate, y: AllocationCandidate)
    requires ByReference(x, y)
    ensures Sort(ByReference, [x, y]) == [x, y]
  {
    assert [x, y][1..] == [y] && [y][1..] == [];
    assert Sort(ByReference, [y]) == [y];
  }

  lemma TwoResearchersEligible()
    ensures Eligible(QuarterForResearch(), TwoResearchers()) == TwoResearchers()
    ensures SumBy(Weight, TwoResearchers()) == 2.0
    ensures Sort(ByReference, TwoResearchers()) == TwoResearchers()
  {
    var x, y := TwoResearchers()[0], TwoResearchers()[1];
    EligibleOfTwo(QuarterForResearch(), x, y);
    SumOfTwo(Weight, x, y);
    SortOfTwo(x, y);
    assert TwoResearchers() == [x, y];
  }

  lemma LinesOfTwo(x: AllocationLine, y: AllocationLine)
    requires x.target == y.target == Research && x.proposedAmount == y.proposedAmount == 25.0
    ensures TargetTotal([x, y], Research) == 50.0 && Deployed([x, y]) == 50.0
  {
    SumOfTwo(TargetAmount(Research), x, y);
    SumOfTwo(AmountOf, x, y);
  }

  lemma SumOfTwo<T>(f: T -> real, x: T, y: T)
    ensures SumBy(f, [x, y]) == f(x) + f(y)
  {
    assert [x, y] == [x] + [y];
    SumAppend(f, [x], [y]);
    SumOne(f, x);
    SumOne(f, y);
  }

  lemma AuthorityWithinDeployed(lines: seq<AllocationLine>, authority: string)
    requires forall line :: line in lines ==> line.proposedAmount >= 0.0
    ensures AuthorityTotal(lines, authority) <= Deployed(lines)
  {
    SumMonotone(ShareOf(LineAuthority, AmountOf, authority), AmountOf, lines);
  }

  lemma TwoResearchersValid()
    ensures AllValid(TwoResearchers())
  {
    forall t: string | t == "a" || t == "b" || t == "x" || t == "y" ensures !Blank(t) {
      BlankIffAllSpace(t);
      assert !IsSpace(t[0]);
    }
  }

  lemma TwoResearchersLines(lines: seq<AllocationLine>)
    requires lines == LinesFor(100.0, 2.0, QuarterForResearch(), TwoResearchers())
    ensures |lines| == 2
    ensures forall line :: line in lines ==> line.target == Research && line.proposedAmount == 25.0
  {
    MapAt(LineBy(100.0, 2.0, QuarterForResearch()), TwoResearchers());
  }

  lemma SmallAuthoritiesPass(lines: seq<AllocationLine>, ceiling: real)
    requires forall line :: line in lines ==> line.proposedAmount >= 0.0
    requires Deployed(lines) <= ceiling
    ensures FailClosed(lines, ceiling) == Success(lines)
  {
    forall a ensures AuthorityTotal(lines, a) <= ceiling {
      AuthorityWithinDeployed(lines, a);
    }
    ExceedsIff(lines, ceiling);
  }

  /** Their proposal is made, each line keeps the cap, and the two together are at twice the cap. */
  lemma TargetTotalMayExceedCap()
    ensures QuarterForResearch().Valid() && AllValid(TwoResearchers())
    ensures var outcome := Outcome(100.0, TwoResearchers(), QuarterForResearch());
            outcome.Success? && TargetTotal(outcome.value, Research) == 50.0 > 100.0 * 0.25
  {
    TwoResearchersValid();
    TwoResearchersEligible();
    var lines := LinesOrNone(100.0, TwoResearchers(), QuarterForResearch());
    TwoResearchersLines(lines);
    LinesOfTwo(lines[0], lines[1]);
    assert lines == [lines[0], lines[1]];
    SmallAuthoritiesPass(lines, 100.0);
  }

  // ----- authorities -----

  lemma DecisionWithinCeiling(available: real, candidates: seq<AllocationCandidate>, policy: AllocationPolicy,
                              ceiling: real, lines: seq<AllocationLine>, authority: string)
    requires ceiling >= 0.0 && Decision(available, candidates, policy, ceiling) == Success(lines)
    ensures AuthorityTotal(lines, authority) <= ceiling
  {
    ExceedsIff(lines, ceiling);
    if authority !in Keys(LineAuthority, lines) {
      AuthorityAbsent(lines, authority);
    }
  }

  /** Accepted lines leave no authority, listed or not, above its ceiling. */
  lemma AuthoritiesWithinCeiling(available: real, candidates: seq<AllocationCandidate>, policy: AllocationPolicy,
                                 lines: seq<AllocationLine>, authority: string)
    requires available >= 0.0 && policy.maximumAuthorityShare >= 0.0
    requires Outcome(available, candidates, policy) == Success(lines)
    ensures AuthorityTotal(lines, authority) <= available * policy.maximumAuthorityShare
  {
    Products(available, policy.maximumAuthorityShare);
    DecisionWithinCeiling(available, candidates, policy, Ceiling(available, policy), lines, authority);
  }

  /** Regrouping the lines by authority loses nothing. */
  lemma AuthorityTotalsConserve(lines: seq<AllocationLine>)
    ensures SumBy(TotalOf(LineAuthority, AmountOf, lines), Keys(LineAuthority, lines)) == Deployed(lines)
  {
    KeysAre(LineAuthority, lines);
    RegroupConserves(LineAuthority, AmountOf, lines, Keys(LineAuthority, lines));
  }

  // ----- order of the candidates -----

  lemma ByLineReferencePreorder()
    ensures TotalPreorder(ByLineReference)
  {
    LexIsPreorder();
  }

  /** Sorting the candidates and then writing the lines is sorting the written lines. */
  lemma LinesOfSorted(available: real, total: Positive, policy: AllocationPolicy, cs: seq<AllocationCandidate>)
    ensures LinesFor(available, total, policy, Sort(ByReference, cs))
         == Sort(ByLineReference, LinesFor(available, total, policy, cs))
  {
    MapSort(LineBy(available, total, policy), ByReference, ByLineReference, cs);
  }

  lemma EligiblePermutation(policy: AllocationPolicy, a: seq<AllocationCandidate>, b: seq<AllocationCandidate>)
    requires multiset(a) == multiset(b)
    ensures multiset(Eligible(policy, a)) == multiset(Eligible(policy, b))
  {
    EligibleMultiset(policy, a);
    EligibleMultiset(policy, b);
  }

  lemma WeightPermutation(policy: AllocationPolicy, a: seq<AllocationCandidate>, b: seq<AllocationCandidate>)
    requires multiset(a) == multiset(b)
    ensures SumBy(Weight, Eligible(policy, a)) == SumBy(Weight, Eligible(policy, b))
  {
    EligiblePermutation(policy, a, b);
    SumPermutation(Weight, Eligible(policy, a), Eligible(policy, b));
  }

  /** Eligible candidates with the same reference id would be given the same line. */
  ghost predicate LinesFollowIds(available: real, candidates: seq<AllocationCandidate>, policy: AllocationPolicy)
    requires SumBy(Weight, Eligible(policy, candidates)) > 0.0
  {
    var eligible := Eligible(policy, candidates);
    var total: Positive := SumBy(Weight, eligible);
    forall x, y :: x in eligible && y in eligible && x.referenceId == y.referenceId ==>
      LineFor(available, total, policy, x) == LineFor(available, total, policy, y)
  }

  lemma LinesTieFree(available: real, candidates: seq<AllocationCandidate>, policy: AllocationPolicy)
    requires SumBy(Weight, Eligible(policy, candidates)) > 0.0
    requires LinesFollowIds(available, candidates, policy)
    ensures var eligible := Eligible(policy, candidates);
            TieFree(ByLineReference, LinesFor(available, SumBy(Weight, eligible), policy, eligible))
  {
    var eligible := Eligible(policy, candidates);
    var lines := LinesFor(available, SumBy(Weight, eligible), policy, eligible);
    forall x, y | x in lines && y in lines && Tied(ByLineReference, x, y) ensures x == y {
      var c := MapMember(LineBy(available, SumBy(Weight, eligible), policy), eligible, x);
      var d := MapMember(LineBy(available, SumBy(Weight, eligible), policy), eligible, y);
      LexAntisymmetric(x.candidateReferenceId, y.candidateReferenceId);
      assert c.referenceId == d.referenceId;
    }
  }

  lemma OrderIrrelevant(
      available: real, a: seq<AllocationCandidate>, b: seq<AllocationCandidate>, policy: AllocationPolicy)
    requires multiset(a) == multiset(b)
    requires SumBy(Weight, Eligible(policy, a)) > 0.0 && LinesFollowIds(available, a, policy)
    ensures SumBy(Weight, Eligible(policy, b)) > 0.0
    ensures ProposedLines(available, b, policy) == ProposedLines(available, a, policy)
  {
    EligiblePermutation(policy, a, b);
    WeightPermutation(policy, a, b);
    var ea, eb := Eligible(policy, a), Eligible(policy, b);
    var total: Positive := SumBy(Weight, ea);
    MapPermutation(LineBy(available, total, policy), ea, eb);
    LinesTieFree(available, a, policy);
    ByLineReferencePreorder();
    SortCanonical(ByLineReference, LinesFor(available, total, policy, ea), LinesFor(available, total, policy, eb));
    LinesOfSorted(available, total, policy, ea);
    LinesOfSorted(available, total, policy, eb);
  }

  lemma {:induction false} EligibleAppend(
      policy: AllocationPolicy, a: seq<AllocationCandidate>, b: seq<AllocationCandidate>)
    ensures Eligible(policy, a + b) == Eligible(policy, a) + Eligible(policy, b)
  {
    if b == [] {
      assert a + b == a;
    } else {
      EligibleAppend(policy, a, b[..|b| - 1]);
      assert (a + b)[..|a + b| - 1] == a + b[..|b| - 1];
    }
  }

  lemma FirstTiedLine(available: real, candidates: seq<AllocationCandidate>, policy: AllocationPolicy,
                      x: AllocationCandidate, y: AllocationCandidate, rest: seq<AllocationCandidate>)
    requires candidates == [x, y] + rest && IsEligible(policy, x) && IsEligible(policy, y)
    requires SumBy(Weight, Eligible(policy, candidates)) > 0.0
    ensures var total: Positive := SumBy(Weight, Eligible(policy, candidates));
            var line := LineFor(available, total, policy, x);
            var tied := TiedWith(ByLineReference, line, ProposedLines(available, candidates, policy));
            tied != [] && tied[0] == line
  {
    var eligible := Eligible(policy, candidates);
    var total: Positive := SumBy(Weight, eligible);
    EligibleAppend(policy, [x] + [y], rest);
    EligibleAppend(policy, [x], [y]);
    assert [x] + [y] == [x, y] && [x][..0] == [] && [y][..0] == [];
    assert eligible[0] == x;
    var lines := LinesFor(available, total, policy, eligible);
    var line := LineFor(available, total, policy, x);
    assert lines[0] == line;
    LexTotal(line.candidateReferenceId, line.candidateReferenceId);
    LinesOfSorted(available, total, policy, eligible);
    ByLineReferencePreorder();
    SortStable(ByLineReference, line, lines);
  }

  lemma OrderMatters(available: real, candidates: seq<AllocationCandidate>, policy: AllocationPolicy)
    returns (p: seq<AllocationCandidate>, q: seq<AllocationCandidate>)
    requires SumBy(Weight, Eligible(policy, candidates)) > 0.0
    requires !LinesFollowIds(available, candidates, policy)
    ensures multiset(p) == multiset(q) == multiset(candidates)
    ensures SumBy(Weight, Eligible(policy, p)) > 0.0 && SumBy(Weight, Eligible(policy, q)) > 0.0
    ensures ProposedLines(available, p, policy) != ProposedLines(available, q, policy)
  {
    var eligible := Eligible(policy, candidates);
    var total: Positive := SumBy(Weight, eligible);
    var x, y :| x in eligible && y in eligible && x.referenceId == y.referenceId
                && LineFor(available, total, policy, x) != LineFor(available, total, policy, y);
    EligibleMultiset(policy, candidates);
    var rest := PairToFront(candidates, x, y);
    p, q := [x, y] + rest, [y, x] + rest;
    EligiblePermutation(policy, candidates, p);
    WeightPermutation(policy, candidates, p);
    EligiblePermutation(policy, candidates, q);
    WeightPermutation(policy, candidates, q);
    FirstTiedLine(available, p, policy, x, y, rest);
    FirstTiedLine(available, q, policy, y, x, rest);
    SameTies(LineFor(available, total, policy, x), LineFor(available, total, policy, y),
             ProposedLines(available, p, policy));
  }

  lemma {:induction false} SameTies(x: AllocationLine, y: AllocationLine, lines: seq<AllocationLine>)
    requires x.candidateReferenceId == y.candidateReferenceId
    ensures TiedWith(ByLineReference, x, lines) == TiedWith(ByLineReference, y, lines)
  {
    if lines != [] {
      SameTies(x, y, lines[1..]);
    }
  }

  ghost predicate SameForAllOrders(available: real, candidates: seq<AllocationCandidate>, policy: AllocationPolicy)
    requires SumBy(Weight, Eligible(policy, candidates)) > 0.0
  {
    forall p :: multiset(p) == multiset(candidates) ==>
      && SumBy(Weight, Eligible(policy, p)) > 0.0
      && ProposedLines(available, p, policy) == ProposedLines(available, candidates, policy)
  }

  /**
   The lines are independent of the input order exactly when equal reference ids come with
   equal lines, as distinct ids always do.
   */
  lemma OrderIndependentLinesIff(available: real, candidates: seq<AllocationCandidate>, policy: AllocationPolicy)
    requires SumBy(Weight, Eligible(policy, candidates)) > 0.0
    ensures SameForAllOrders(available, candidates, policy) <==> LinesFollowIds(available, candidates, policy)
  {
    if LinesFollowIds(available, candidates, policy) {
      forall p | multiset(p) == multiset(candidates)
        ensures SumBy(Weight, Eligible(policy, p)) > 0.0
        ensures ProposedLines(available, p, policy) == ProposedLines(available, candidates, policy)
      {
        OrderIrrelevant(available, candidates, p, policy);
      }
    } else {
      var p, q := OrderMatters(available, candidates, policy);
    }
  }

  /** With lines that follow the ids, the decision does not depend on the input order. */
  lemma OutcomeOrderIndependent(
      available: real, a: seq<AllocationCandidate>, b: seq<AllocationCandidate>, policy: AllocationPolicy)
    requires multiset(a) == multiset(b)
    requires SumBy(Weight, Eligible(policy, a)) > 0.0 ==> LinesFollowIds(available, a, policy)
    ensures Outcome(available, a, policy) == Outcome(available, b, policy)
  {
    EligiblePermutation(policy, a, b);
    WeightPermutation(policy, a, b);
    SameSize(Eligible(policy, a), Eligible(policy, b));
    if SumBy(Weight, Eligible(policy, a)) > 0.0 {
      OrderIrrelevant(available, a, b, policy);
    }
  }

  lemma SameSize<T>(a: seq<T>, b: seq<T>)
    requires multiset(a) == multiset(b)
    ensures |a| == |b|
  {
    assert |a| == |multiset(a)| && |b| == |multiset(b)|;
  }

  lemma LinesPermutation(
      available: real, a: seq<AllocationCandidate>, b: seq<AllocationCandidate>, policy: AllocationPolicy)
    requires multiset(a) == multiset(b)
    ensures multiset(LinesOrNone(available, a, policy)) == multiset(LinesOrNone(available, b, policy))
  {
    EligiblePermutation(policy, a, b);
    WeightPermutation(policy, a, b);
    if SumBy(Weight, Eligible(policy, a)) > 0.0 {
      ProposedLinesCoverEligible(available, a, policy);
      ProposedLinesCoverEligible(available, b, policy);
      MapPermutation(LineBy(available, SumBy(Weight, Eligible(policy, a)), policy),
                     Eligible(policy, a), Eligible(policy, b));
    }
  }

  lemma CeilingPermutation(a: seq<AllocationLine>, b: seq<AllocationLine>, ceiling: real)
    requires multiset(a) == multiset(b)
    ensures ExceedsCeiling(a, ceiling) <==> ExceedsCeiling(b, ceiling)
  {
    GroupPermutation(LineAuthority, AmountOf, a, b);
    MultisetMembers(Keys(LineAuthority, a), Keys(LineAuthority, b));
    ExceedsIff(a, ceiling);
    ExceedsIff(b, ceiling);
  }

  lemma FailClosedPermutation(a: seq<AllocationLine>, b: seq<AllocationLine>, ceiling: real)
    requires multiset(a) == multiset(b)
    ensures FailClosed(a, ceiling).Failure? ==> FailClosed(a, ceiling) == FailClosed(b, ceiling)
  {
    CeilingPermutation(a, b, ceiling);
  }

  lemma FailedDecision(available: real, a: seq<AllocationCandidate>, b: seq<AllocationCandidate>,
                       policy: AllocationPolicy, ceiling: real)
    requires multiset(a) == multiset(b)
    ensures Decision(available, a, policy, ceiling).Failure? ==>
              Decision(available, a, policy, ceiling) == Decision(available, b, policy, ceiling)
  {
    EligiblePermutation(policy, a, b);
    WeightPermutation(policy, a, b);
    SameSize(Eligible(policy, a), Eligible(policy, b));
    LinesPermutation(available, a, b, policy);
    FailClosedPermutation(LinesOrNone(available, a, policy), LinesOrNone(available, b, policy), ceiling);
  }

  /** Errors never depend on the input order, whatever the ids. */
  lemma FailuresOrderIndependent(
      available: real, a: seq<AllocationCandidate>, b: seq<AllocationCandidate>, policy: AllocationPolicy)
    requires multiset(a) == multiset(b)
    ensures Outcome(available, a, policy).Failure? ==> Outcome(available, a, policy) == Outcome(available, b, policy)
  {
    FailedDecision(available, a, b, policy, Ceiling(available, policy));
  }

  ghost predicate SameOutcomeForAllOrders(
      available: real, candidates: seq<AllocationCandidate>, policy: AllocationPolicy)
  {
    forall p :: multiset(p) == multiset(candidates) ==>
      Outcome(available, p, policy) == Outcome(available, candidates, policy)
  }

  /** Nothing is proposed, or equal ids come with equal lines. */
  ghost predicate OrderDoesNotShow(
      available: real, candidates: seq<AllocationCandidate>, policy: AllocationPolicy)
  {
    || Outcome(available, candidates, policy).Failure?
    || Eligible(policy, candidates) == []
    || available == 0.0
    || (SumBy(Weight, Eligible(policy, candidates)) > 0.0 && LinesFollowIds(available, candidates, policy))
  }

  lemma OrderHidden(
      available: real, candidates: seq<AllocationCandidate>, p: seq<AllocationCandidate>, policy: AllocationPolicy)
    requires OrderDoesNotShow(available, candidates, policy) && multiset(p) == multiset(candidates)
    ensures Outcome(available, p, policy) == Outcome(available, candidates, policy)
  {
    if Outcome(available, candidates, policy).Failure? {
      FailuresOrderIndependent(available, candidates, p, policy);
    } else if Eligible(policy, candidates) == [] || available == 0.0 {
      EligiblePermutation(policy, candidates, p);
      WeightPermutation(policy, candidates, p);
      SameSize(Eligible(policy, candidates), Eligible(policy, p));
    } else {
      OutcomeOrderIndependent(available, candidates, p, policy);
    }
  }

  lemma OrderShows(available: real, candidates: seq<AllocationCandidate>, policy: AllocationPolicy)
    requires !OrderDoesNotShow(available, candidates, policy)
    ensures !SameOutcomeForAllOrders(available, candidates, policy)
  {
    var p, q := OrderMatters(available, candidates, policy);
    if SameOutcomeForAllOrders(available, candidates, policy) {
      LinesOfOutcome(available, candidates, p, policy);
      LinesOfOutcome(available, candidates, q, policy);
    }
  }

  /** Reads the lines off a successful decision that is not trivially empty. */
  lemma LinesOfOutcome(
      available: real, candidates: seq<AllocationCandidate>, p: seq<AllocationCandidate>, policy: AllocationPolicy)
    requires multiset(p) == multiset(candidates) && available != 0.0 && Eligible(policy, candidates) != []
    requires SumBy(Weight, Eligible(policy, p)) > 0.0 && Outcome(available, p, policy).Success?
    ensures Outcome(available, p, policy).value == ProposedLines(available, p, policy)
  {
    EligiblePermutation(policy, candidates, p);
    WeightPermutation(policy, candidates, p);
    SameSize(Eligible(policy, candidates), Eligible(policy, p));
  }

  /**
   The decision is independent of the input order exactly when it is an error, when there is
   nothing to propose, or when eligible candidates with equal ids would get equal lines.
   */
  lemma OutcomeOrderIndependentIff(
      available: real, candidates: seq<AllocationCandidate>, policy: AllocationPolicy)
    ensures SameOutcomeForAllOrders(available, candidates, policy) <==> OrderDoesNotShow(available, candidates, policy)
  {
    if OrderDoesNotShow(available, candidates, policy) {
      forall p | multiset(p) == multiset(candidates)
        ensures Outcome(available, p, policy) == Outcome(available, candidates, policy)
      {
        OrderHidden(available, candidates, p, policy);
      }
    } else {
      OrderShows(available, candidates, policy);
    }
  }

  // ----- scaling -----

  function ScaleLine(k: real, line: AllocationLine): AllocationLine {
    line.(proposedAmount := k * line.proposedAmount)
  }

  function ScaleBy(k: real): AllocationLine -> AllocationLine {
    (line: AllocationLine) => ScaleLine(k, line)
  }

  function Scale(k: real, lines: seq<AllocationLine>): seq<AllocationLine> {
    Map(ScaleBy(k), lines)
  }

  lemma MinScales(k: Positive, x: real, y: real)
    ensures Min(k * x, k * y) == k * Min(x, y)
  {
    ScaledOrder(k, x, y);
    ScaledOrder(k, y, x);
  }

  lemma CappedScales(k: Positive, available: real, policy: AllocationPolicy, target: AllocationTarget, amount: real)
    ensures Capped(k * available, policy, target, k * amount) == k * Capped(available, policy, target, amount)
  {
    var share := policy.maximumCandidateShare;
    ProductScales(k, available, share);
    MinScales(k, amount, available * share);
    if target in policy.targetCaps {
      ProductScales(k, available, policy.targetCaps[target]);
      MinScales(k, Min(amount, available * share), available * policy.targetCaps[target]);
    }
  }

  lemma ProductScales(k: real, x: real, y: real)
    ensures (k * x) * y == k * (x * y)
  {
  }

  lemma UncappedScales(k: Positive, available: real, total: Positive, c: AllocationCandidate)
    ensures Uncapped(k * available, total, c) == k * Uncapped(available, total, c)
  {
    var w := Weight(c);
    Reassociate(k * available, w, total);
    Reassociate(available, w, total);
    assert (k * available) / total == k * (available / total);
    assert (k * (available / total)) * w == k * ((available / total) * w);
  }

  lemma LineScales(k: Positive, available: real, total: Positive, policy: AllocationPolicy, c: AllocationCandidate)
    ensures LineFor(k * available, total, policy, c) == ScaleLine(k, LineFor(available, total, policy, c))
  {
    UncappedScales(k, available, total, c);
    CappedScales(k, available, policy, c.target, Uncapped(available, total, c));
  }

  /** Scaling the available amount scales every line and changes nothing else. */
  lemma {:induction false} LinesScale(
      k: Positive, available: real, total: Positive, policy: AllocationPolicy, cs: seq<AllocationCandidate>)
    ensures LinesFor(k * available, total, policy, cs) == Scale(k, LinesFor(available, total, policy, cs))
  {
    if cs != [] {
      LinesScale(k, available, total, policy, cs[1..]);
      LineScales(k, available, total, policy, cs[0]);
    }
  }

  lemma {:induction false} AuthorityTotalScales(k: real, lines: seq<AllocationLine>, authority: string)
    ensures AuthorityTotal(Scale(k, lines), authority) == k * AuthorityTotal(lines, authority)
  {
    if lines != [] {
      var n := |lines| - 1;
      var scaled := Scale(k, lines);
      MapAt(ScaleBy(k), lines);
      MapAt(ScaleBy(k), lines[..n]);
      AuthorityTotalScales(k, lines[..n], authority);
      assert scaled[..n] == Scale(k, lines[..n]);
      AuthorityTotalLast(lines, authority);
      AuthorityTotalLast(scaled, authority);
      Distribute(k, AuthorityTotal(lines[..n], authority), lines[n].proposedAmount);
    }
  }

  lemma Distribute(k: real, x: real, y: real)
    ensures k * (x + y) == k * x + k * y
  {
  }

  lemma {:induction false} KeysScale(k: real, lines: seq<AllocationLine>)
    ensures Keys(LineAuthority, Scale(k, lines)) == Keys(LineAuthority, lines)
  {
    if lines != [] {
      var n := |lines| - 1;
      MapAt(ScaleBy(k), lines);
      MapAt(ScaleBy(k), lines[..n]);
      KeysScale(k, lines[..n]);
      assert Scale(k, lines)[..n] == Scale(k, lines[..n]);
      assert LineAuthority(ScaleLine(k, lines[n])) == LineAuthority(lines[n]);
    }
  }

  lemma AuthorityTotalLast(lines: seq<AllocationLine>, authority: string)
    requires lines != []
    ensures var n := |lines| - 1;
            AuthorityTotal(lines, authority)
            == AuthorityTotal(lines[..n], authority)
               + (if lines[n].authorityKey == authority then lines[n].proposedAmount else 0.0)
    ensures LineAuthority(lines[|lines| - 1]) == lines[|lines| - 1].authorityKey
  {
    var f, last := ShareOf(LineAuthority, AmountOf, authority), lines[|lines| - 1];
    assert SumBy(f, lines) == SumBy(f, lines[..|lines| - 1]) + f(last);
    assert LineAuthority(last) == last.authorityKey && AmountOf(last) == last.proposedAmount;
  }

  /** The concentration check fails on the scaled lines exactly when it fails on the lines. */
  lemma CeilingScales(k: Positive, lines: seq<AllocationLine>, ceiling: real)
    ensures ExceedsCeiling(Scale(k, lines), k * ceiling) <==> ExceedsCeiling(lines, ceiling)
  {
    KeysScale(k, lines);
    ExceedsIff(lines, ceiling);
    ExceedsIff(Scale(k, lines), k * ceiling);
    var keys := Keys(LineAuthority, lines);
    if a :| a in keys && AuthorityTotal(lines, a) > ceiling {
      AboveScales(k, lines, a, ceiling);
      assert AuthorityTotal(Scale(k, lines), a) > k * ceiling;
    }
    if a :| a in keys && AuthorityTotal(Scale(k, lines), a) > k * ceiling {
      AboveScales(k, lines, a, ceiling);
      assert AuthorityTotal(lines, a) > ceiling;
    }
  }

  lemma AboveScales(k: Positive, lines: seq<AllocationLine>, authority: string, ceiling: real)
    ensures AuthorityTotal(Scale(k, lines), authority) > k * ceiling <==> AuthorityTotal(lines, authority) > ceiling
  {
    AuthorityTotalScales(k, lines, authority);
    ScaledOrder(k, AuthorityTotal(lines, authority), ceiling);
  }

  function ScaleOutcome(k: real, outcome: Result<seq<AllocationLine>, AllocationError>)
    : Result<seq<AllocationLine>, AllocationError>
  {
    if outcome.Success? then Success(Scale(k, outcome.value)) else outcome
  }

  lemma FailClosedScales(k: Positive, lines: seq<AllocationLine>, ceiling: real)
    ensures FailClosed(Scale(k, lines), k * ceiling) == ScaleOutcome(k, FailClosed(lines, ceiling))
  {
    CeilingScales(k, lines, ceiling);
  }

  lemma LinesOrNoneScale(k: Positive, available: real, candidates: seq<AllocationCandidate>, policy: AllocationPolicy)
    ensures LinesOrNone(k * available, candidates, policy) == Scale(k, LinesOrNone(available, candidates, policy))
  {
    var eligible := Eligible(policy, candidates);
    if SumBy(Weight, eligible) > 0.0 {
      LinesScale(k, available, SumBy(Weight, eligible), policy, Sort(ByReference, eligible));
    }
  }

  lemma DecisionScales(k: Positive, a: real, b: real, candidates: seq<AllocationCandidate>, policy: AllocationPolicy,
                       ceiling: real, raised: real)
    requires (b < 0.0 <==> a < 0.0) && (b == 0.0 <==> a == 0.0) && raised == k * ceiling
    requires LinesOrNone(b, candidates, policy) == Scale(k, LinesOrNone(a, candidates, policy))
    ensures Decision(b, candidates, policy, raised) == ScaleOutcome(k, Decision(a, candidates, policy, ceiling))
  {
    FailClosedScales(k, LinesOrNone(a, candidates, policy), ceiling);
  }

  /** The whole decision scales: same failure, or the same lines with scaled amounts. */
  lemma OutcomeScales(k: Positive, available: real, candidates: seq<AllocationCandidate>, policy: AllocationPolicy)
    ensures Outcome(k * available, candidates, policy) == ScaleOutcome(k, Outcome(available, candidates, policy))
  {
    SignScales(k, available);
    ProductScales(k, available, policy.maximumAuthorityShare);
    LinesOrNoneScale(k, available, candidates, policy);
    DecisionScales(k, available, k * available, candidates, policy,
                   Ceiling(available, policy), Ceiling(k * available, policy));
  }

  lemma SignScales(k: Positive, x: real)
    ensures k * x < 0.0 <==> x < 0.0
    ensures k * x == 0.0 <==> x == 0.0
  {
  }
}
