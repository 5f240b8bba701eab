/** The evidence-gated accelerator transitions (setc/fashion/accelerator.py) and whole runs of them. */
module Accelerator {
  import opened Wrappers

  datatype State =
    | Discover | Register | Assess | Protect | Design | Validate | Produce
    | Certify | Market | Trade | Capitalize | Scale | Measure | Reinvest

  const ORDER: seq<State> := [
    Discover, Register, Assess, Protect, Design, Validate, Produce,
    Certify, Market, Trade, Capitalize, Scale, Measure, Reinvest
  ]

  /** `ORDER.index(state)`. */
  function Index(s: State): (i: nat)
    ensures i < |ORDER| && ORDER[i] == s
  {
    match s
    case Discover => 0 case Register => 1 case Assess => 2 case Protect => 3 case Design => 4
    case Validate => 5 case Produce => 6 case Certify => 7 case Market => 8 case Trade => 9
    case Capitalize => 10 case Scale => 11 case Measure => 12 case Reinvest => 13
  }

  lemma IndexOfOrder(i: nat)
    requires i < |ORDER|
    ensures Index(ORDER[i]) == i
  {
  }

  /** The state that follows each one, which no other is between. */
  lemma NextState(s: State, t: State)
    ensures Index(t) == Index(s) + 1
            <==> match s
                 case Discover => t == Register
                 case Register => t == Assess
                 case Assess => t == Protect
                 case Protect => t == Design
                 case Design => t == Validate
                 case Validate => t == Produce
                 case Produce => t == Certify
                 case Certify => t == Market
                 case Market => t == Trade
                 case Trade => t == Capitalize
                 case Capitalize => t == Scale
                 case Scale => t == Measure
                 case Measure => t == Reinvest
                 case Reinvest => false
    ensures Index(s) == 0 <==> s == Discover
  {
  }

  datatype TransitionOutcome = Approved | RemediationRequired | Rejected | Withdrawn

  /** A mapping from states to references, in its iteration order. */
  type Equivalency = seq<(State, seq<string>)>

  datatype ParticipantBinding = ParticipantBinding(
    creatorId: Option<string>, organizationOid: Option<string>, fashionBrandId: Option<string>)
  {
    /** UUIDs are always truthy; the organization id is text and may be empty. */
    predicate Bound() {
      creatorId.Some? || (organizationOid.Some? && organizationOid.value != "") || fashionBrandId.Some?
    }
  }

  datatype TransitionRequest = TransitionRequest(
    currentState: State, requestedState: State, evidenceReferences: seq<string>, equivalency: Option<Equivalency>)
  {
    function Equivalents(): Equivalency {
      if equivalency.Some? then equivalency.value else []
    }
  }

  datatype Context = Context(subject: string, requestId: string)

  datatype TransitionDecision = TransitionDecision(
    outcome: TransitionOutcome, resultingState: State, reviewerSubject: string, requestId: string,
    rationale: Option<string>)

  datatype ContractError =
    | NoParticipant
    | MustAdvance
    | EvidenceRequired
    | EquivalencyRequired(missing: seq<State>)
    | RationaleRequired

  /** `mapping.get(state)`, with no references for an absent state. */
  function Lookup(equivalency: Equivalency, s: State): seq<string> {
    if equivalency == [] then []
    else if equivalency[0].0 == s then equivalency[0].1
    else Lookup(equivalency[1..], s)
  }

  /** The states among `states` with no equivalency references, in order. */
  function Missing(equivalency: Equivalency, states: seq<State>): seq<State> {
    if states == [] then []
    else (if Lookup(equivalency, states[0]) == [] then [states[0]] else []) + Missing(equivalency, states[1..])
  }

  /** The states strictly between the current and the requested one. */
  function Bypassed(request: TransitionRequest): seq<State>
    requires Index(request.currentState) < Index(request.requestedState)
  {
    ORDER[Index(request.currentState) + 1..Index(request.requestedState)]
  }

  function ValidateTransition(request: TransitionRequest): Option<ContractError> {
    var current, requested := Index(request.currentState), Index(request.requestedState);
    if requested <= current then Some(MustAdvance)
    else if request.evidenceReferences == [] then Some(EvidenceRequired)
    else if requested == current + 1 then None
    else
      var missing := Missing(request.Equivalents(), Bypassed(request));
      if missing != [] then Some(EquivalencyRequired(missing)) else None
  }

  function Evaluate(context: Context, participant: ParticipantBinding, request: TransitionRequest,
                    outcome: TransitionOutcome, rationale: Option<string>)
    : Result<TransitionDecision, ContractError>
  {
    if !participant.Bound() then Failure(NoParticipant)
    else
      var error := ValidateTransition(request);
      if error.Some? then Failure(error.value)
      else if outcome in {RemediationRequired, Rejected} && (rationale.None? || rationale.value == "") then
        Failure(RationaleRequired)
      else
        Success(TransitionDecision(
                  outcome,
                  if outcome == Approved then request.requestedState else request.currentState,
                  context.subject, context.requestId, rationale))
  }

  // ----- one transition -----

  lemma {:induction false} MissingIff(equivalency: Equivalency, states: seq<State>)
    ensures Missing(equivalency, states) == [] <==> forall s :: s in states ==> Lookup(equivalency, s) != []
  {
    if states != [] {
      MissingIff(equivalency, states[1..]);
      assert states == [states[0]] + states[1..] && states[0] in states;
      assert forall s :: s in states[1..] ==> s in states;
    }
  }

  /** The references that speak for the state at position `i` of a request that passes it. */
  function ReferencesAt(request: TransitionRequest, i: nat): seq<string>
    requires i < |ORDER|
  {
    if i == Index(request.requestedState) then request.evidenceReferences
    else Lookup(request.Equivalents(), ORDER[i])
  }

  predicate Covers(request: TransitionRequest, i: nat) {
    Index(request.currentState) < i <= Index(request.requestedState)
  }

  /** Every state the request passes has references. */
  ghost predicate AllEvidenced(request: TransitionRequest) {
    forall i: nat :: i < |ORDER| && Covers(request, i) ==> ReferencesAt(request, i) != []
  }

  lemma BypassedAt(request: TransitionRequest, i: nat)
    requires Index(request.currentState) < i < Index(request.requestedState)
    ensures ReferencesAt(request, i) == Lookup(request.Equivalents(), ORDER[i])
    ensures ORDER[i] in Bypassed(request)
  {
    assert Bypassed(request)[i - Index(request.currentState) - 1] == ORDER[i];
  }

  lemma SliceMember<T>(all: seq<T>, low: nat, high: nat, x: T) returns (i: nat)
    requires low <= high <= |all| && x in all[low..high]
    ensures low <= i < high && all[i] == x
  {
    var j :| 0 <= j < high - low && all[low..high][j] == x;
    i := low + j;
  }

  lemma EvidencedHasEquivalents(request: TransitionRequest, s: State)
    requires Index(request.currentState) < Index(request.requestedState) && AllEvidenced(request)
    requires s in Bypassed(request)
    ensures Lookup(request.Equivalents(), s) != []
  {
    var i := SliceMember(ORDER, Index(request.currentState) + 1, Index(request.requestedState), s);
    BypassedAt(request, i);
    assert Covers(request, i);
  }

  lemma BypassedIff(request: TransitionRequest)
    requires Index(request.currentState) < Index(request.requestedState)
    ensures AllEvidenced(request)
            <==> && request.evidenceReferences != []
                 && forall s :: s in Bypassed(request) ==> Lookup(request.Equivalents(), s) != []
  {
    var requested := Index(request.requestedState);
    if AllEvidenced(request) {
      assert Covers(request, requested) && ReferencesAt(request, requested) != [];
      forall s | s in Bypassed(request) ensures Lookup(request.Equivalents(), s) != [] {
        EvidencedHasEquivalents(request, s);
      }
    } else {
      var i: nat :| i < |ORDER| && Covers(request, i) && ReferencesAt(request, i) == [];
      if i < requested {
        BypassedAt(request, i);
      }
    }
  }

  /** A transition validates exactly when it moves forward and has references for every state it passes. */
  lemma ValidTransitionIff(request: TransitionRequest)
    ensures ValidateTransition(request).None?
            <==> Index(request.currentState) < Index(request.requestedState) && AllEvidenced(request)
  {
    var current, requested := Index(request.currentState), Index(request.requestedState);
    if current < requested {
      BypassedIff(request);
      MissingIff(request.Equivalents(), Bypassed(request));
      if requested == current + 1 {
      }
    }
  }

  lemma {:induction false} MissingAre(equivalency: Equivalency, states: seq<State>)
    ensures forall s :: s in Missing(equivalency, states) <==> s in states && Lookup(equivalency, s) == []
  {
    if states != [] {
      MissingAre(equivalency, states[1..]);
      assert states == [states[0]] + states[1..];
    }
  }

  ghost predicate InOrder(states: seq<State>) {
    forall i, j :: 0 <= i < j < |states| ==> Index(states[i]) < Index(states[j])
  }

  lemma {:induction false} MissingInOrder(equivalency: Equivalency, states: seq<State>)
    requires InOrder(states)
    ensures InOrder(Missing(equivalency, states))
  {
    if states != [] {
      var rest, missing := states[1..], Missing(equivalency, states[1..]);
      MissingInOrder(equivalency, rest);
      MissingAre(equivalency, rest);
      forall s | s in missing ensures Index(states[0]) < Index(s) {
        var i :| 0 <= i < |rest| && rest[i] == s;
        assert states[i + 1] == s;
      }
      InOrderCons(states[0], missing);
    }
  }

  lemma InOrderCons(first: State, rest: seq<State>)
    requires InOrder(rest) && forall s :: s in rest ==> Index(first) < Index(s)
    ensures InOrder([first] + rest)
  {
    var all := [first] + rest;
    forall i, j | 0 <= i < j < |all| ensures Index(all[i]) < Index(all[j]) {
      assert all[j] == rest[j - 1] && rest[j - 1] in rest;
    }
  }

  lemma BypassedIndex(request: TransitionRequest, i: nat)
    requires Index(request.currentState) + 1 + i < Index(request.requestedState)
    ensures i < |Bypassed(request)| && Index(Bypassed(request)[i]) == Index(request.currentState) + 1 + i
  {
    IndexOfOrder(Index(request.currentState) + 1 + i);
  }

  lemma BypassedInOrder(request: TransitionRequest)
    requires Index(request.currentState) < Index(request.requestedState)
    ensures InOrder(Bypassed(request))
  {
    forall i, j | 0 <= i < j < |Bypassed(request)| ensures Index(Bypassed(request)[i]) < Index(Bypassed(request)[j]) {
      BypassedIndex(request, i);
      BypassedIndex(request, j);
    }
  }

  lemma BypassedMember(request: TransitionRequest, s: State)
    requires Index(request.currentState) < Index(request.requestedState)
    ensures s in Bypassed(request) <==> Index(request.currentState) < Index(s) < Index(request.requestedState)
  {
    if s in Bypassed(request) {
      var i :| 0 <= i < |Bypassed(request)| && Bypassed(request)[i] == s;
      BypassedIndex(request, i);
    }
    if Index(request.currentState) < Index(s) < Index(request.requestedState) {
      BypassedAt(request, Index(s));
    }
  }

  /** A refusal for want of equivalency names, in order, exactly the states passed over without references. */
  lemma MissingReported(request: TransitionRequest, missing: seq<State>)
    requires ValidateTransition(request) == Some(EquivalencyRequired(missing))
    ensures InOrder(missing) && missing != []
    ensures forall s :: s in missing
                        <==> && Index(request.currentState) < Index(s) < Index(request.requestedState)
                             && Lookup(request.Equivalents(), s) == []
  {
    forall s ensures s in Bypassed(request)
                     <==> Index(request.currentState) < Index(s) < Index(request.requestedState)
    {
      BypassedMember(request, s);
    }
    BypassedInOrder(request);
    MissingAre(request.Equivalents(), Bypassed(request));
    MissingInOrder(request.Equivalents(), Bypassed(request));
  }

  // ----- runs -----

  datatype Step = Step(
    context: Context, participant: ParticipantBinding, request: TransitionRequest,
    outcome: TransitionOutcome, rationale: Option<string>)
  {
    function Decision(): Result<TransitionDecision, ContractError> {
      Evaluate(context, participant, request, outcome, rationale)
    }

    predicate IsApproved() {
      Decision().Success? && outcome == Approved
    }

    /** Where the step leaves its request's current state; an error leaves it in place. */
    function After(): State {
      if Decision().Success? then Decision().value.resultingState else request.currentState
    }
  }

  /** A step is decided, rather than refused, exactly under these conditions. */
  lemma DecidedIff(step: Step)
    ensures step.Decision().Success?
            <==> && step.participant.Bound()
                 && Index(step.request.currentState) < Index(step.request.requestedState)
                 && AllEvidenced(step.request)
                 && (step.outcome == RemediationRequired || step.outcome == Rejected
                     ==> step.rationale.Some? && step.rationale.value != "")
  {
    ValidTransitionIff(step.request);
  }

  /** Nothing to show: no text, or an empty one. */
  predicate Absent(text: Option<string>) {
    text.None? || text.value == ""
  }

  /** Each refusal has its one condition, in the order of the checks, and a decision repeats what it was asked. */
  lemma RefusalReasons(step: Step)
    ensures var request, participant, decision := step.request, step.participant, step.Decision();
            var unbound := && participant.creatorId.None? && participant.fashionBrandId.None?
                           && Absent(participant.organizationOid);
            var forward := Index(request.currentState) < Index(request.requestedState);
            && (decision == Failure(NoParticipant) <==> unbound)
            && (decision == Failure(MustAdvance) <==> !unbound && !forward)
            && (decision == Failure(EvidenceRequired) <==> !unbound && forward && request.evidenceReferences == [])
            && (decision == Failure(RationaleRequired)
                <==> && !unbound && forward && AllEvidenced(request)
                     && (step.outcome == RemediationRequired || step.outcome == Rejected) && Absent(step.rationale))
  {
    ValidTransitionIff(step.request);
    EvidenceComesFirst(step.request);
  }

  lemma EvidenceComesFirst(request: TransitionRequest)
    ensures ValidateTransition(request) == Some(MustAdvance)
            <==> Index(request.requestedState) <= Index(request.currentState)
    ensures ValidateTransition(request) == Some(EvidenceRequired)
            <==> Index(request.currentState) < Index(request.requestedState) && request.evidenceReferences == []
    ensures ValidateTransition(request) !in {Some(NoParticipant), Some(RationaleRequired)}
  {
  }

  /** Each request starts from the state the previous ones led to. */
  predicate Chained(start: State, steps: seq<Step>)
    decreases |steps|
  {
    steps == [] || (steps[0].request.currentState == start && Chained(steps[0].After(), steps[1..]))
  }

  function Final(start: State, steps: seq<Step>): State
    decreases |steps|
  {
    if steps == [] then start else Final(steps[0].After(), steps[1..])
  }

  /** How many approved steps pass the state at position `i`. */
  function TimesPassed(steps: seq<Step>, i: nat): nat {
    if steps == [] then 0
    else (if steps[0].IsApproved() && Covers(steps[0].request, i) then 1 else 0) + TimesPassed(steps[1..], i)
  }

  function Approvals(steps: seq<Step>): nat {
    if steps == [] then 0 else (if steps[0].IsApproved() then 1 else 0) + Approvals(steps[1..])
  }

  /** Only approval moves a state, and it moves it forward; a decision repeats what it was asked. */
  lemma OnlyApprovalMoves(step: Step)
    ensures !step.IsApproved() ==> step.After() == step.request.currentState
    ensures step.IsApproved() ==> step.After() == step.request.requestedState
    ensures step.IsApproved() ==> Index(step.request.currentState) < Index(step.After())
    ensures step.Decision().Success? ==>
              var d := step.Decision().value;
              && d.outcome == step.outcome && d.rationale == step.rationale
              && d.reviewerSubject == step.context.subject && d.requestId == step.context.requestId
  {
  }

  /**
   The approved transitions of a run partition the states from start to final: each state
   after the start up to the final one is passed exactly once, and no other is passed.
   */
  lemma {:induction false} ApprovalsPartition(start: State, steps: seq<Step>, i: nat)
    requires Chained(start, steps)
    ensures Index(start) <= Index(Final(start, steps))
    ensures TimesPassed(steps, i) == if Index(start) < i <= Index(Final(start, steps)) then 1 else 0
    decreases |steps|
  {
    if steps != [] {
      OnlyApprovalMoves(steps[0]);
      ApprovalsPartition(steps[0].After(), steps[1..], i);
    }
  }

  /** Approvals are bounded by the states they advance over. */
  lemma {:induction false} ApprovalsBounded(start: State, steps: seq<Step>)
    requires Chained(start, steps)
    ensures Approvals(steps) <= Index(Final(start, steps)) - Index(start) <= |ORDER| - 1 - Index(start)
    decreases |steps|
  {
    if steps != [] {
      OnlyApprovalMoves(steps[0]);
      ApprovalsBounded(steps[0].After(), steps[1..]);
    }
  }

  /** The step of a run that passes the state at position `i`. */
  lemma {:induction false} PassingStep(start: State, steps: seq<Step>, i: nat) returns (k: nat)
    requires Chained(start, steps)
    requires Index(start) < i <= Index(Final(start, steps))
    ensures k < |steps| && steps[k].IsApproved() && Covers(steps[k].request, i)
    decreases |steps|
  {
    OnlyApprovalMoves(steps[0]);
    if steps[0].IsApproved() && Covers(steps[0].request, i) {
      k := 0;
    } else {
      k := PassingStep(steps[0].After(), steps[1..], i);
      k := k + 1;
    }
  }

  /** Every state a run passes has references: direct evidence where it stops, equivalency where it skips. */
  lemma EveryPassedStateEvidenced(start: State, steps: seq<Step>, i: nat) returns (k: nat)
    requires Chained(start, steps)
    requires Index(start) < i <= Index(Final(start, steps))
    ensures k < |steps| && steps[k].IsApproved() && Covers(steps[k].request, i)
    ensures i < |ORDER| && ReferencesAt(steps[k].request, i) != []
  {
    k := PassingStep(start, steps, i);
    ValidTransitionIff(steps[k].request);
  }
}
