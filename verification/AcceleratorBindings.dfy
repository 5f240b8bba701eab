/** Evidence checks against the authoritative domains (setc/fashion/accelerator_bindings.py). */
module AcceleratorBindings {
  import opened Wrappers
  import opened Accelerator

  datatype AuthorityReference = AuthorityReference(domain: string, resource: string, reference: string, verified: bool)

  /** What the authority reader knows of each reference. */
  type EvidenceReader = string -> Option<AuthorityReference>

  datatype BindingError =
    | NoAuthorityContract
    | Unresolved(reference: string)
    | WrongAuthority(reference: string)
    | Unverified(reference: string)
    | NothingResolved
    | NoEquivalencyContract(state: State)
    | InvalidEquivalency(state: State, reference: string)

  /** The authorities whose evidence counts for a state; the intake state has none. */
  function StateAuthorities(s: State): Option<set<(string, string)>> {
    match s
    case Discover => None
    case Register => Some({("rw", "enrollments"), ("rw", "cohorts")})
    case Assess => Some({("rw", "evidence"), ("public", "seg_evidence_items")})
    case Protect => Some({("seae", "rights_interests"), ("seae", "licenses"), ("seae", "consent_records"),
                          ("public", "seg_evidence_items")})
    case Design => Some({("fashion", "designs"), ("cruds", "works"), ("seae", "work_registry")})
    case Validate => Some({("rw", "evidence"), ("public", "seg_evidence_items")})
    case Produce => Some({("fashion", "production_orders"), ("seae", "productions"), ("gsc", "supply_nodes")})
    case Certify => Some({("public", "seg_evidence_items"), ("rw", "evidence")})
    case Market => Some({("cruds", "market_access_requests"), ("wim", "opportunities")})
    case Trade => Some({("wim", "transactions"), ("rgl", "shipments")})
    case Capitalize => Some({("rw", "capital_readiness_profiles"), ("rw", "capital_requests"),
                             ("rw", "capital_referrals")})
    case Scale => Some({("rw", "replication_evidence"), ("rw", "commercialization_cases")})
    case Measure => Some({("rw", "wealth_yield_records"), ("seae", "wealth_ecology_impact_links"),
                          ("rw", "impact_observations")})
    case Reinvest => Some({("rw", "wealth_yield_records"), ("rw", "replication_evidence")})
  }

  /** The same table read by authority: for which states the evidence of each one counts. */
  lemma StatesByAuthority(s: State, domain: string, resource: string)
    ensures var authority := (domain, resource);
            StateAuthorities(s).Some? && authority in StateAuthorities(s).value
            <==> || (s == Register && authority in {("rw", "enrollments"), ("rw", "cohorts")})
                 || (authority == ("rw", "evidence") && s in {Assess, Validate, Certify})
                 || (authority == ("public", "seg_evidence_items") && s in {Assess, Protect, Validate, Certify})
                 || (s == Protect && authority in {("seae", "rights_interests"), ("seae", "licenses"),
                                                   ("seae", "consent_records")})
                 || (s == Design && authority in {("fashion", "designs"), ("cruds", "works"),
                                                  ("seae", "work_registry")})
                 || (s == Produce && authority in {("fashion", "production_orders"), ("seae", "productions"),
                                                   ("gsc", "supply_nodes")})
                 || (s == Market && authority in {("cruds", "market_access_requests"), ("wim", "opportunities")})
                 || (s == Trade && authority in {("wim", "transactions"), ("rgl", "shipments")})
                 || (s == Capitalize && authority in {("rw", "capital_readiness_profiles"),
                                                      ("rw", "capital_requests"), ("rw", "capital_referrals")})
                 || (authority == ("rw", "replication_evidence") && s in {Scale, Reinvest})
                 || (s == Scale && authority == ("rw", "commercialization_cases"))
                 || (authority == ("rw", "wealth_yield_records") && s in {Measure, Reinvest})
                 || (s == Measure && authority in {("seae", "wealth_ecology_impact_links"),
                                                   ("rw", "impact_observations")})
  {
  }

  /** The reference resolves to verified evidence of an authority allowed for the state. */
  predicate Backed(reader: EvidenceReader, s: State, reference: string) {
    var evidence := reader(reference);
    var allowed := StateAuthorities(s);
    && allowed.Some?
    && evidence.Some?
    && (evidence.value.domain, evidence.value.resource) in allowed.value
    && evidence.value.verified
  }

  /** What is wrong with one direct reference, in the order the checks are made. */
  function ReferenceError(reader: EvidenceReader, s: State, reference: string): BindingError
    requires !Backed(reader, s, reference)
  {
    var evidence := reader(reference);
    var allowed := StateAuthorities(s);
    if allowed.None? then NoAuthorityContract
    else if evidence.None? then Unresolved(reference)
    else if (evidence.value.domain, evidence.value.resource) !in allowed.value then WrongAuthority(reference)
    else Unverified(reference)
  }

  /** Of a reference with a contract to meet: it is backed, or the one reason why not applies. */
  lemma BackedOrReason(reader: EvidenceReader, s: State, reference: string)
    requires s != Discover && StateAuthorities(s).Some?
    ensures var evidence, allowed := reader(reference), StateAuthorities(s).value;
            var listed := evidence.Some? && (evidence.value.domain, evidence.value.resource) in allowed;
            if listed && evidence.value.verified then Backed(reader, s, reference)
            else
              && !Backed(reader, s, reference)
              && ReferenceError(reader, s, reference)
                 == if evidence.None? then Unresolved(reference)
                    else if listed then Unverified(reference)
                    else WrongAuthority(reference)
  {
  }

  /**
   Resolves all direct references or reports the first bad one: success returns what the
   reader knows of each, in order.
   */
  method ValidateTransitionEvidence(reader: EvidenceReader, request: TransitionRequest)
    returns (r: Result<seq<AuthorityReference>, BindingError>)
    ensures r.Success? <==>
            && request.evidenceReferences != []
            && forall x :: x in request.evidenceReferences ==> Backed(reader, request.requestedState, x)
    ensures r.Success? ==>
            && |r.value| == |request.evidenceReferences|
            && StateAuthorities(request.requestedState).Some?
            && forall i :: 0 <= i < |r.value| ==>
                 && reader(request.evidenceReferences[i]) == Some(r.value[i]) && r.value[i].verified
                 && (r.value[i].domain, r.value[i].resource) in StateAuthorities(request.requestedState).value
    ensures r == Failure(NoAuthorityContract) <==> request.requestedState == Discover
    ensures r == Failure(NothingResolved) <==> request.requestedState != Discover && request.evidenceReferences == []
    ensures r.Failure? && request.requestedState != Discover && request.evidenceReferences != [] ==>
            exists i ::
              && 0 <= i < |request.evidenceReferences|
              && (forall j :: 0 <= j < i ==> Backed(reader, request.requestedState, request.evidenceReferences[j]))
              && !Backed(reader, request.requestedState, request.evidenceReferences[i])
              && r.error == ReferenceError(reader, request.requestedState, request.evidenceReferences[i])
  {
    var allowed := StateAuthorities(request.requestedState);
    var refs := request.evidenceReferences;
    if allowed.None? {
      if refs != [] {
        assert refs[0] in refs;
      }
      return Failure(NoAuthorityContract);
    }
    var resolved: seq<AuthorityReference> := [];
    for i := 0 to |refs|
      invariant |resolved| == i
      invariant forall j :: 0 <= j < i ==> Backed(reader, request.requestedState, refs[j])
      invariant forall j :: 0 <= j < i ==> reader(refs[j]) == Some(resolved[j])
    {
      var evidence := reader(refs[i]);
      assert refs[i] in refs;
      if evidence.None? {
        return Failure(Unresolved(refs[i]));
      }
      if (evidence.value.domain, evidence.value.resource) !in allowed.value {
        return Failure(WrongAuthority(refs[i]));
      }
      if !evidence.value.verified {
        return Failure(Unverified(refs[i]));
      }
      resolved := resolved + [evidence.value];
    }
    if resolved == [] {
      return Failure(NothingResolved);
    }
    return Success(resolved);
  }

  /** Every entry of the mapping is for a state with a contract and holds only backed references. */
  ghost predicate AllBacked(reader: EvidenceReader, equivalency: Equivalency) {
    forall i :: 0 <= i < |equivalency| ==> EntryBacked(reader, equivalency[i])
  }

  ghost predicate EntryBacked(reader: EvidenceReader, entry: (State, seq<string>)) {
    StateAuthorities(entry.0).Some? && forall x :: x in entry.1 ==> Backed(reader, entry.0, x)
  }

  /** The entry is the first one that is not all in order. */
  ghost predicate FirstBadEntry(reader: EvidenceReader, entries: Equivalency, i: nat)
    requires i < |entries|
  {
    !EntryBacked(reader, entries[i]) && forall k :: 0 <= k < i ==> EntryBacked(reader, entries[k])
  }

  /** What is wrong with an entry: its state is the intake state, or one reference is the first unbacked one. */
  ghost predicate EntryError(reader: EvidenceReader, entry: (State, seq<string>), error: BindingError) {
    if entry.0 == Discover then error == NoEquivalencyContract(entry.0)
    else
      exists j :: && 0 <= j < |entry.1| && !Backed(reader, entry.0, entry.1[j])
                  && (forall k :: 0 <= k < j ==> Backed(reader, entry.0, entry.1[k]))
                  && error == InvalidEquivalency(entry.0, entry.1[j])
  }

  /** Checks every reference of every entry, stopping at the first bad one. */
  method ValidateEquivalency(reader: EvidenceReader, request: TransitionRequest) returns (r: Option<BindingError>)
    ensures r.None? <==> AllBacked(reader, request.Equivalents())
    ensures r.Some? ==> r.value.NoEquivalencyContract? || r.value.InvalidEquivalency?
    ensures r.Some? ==> exists i :: 0 <= i < |request.Equivalents()| && FirstBadEntry(reader, request.Equivalents(), i)
                                    && EntryError(reader, request.Equivalents()[i], r.value)
  {
    var entries := request.Equivalents();
    for i := 0 to |entries|
      invariant forall k :: 0 <= k < i ==> EntryBacked(reader, entries[k])
    {
      var state, references := entries[i].0, entries[i].1;
      var allowed := StateAuthorities(state);
      if allowed.None? || allowed.value == {} {
        NoContract(reader, entries[i]);
        assert FirstBadEntry(reader, entries, i) && EntryError(reader, entries[i], NoEquivalencyContract(state));
        return Some(NoEquivalencyContract(state));
      }
      for j := 0 to |references|
        invariant forall k :: 0 <= k < j ==> Backed(reader, state, references[k])
      {
        var evidence := reader(references[j]);
        if evidence.None? || !evidence.value.verified
           || (evidence.value.domain, evidence.value.resource) !in allowed.value
        {
          BadReference(reader, entries[i], j);
          assert FirstBadEntry(reader, entries, i);
          assert EntryError(reader, entries[i], InvalidEquivalency(state, references[j]));
          return Some(InvalidEquivalency(state, references[j]));
        }
      }
    }
    return None;
  }

  lemma NoContract(reader: EvidenceReader, entry: (State, seq<string>))
    requires StateAuthorities(entry.0).None? || StateAuthorities(entry.0).value == {}
    ensures entry.0 == Discover && !EntryBacked(reader, entry)
  {
    ContractsNotEmpty(entry.0);
  }

  lemma BadReference(reader: EvidenceReader, entry: (State, seq<string>), j: nat)
    requires j < |entry.1| && !Backed(reader, entry.0, entry.1[j])
    ensures !EntryBacked(reader, entry)
  {
    assert entry.1[j] in entry.1;
  }

  lemma ContractsNotEmpty(s: State)
    ensures s != Discover ==> StateAuthorities(s).Some? && StateAuthorities(s).value != {}
  {
    match s
    case Discover =>
    case Register => assert ("rw", "cohorts") in StateAuthorities(s).value;
    case Assess => assert ("rw", "evidence") in StateAuthorities(s).value;
    case Protect => assert ("seae", "licenses") in StateAuthorities(s).value;
    case Design => assert ("cruds", "works") in StateAuthorities(s).value;
    case Validate => assert ("rw", "evidence") in StateAuthorities(s).value;
    case Produce => assert ("gsc", "supply_nodes") in StateAuthorities(s).value;
    case Certify => assert ("rw", "evidence") in StateAuthorities(s).value;
    case Market => assert ("wim", "opportunities") in StateAuthorities(s).value;
    case Trade => assert ("rgl", "shipments") in StateAuthorities(s).value;
    case Capitalize => assert ("rw", "capital_requests") in StateAuthorities(s).value;
    case Scale => assert ("rw", "replication_evidence") in StateAuthorities(s).value;
    case Measure => assert ("rw", "impact_observations") in StateAuthorities(s).value;
    case Reinvest => assert ("rw", "replication_evidence") in StateAuthorities(s).value;
  }

  // ----- runs whose approvals are also bound to authorities -----

  /** What the two checks accept, as their contracts state it. */
  ghost predicate PassesBindings(reader: EvidenceReader, request: TransitionRequest) {
    && request.evidenceReferences != []
    && (forall x :: x in request.evidenceReferences ==> Backed(reader, request.requestedState, x))
    && AllBacked(reader, request.Equivalents())
  }

  lemma {:induction false} LookupBacked(reader: EvidenceReader, equivalency: Equivalency, s: State)
    requires AllBacked(reader, equivalency)
    ensures forall x :: x in Lookup(equivalency, s) ==> Backed(reader, s, x)
  {
    if equivalency != [] {
      assert EntryBacked(reader, equivalency[0]);
      forall i | 0 <= i < |equivalency[1..]| ensures EntryBacked(reader, equivalency[1..][i]) {
        assert equivalency[1..][i] == equivalency[i + 1];
      }
      LookupBacked(reader, equivalency[1..], s);
    }
  }

  /**
   When every approval of a run also passes both checks, each state the run passes has at
   least one reference, and all its references resolve to verified evidence of authorities
   allowed for that very state.
   */
  lemma EveryPassedStateBacked(reader: EvidenceReader, start: State, steps: seq<Step>, i: nat) returns (k: nat)
    requires Chained(start, steps)
    requires forall j :: 0 <= j < |steps| && steps[j].IsApproved() ==> PassesBindings(reader, steps[j].request)
    requires Index(start) < i <= Index(Final(start, steps))
    ensures k < |steps| && steps[k].IsApproved() && Covers(steps[k].request, i)
    ensures i < |ORDER| && ReferencesAt(steps[k].request, i) != []
    ensures forall x :: x in ReferencesAt(steps[k].request, i) ==>
              && reader(x).Some? && reader(x).value.verified && StateAuthorities(ORDER[i]).Some?
              && (reader(x).value.domain, reader(x).value.resource) in StateAuthorities(ORDER[i]).value
  {
    k := EveryPassedStateEvidenced(start, steps, i);
    LookupBacked(reader, steps[k].request.Equivalents(), ORDER[i]);
  }

  /**
   No request the accelerator accepts, whatever the outcome, asks for a state without an
   authority contract, so that error of the evidence check is unreachable behind it.
   */
  lemma ContractAlwaysPresent(step: Step)
    requires step.Decision().Success?
    ensures step.request.requestedState != Discover
    ensures StateAuthorities(step.request.requestedState).Some?
    ensures forall i: nat :: i < |ORDER| && Covers(step.request, i) ==> StateAuthorities(ORDER[i]).Some?
  {
    assert Index(step.request.currentState) < Index(step.request.requestedState);
    forall i: nat | i < |ORDER| && Covers(step.request, i) ensures StateAuthorities(ORDER[i]).Some? {
      IndexOfOrder(i);
      assert Index(Discover) == 0;
    }
  }
}
