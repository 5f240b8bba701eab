/** The Genesis candidate and its canonical payload (src/sourceenergy_one/genesis_package.py). */
module Genesis {
  import opened Sequences
  import opened Wrappers
  import opened Text
  import opened Sorting
  import opened TextOrder

  const REQUIRED_IMPACT_HORIZONS: seq<string> := ["present", "1", "5", "10", "25", "50", "100"]

  datatype ExperienceContext = ExperienceContext(
    identityVerified: bool, consentRecorded: bool, purposeProfileComplete: bool,
    codex24CandidateComplete: bool, humanApproved: bool)

  datatype GenesisStage = Identity | Consent | PurposeDiscovery | Codex24Synthesis | HumanReview | GenesisReady

  function ResolveStage(context: ExperienceContext): GenesisStage {
    if !context.identityVerified then Identity
    else if !context.consentRecorded then Consent
    else if !context.purposeProfileComplete then PurposeDiscovery
    else if !context.codex24CandidateComplete then Codex24Synthesis
    else if !context.humanApproved then HumanReview
    else GenesisReady
  }

  /** Each stage stands for the first condition that is not met; the last one for none. */
  lemma StageIs(context: ExperienceContext)
    ensures var c, stage := context, ResolveStage(context);
            && (stage == Identity <==> !c.identityVerified)
            && (stage == Consent <==> c.identityVerified && !c.consentRecorded)
            && (stage == PurposeDiscovery <==> c.identityVerified && c.consentRecorded && !c.purposeProfileComplete)
            && (stage == GenesisReady <==> c == ExperienceContext(true, true, true, true, true))
            && (stage == HumanReview <==> c == ExperienceContext(true, true, true, true, false))
  {
  }

  datatype GenesisCandidate = GenesisCandidate(
    subjectId: string,
    subjectType: string,
    schemaVersion: string,
    purposeProfileId: string,
    purposeSourceHash: string,
    approvedMvpArtifactId: string,
    approvedMvpHash: string,
    impactReportId: string,
    impactReportHash: string,
    impactHorizons: map<string, string>,
    consentIds: seq<string>,
    codex24PackageVersion: string,
    jurisdiction: string,
    authorizingActorId: string,
    authorizationAttestation: string,
    priorGenesisId: Option<string>)
  {
    /** The texts that must not be blank, in the order they are checked. */
    function RequiredTexts(): seq<string> {
      [subjectId, subjectType, schemaVersion, purposeProfileId, purposeSourceHash,
       approvedMvpArtifactId, approvedMvpHash, impactReportId, impactReportHash,
       codex24PackageVersion, jurisdiction, authorizingActorId, authorizationAttestation]
    }
  }

  datatype BoundaryError =
    | NotReady
    | TextRequired(position: nat)
    | ConsentRequired
    | HorizonsIncomplete(missing: seq<string>)

  function FirstBlank(texts: seq<string>): (i: nat)
    ensures i <= |texts|
    ensures i < |texts| ==> Blank(texts[i])
    ensures forall j :: 0 <= j < i ==> !Blank(texts[j])
  {
    if texts == [] || Blank(texts[0]) then 0 else 1 + FirstBlank(texts[1..])
  }

  function Horizon(candidate: GenesisCandidate, h: string): string {
    if h in candidate.impactHorizons then candidate.impactHorizons[h] else ""
  }

  function MissingHorizons(candidate: GenesisCandidate, hs: seq<string>): seq<string> {
    if hs == [] then []
    else (if Blank(Horizon(candidate, hs[0])) then [hs[0]] else []) + MissingHorizons(candidate, hs[1..])
  }

  function ValidateCandidate(context: ExperienceContext, candidate: GenesisCandidate): Result<(), BoundaryError> {
    var texts := candidate.RequiredTexts();
    var missing := MissingHorizons(candidate, REQUIRED_IMPACT_HORIZONS);
    if ResolveStage(context) != GenesisReady then Failure(NotReady)
    else if FirstBlank(texts) < |texts| then Failure(TextRequired(FirstBlank(texts)))
    else if candidate.consentIds == [] || exists c :: c in candidate.consentIds && Blank(c) then
      Failure(ConsentRequired)
    else if missing != [] then Failure(HorizonsIncomplete(missing))
    else Success(())
  }

  /** The payload: scalar fields, the required horizons alone, and the sorted consent ids. */
  datatype Payload = Payload(
    texts: seq<string>, priorGenesisId: Option<string>, horizons: map<string, string>, consentIds: seq<string>)

  /** Building the payload fails, with a missing key, unless every required horizon is present. */
  function CanonicalPayload(candidate: GenesisCandidate): Option<Payload> {
    if forall h :: h in REQUIRED_IMPACT_HORIZONS ==> h in candidate.impactHorizons then
      Some(Payload(
             candidate.RequiredTexts(), candidate.priorGenesisId,
             map h | h in REQUIRED_IMPACT_HORIZONS :: candidate.impactHorizons[h],
             Sort(CodePointOrder, candidate.consentIds)))
    else None
  }

  lemma {:induction false} MissingHorizonsIff(candidate: GenesisCandidate, hs: seq<string>)
    ensures MissingHorizons(candidate, hs) == [] <==> forall h :: h in hs ==> !Blank(Horizon(candidate, h))
  {
    if hs != [] {
      MissingHorizonsIff(candidate, hs[1..]);
      assert hs == [hs[0]] + hs[1..] && hs[0] in hs;
      assert forall h :: h in hs[1..] ==> h in hs;
    }
  }

  /** Validation accepts exactly the approved candidates with complete provenance. */
  lemma ValidCandidateIff(context: ExperienceContext, candidate: GenesisCandidate)
    ensures ValidateCandidate(context, candidate).Success?
            <==> && context == ExperienceContext(true, true, true, true, true)
                 && TextsPresent(candidate)
                 && candidate.consentIds != [] && (forall c :: c in candidate.consentIds ==> !Blank(c))
                 && HorizonsPresent(candidate)
  {
    TextsPresentIff(candidate);
    HorizonsPresentIff(candidate);
  }

  predicate Filled(text: string) { !Blank(text) }

  predicate TextsPresent(c: GenesisCandidate) {
    && Filled(c.subjectId) && Filled(c.subjectType) && Filled(c.schemaVersion) && Filled(c.purposeProfileId)
    && Filled(c.purposeSourceHash) && Filled(c.approvedMvpArtifactId) && Filled(c.approvedMvpHash)
    && Filled(c.impactReportId) && Filled(c.impactReportHash) && Filled(c.codex24PackageVersion)
    && Filled(c.jurisdiction) && Filled(c.authorizingActorId) && Filled(c.authorizationAttestation)
  }

  lemma AllOfThirteen<T>(s: seq<T>, p: T -> bool)
    requires |s| == 13
    ensures (forall i :: 0 <= i < |s| ==> p(s[i]))
            <==> && p(s[0]) && p(s[1]) && p(s[2]) && p(s[3]) && p(s[4]) && p(s[5]) && p(s[6])
                 && p(s[7]) && p(s[8]) && p(s[9]) && p(s[10]) && p(s[11]) && p(s[12])
  {
  }

  lemma FirstBlankIff(texts: seq<string>)
    ensures FirstBlank(texts) == |texts| <==> forall i :: 0 <= i < |texts| ==> Filled(texts[i])
  {
    var i := FirstBlank(texts);
    if i < |texts| {
      assert !Filled(texts[i]);
    }
  }

  lemma TextsPresentIff(c: GenesisCandidate)
    ensures FirstBlank(c.RequiredTexts()) == |c.RequiredTexts()| <==> TextsPresent(c)
  {
    FirstBlankIff(c.RequiredTexts());
    AllOfThirteen(c.RequiredTexts(), Filled);
  }

  predicate HorizonsPresent(c: GenesisCandidate) {
    && !Blank(Horizon(c, "present")) && !Blank(Horizon(c, "1")) && !Blank(Horizon(c, "5"))
    && !Blank(Horizon(c, "10")) && !Blank(Horizon(c, "25")) && !Blank(Horizon(c, "50")) && !Blank(Horizon(c, "100"))
  }

  lemma RequiredHorizon(h: string)
    ensures h in REQUIRED_IMPACT_HORIZONS
            <==> h == "present" || h == "1" || h == "5" || h == "10" || h == "25" || h == "50" || h == "100"
  {
    var all := REQUIRED_IMPACT_HORIZONS;
    assert all[0] == "present" && all[1] == "1" && all[2] == "5" && all[3] == "10" && all[4] == "25";
    assert all[5] == "50" && all[6] == "100";
  }

  lemma HorizonsPresentIff(c: GenesisCandidate)
    ensures MissingHorizons(c, REQUIRED_IMPACT_HORIZONS) == [] <==> HorizonsPresent(c)
  {
    MissingHorizonsIff(c, REQUIRED_IMPACT_HORIZONS);
    forall h ensures h in REQUIRED_IMPACT_HORIZONS
                     <==> h == "present" || h == "1" || h == "5" || h == "10" || h == "25" || h == "50" || h == "100"
    {
      RequiredHorizon(h);
    }
  }

  lemma {:induction false} MissingHorizonsAre(candidate: GenesisCandidate, hs: seq<string>)
    ensures forall h :: h in MissingHorizons(candidate, hs) <==> h in hs && Blank(Horizon(candidate, h))
    ensures Subsequence(MissingHorizons(candidate, hs), hs)
  {
    if hs != [] {
      MissingHorizonsAre(candidate, hs[1..]);
      SubsequenceCons(hs[0], MissingHorizons(candidate, hs[1..]), hs[1..]);
      assert hs == [hs[0]] + hs[1..];
    }
  }

  /** A refusal for horizons names exactly the blank ones, and comes after every other check has passed. */
  lemma HorizonsReported(context: ExperienceContext, candidate: GenesisCandidate, missing: seq<string>)
    requires ValidateCandidate(context, candidate) == Failure(HorizonsIncomplete(missing))
    ensures forall h :: h in missing <==> h in REQUIRED_IMPACT_HORIZONS && Blank(Horizon(candidate, h))
    ensures Subsequence(missing, REQUIRED_IMPACT_HORIZONS)
    ensures context == ExperienceContext(true, true, true, true, true) && TextsPresent(candidate)
    ensures candidate.consentIds != [] && forall c :: c in candidate.consentIds ==> !Blank(c)
  {
    MissingHorizonsAre(candidate, REQUIRED_IMPACT_HORIZONS);
    TextsPresentIff(candidate);
  }

  /** A candidate that passes validation always has a payload. */
  lemma ValidCandidateHasPayload(context: ExperienceContext, candidate: GenesisCandidate)
    requires ValidateCandidate(context, candidate).Success?
    ensures CanonicalPayload(candidate).Some?
  {
    MissingHorizonsIff(candidate, REQUIRED_IMPACT_HORIZONS);
    assert Blank("");
    forall h | h in REQUIRED_IMPACT_HORIZONS ensures h in candidate.impactHorizons {
      assert !Blank(Horizon(candidate, h));
    }
  }

  /** A payload holds the texts as they are, the seven horizons alone, and the consents in ascending order. */
  lemma PayloadIs(c: GenesisCandidate)
    requires CanonicalPayload(c).Some?
    ensures var p := CanonicalPayload(c).value;
            && p.texts == [c.subjectId, c.subjectType, c.schemaVersion, c.purposeProfileId, c.purposeSourceHash,
                           c.approvedMvpArtifactId, c.approvedMvpHash, c.impactReportId, c.impactReportHash,
                           c.codex24PackageVersion, c.jurisdiction, c.authorizingActorId, c.authorizationAttestation]
            && p.priorGenesisId == c.priorGenesisId
            && (forall h :: h in p.horizons <==> h in REQUIRED_IMPACT_HORIZONS)
            && (forall h :: h in p.horizons ==> h in c.impactHorizons && p.horizons[h] == c.impactHorizons[h])
            && multiset(p.consentIds) == multiset(c.consentIds)
            && (forall i, j :: 0 <= i < j < |p.consentIds| ==> LexLeq(p.consentIds[i], p.consentIds[j]))
  {
    var sorted := Sort(CodePointOrder, c.consentIds);
    CodePointOrderIsTotal(c.consentIds);
    SortPermutes(CodePointOrder, c.consentIds);
    SortSorted(CodePointOrder, c.consentIds);
    forall i, j | 0 <= i < j < |sorted| ensures LexLeq(sorted[i], sorted[j]) {
      assert CodePointOrder(sorted[i], sorted[j]);
    }
  }

  /**
   Two payloads are equal exactly when the scalar fields and the required horizons agree and
   the consent ids agree as multisets.
   */
  lemma PayloadEqualIff(a: GenesisCandidate, b: GenesisCandidate)
    requires CanonicalPayload(a).Some? && CanonicalPayload(b).Some?
    ensures CanonicalPayload(a) == CanonicalPayload(b)
            <==> && SameTexts(a, b)
                 && a.priorGenesisId == b.priorGenesisId
                 && SameHorizons(a, b)
                 && multiset(a.consentIds) == multiset(b.consentIds)
  {
    SortedTextsEqualIff(a.consentIds, b.consentIds);
    HorizonMapsEqualIff(a, b);
    SameHorizonsIff(a, b);
    SameTextsIff(a, b);
  }

  predicate SameTexts(a: GenesisCandidate, b: GenesisCandidate) {
    && a.subjectId == b.subjectId && a.subjectType == b.subjectType && a.schemaVersion == b.schemaVersion
    && a.purposeProfileId == b.purposeProfileId && a.purposeSourceHash == b.purposeSourceHash
    && a.approvedMvpArtifactId == b.approvedMvpArtifactId && a.approvedMvpHash == b.approvedMvpHash
    && a.impactReportId == b.impactReportId && a.impactReportHash == b.impactReportHash
    && a.codex24PackageVersion == b.codex24PackageVersion && a.jurisdiction == b.jurisdiction
    && a.authorizingActorId == b.authorizingActorId && a.authorizationAttestation == b.authorizationAttestation
  }

  lemma SameTextsIff(a: GenesisCandidate, b: GenesisCandidate)
    ensures a.RequiredTexts() == b.RequiredTexts() <==> SameTexts(a, b)
  {
    var s, t := a.RequiredTexts(), b.RequiredTexts();
    if s == t {
      assert s[0] == t[0] && s[1] == t[1] && s[2] == t[2] && s[3] == t[3] && s[4] == t[4] && s[5] == t[5];
      assert s[6] == t[6] && s[7] == t[7] && s[8] == t[8] && s[9] == t[9] && s[10] == t[10];
      assert s[11] == t[11] && s[12] == t[12];
    }
  }

  predicate SameHorizons(a: GenesisCandidate, b: GenesisCandidate) {
    && Horizon(a, "present") == Horizon(b, "present") && Horizon(a, "1") == Horizon(b, "1")
    && Horizon(a, "5") == Horizon(b, "5") && Horizon(a, "10") == Horizon(b, "10")
    && Horizon(a, "25") == Horizon(b, "25") && Horizon(a, "50") == Horizon(b, "50")
    && Horizon(a, "100") == Horizon(b, "100")
  }

  lemma SameHorizonsIff(a: GenesisCandidate, b: GenesisCandidate)
    ensures SameHorizons(a, b) <==> forall h :: h in REQUIRED_IMPACT_HORIZONS ==> Horizon(a, h) == Horizon(b, h)
  {
    forall h ensures h in REQUIRED_IMPACT_HORIZONS
                     <==> h == "present" || h == "1" || h == "5" || h == "10" || h == "25" || h == "50" || h == "100"
    {
      RequiredHorizon(h);
    }
  }

  lemma HorizonMapsEqualIff(a: GenesisCandidate, b: GenesisCandidate)
    requires CanonicalPayload(a).Some? && CanonicalPayload(b).Some?
    ensures CanonicalPayload(a).value.horizons == CanonicalPayload(b).value.horizons
            <==> forall h :: h in REQUIRED_IMPACT_HORIZONS ==> Horizon(a, h) == Horizon(b, h)
  {
    var m, n := CanonicalPayload(a).value.horizons, CanonicalPayload(b).value.horizons;
    if m == n {
      forall h | h in REQUIRED_IMPACT_HORIZONS ensures Horizon(a, h) == Horizon(b, h) {
        assert h in m && m[h] == n[h];
      }
    } else if forall h :: h in REQUIRED_IMPACT_HORIZONS ==> Horizon(a, h) == Horizon(b, h) {
      assert m.Keys == n.Keys;
      forall h | h in m ensures m[h] == n[h] {
        assert Horizon(a, h) == Horizon(b, h);
      }
    }
  }
}
