/** Gateway contracts (setc/ecology/gateway.py): the allowlist and constructor checks. */
module Gateway {
  import opened Wrappers
  import opened Text

  datatype EcologyDomain =
    Setc | SourceBlock | Wim | Cruds | Hei | Gsc | Rgl | Capitalization | SourceCoin | ExternalAuthority

  datatype GatewayAction =
    | RegisterReference
    | RequestMarketWorkflow
    | RequestCapitalReview
    | RequestSettlement
    | RequestInstitutionalReview
    | RequestLogisticsReview
    | RequestProvenanceReview
    | SubmitRegenerativeProposal

  function AllowedActions(domain: EcologyDomain): set<GatewayAction> {
    match domain
    case Wim => {RegisterReference, RequestMarketWorkflow}
    case Capitalization => {RegisterReference, RequestCapitalReview, SubmitRegenerativeProposal}
    case SourceCoin => {RegisterReference, RequestSettlement}
    case Hei => {RegisterReference, RequestInstitutionalReview, SubmitRegenerativeProposal}
    case Gsc => {RegisterReference, RequestLogisticsReview}
    case Rgl => {RegisterReference, RequestLogisticsReview}
    case Setc => {RegisterReference, RequestProvenanceReview}
    case SourceBlock => {RegisterReference, RequestProvenanceReview}
    case ExternalAuthority => {RegisterReference}
    case Cruds => {}
  }

  /** The same table read by action: which domains may be asked for it. */
  lemma AllowlistByAction(domain: EcologyDomain, action: GatewayAction)
    ensures action in AllowedActions(domain) <==>
            match action
            case RegisterReference => domain != Cruds
            case RequestMarketWorkflow => domain == Wim
            case RequestCapitalReview => domain == Capitalization
            case RequestSettlement => domain == SourceCoin
            case RequestInstitutionalReview => domain == Hei
            case RequestLogisticsReview => domain == Gsc || domain == Rgl
            case RequestProvenanceReview => domain == Setc || domain == SourceBlock
            case SubmitRegenerativeProposal => domain == Capitalization || domain == Hei
    ensures action in MATERIAL_ACTIONS <==> action != RegisterReference
  {
  }

  const MATERIAL_ACTIONS: set<GatewayAction> := {
    RequestMarketWorkflow, RequestCapitalReview, RequestSettlement, RequestInstitutionalReview,
    RequestLogisticsReview, RequestProvenanceReview, SubmitRegenerativeProposal
  }

  /** A point in time; `aware` says whether it carries a time zone. */
  datatype Instant = Instant(ticks: int, aware: bool)

  datatype Correlation = Correlation(correlationId: string, idempotencyKey: Option<string>) {
    /** The key when it is present and non-empty, as the source's truth test has it. */
    function Key(): Option<string> {
      if idempotencyKey.Some? && idempotencyKey.value != "" then idempotencyKey else None
    }
  }

  datatype GatewayRequest = GatewayRequest(
    requestId: string,
    contractVersion: string,
    targetDomain: EcologyDomain,
    action: GatewayAction,
    correlation: Correlation,
    requestedAt: Option<Instant>)
  {
    /** The constructor's checks all pass. */
    predicate Valid() {
      && !Blank(requestId)
      && contractVersion == "1.0"
      && action in AllowedActions(targetDomain)
      && (action in MATERIAL_ACTIONS ==> correlation.Key().Some?)
      && (requestedAt.Some? ==> requestedAt.value.aware)
    }
  }

  datatype GatewayPrincipal = GatewayPrincipal(
    principalId: string,
    authenticated: bool,
    permissions: map<EcologyDomain, set<GatewayAction>>)
  {
    predicate Permits(domain: EcologyDomain, action: GatewayAction) {
      && authenticated
      && domain in permissions && action in permissions[domain]
      && action in AllowedActions(domain)
    }
  }

  datatype ReceiptStatus = Received | Rejected | AcceptedForReview

  datatype GatewayReceipt = GatewayReceipt(
    receiptId: string,
    requestId: string,
    targetDomain: EcologyDomain,
    status: ReceiptStatus,
    receivedAt: Instant,
    message: Option<string>)
  {
    predicate Valid() {
      !Blank(receiptId) && !Blank(requestId) && receivedAt.aware
    }
  }
}
