/** The enforcement store (setc/ecology/gateway_security.py). */
module GatewaySecurity {
  import opened Wrappers
  import opened Text
  import opened Gateway
  import opened GatewayLog
  import opened GatewayRuns
  import opened GatewaySafety

  datatype GatewayDecision = AcceptedDecision | RejectedDecision

  datatype GatewayAuditRecord = GatewayAuditRecord(
    requestId: string,
    principalId: string,
    targetDomain: EcologyDomain,
    action: GatewayAction,
    correlationId: string,
    decision: GatewayDecision,
    rejection: Option<Rejection>,
    recordedAt: Instant)

  datatype GatewaySecurityResult = GatewaySecurityResult(receipt: GatewayReceipt, audit: GatewayAuditRecord)

  datatype EvaluationError = NaiveTimestamp | NonPositiveRateLimit

  function DecisionText(d: GatewayDecision): string {
    match d case AcceptedDecision => "accepted" case RejectedDecision => "rejected"
  }

  function RejectionText(r: Rejection): string {
    match r
    case Unauthenticated => "unauthenticated"
    case Unauthorized => "unauthorized"
    case Replay => "replay"
    case RateLimited => "rate_limited"
  }

  function ReceiptId(requestId: string, d: GatewayDecision): string {
    "gateway-security:" + (requestId + ":" + DecisionText(d))
  }

  /** The receipt id always starts with a fixed word, so the receipt's own checks pass. */
  lemma ReceiptIdNotBlank(requestId: string, d: GatewayDecision)
    ensures !Blank(ReceiptId(requestId, d))
  {
    var s := ReceiptId(requestId, d);
    assert s[0] == 'g' && !IsSpace(s[0]);
    BlankIffAllSpace(s);
  }

  /** Receipts of different requests, or of different decisions on one, never share an id. */
  lemma ReceiptIdTells(a: string, d: GatewayDecision, b: string, e: GatewayDecision)
    ensures ReceiptId(a, d) == ReceiptId(b, e) <==> a == b && d == e
  {
    if ReceiptId(a, d) == ReceiptId(b, e) {
      assert |DecisionText(d)| == |DecisionText(e)| == 8;
      SameEnds("gateway-security:", a + ":", DecisionText(d), b + ":", DecisionText(e));
      SameEnds("", a, ":", b, ":");
      assert DecisionText(d)[0] == DecisionText(e)[0];
    }
  }

  lemma SameEnds<T>(front: seq<T>, a: seq<T>, s: seq<T>, b: seq<T>, t: seq<T>)
    requires |s| == |t| && front + (a + s) == front + (b + t)
    ensures a == b && s == t
  {
    var n := |front|;
    assert a + s == (front + (a + s))[n..] && b + t == (front + (b + t))[n..];
    assert a == (a + s)[..|a|] && b == (b + t)[..|b|];
    assert s == (a + s)[|a|..] && t == (b + t)[|b|..];
  }

  /** The message of a rejected receipt tells the reason. */
  lemma MessageTellsReason(reason: Rejection)
    ensures RejectionText(reason) == "unauthenticated" <==> reason == Unauthenticated
    ensures RejectionText(reason) == "unauthorized" <==> reason == Unauthorized
    ensures RejectionText(reason) == "replay" <==> reason == Replay
    ensures RejectionText(reason) == "rate_limited" <==> reason == RateLimited
  {
    assert |RejectionText(reason)| == match reason
                                      case Unauthenticated => 15
                                      case Unauthorized => 12
                                      case Replay => 6
                                      case RateLimited => 12;
    assert RejectionText(reason)[0] == (if reason == Replay || reason == RateLimited then 'r' else 'u');
  }

  /** Receipt and audit record agree with each other, with the request and with the verdict. */
  predicate Reports(result: GatewaySecurityResult, request: GatewayRequest, principal: GatewayPrincipal,
                    verdict: Option<Rejection>, at: Instant)
  {
    var receipt, audit := result.receipt, result.audit;
    && receipt.Valid()
    && receipt.requestId == audit.requestId == request.requestId
    && receipt.targetDomain == audit.targetDomain == request.targetDomain
    && receipt.receivedAt == audit.recordedAt == at
    && audit.principalId == principal.principalId
    && audit.action == request.action
    && audit.correlationId == request.correlation.correlationId
    && audit.rejection == verdict
    && (audit.decision.AcceptedDecision? <==> verdict.None?)
    && receipt.status == (if verdict.None? then AcceptedForReview else Rejected)
    && receipt.message == (if verdict.None? then None else Some(RejectionText(verdict.value)))
    && receipt.receiptId == "gateway-security:"
                            + (request.requestId + ":" + (if verdict.None? then "accepted" else "rejected"))
  }

  function ResultOf(request: GatewayRequest, principal: GatewayPrincipal, rejection: Option<Rejection>, at: Instant)
    : (result: GatewaySecurityResult)
    requires request.Valid() && at.aware
    ensures Reports(result, request, principal, rejection, at)
  {
    var decision := if rejection.None? then AcceptedDecision else RejectedDecision;
    ReceiptIdNotBlank(request.requestId, decision);
    var receipt := GatewayReceipt(
      ReceiptId(request.requestId, decision), request.requestId, request.targetDomain,
      if rejection.None? then AcceptedForReview else Rejected, at,
      if rejection.None? then None else Some(RejectionText(rejection.value)));
    var audit := GatewayAuditRecord(
      request.requestId, principal.principalId, request.targetDomain, request.action,
      request.correlation.correlationId, decision, rejection, at);
    GatewaySecurityResult(receipt, audit)
  }

  /** The counters are what rescanning the log counts, principal by principal, and no more. */
  ghost predicate Counts(counts: map<string, int>, log: seq<Entry>) {
    && (forall p :: p in counts <==> AcceptedBy(log, p) > 0)
    && (forall p :: p in counts ==> counts[p] == AcceptedBy(log, p))
  }

  /** The keys are those of the accepted requests of the log. */
  ghost predicate Keys(keys: set<string>, log: seq<Entry>) {
    forall k :: k in keys <==> KeyAccepted(log, k)
  }

  lemma CountsSnoc(counts: map<string, int>, log: seq<Entry>, e: Entry)
    requires Counts(counts, log)
    ensures var pid := e.call.principal.principalId;
            Counts(if e.Accepted() then counts[pid := (if pid in counts then counts[pid] else 0) + 1] else counts,
                   log + [e])
  {
    forall p ensures AcceptedBy(log + [e], p)
                  == AcceptedBy(log, p) + (if e.Accepted() && e.call.principal.principalId == p then 1 else 0)
    {
      AcceptedBySnoc(log, e, p);
    }
  }

  lemma KeysSnoc(keys: set<string>, log: seq<Entry>, e: Entry)
    requires Keys(keys, log)
    ensures Keys(if e.Accepted() && e.call.Key().Some? then keys + {e.call.Key().value} else keys, log + [e])
  {
    forall k ensures KeyAccepted(log + [e], k) <==> KeyAccepted(log, k) || (e.Accepted() && e.call.Key() == Some(k)) {
      KeyAcceptedSnoc(log, e, k);
    }
  }

  class InMemoryGatewaySecurity {
    var rateLimit: int
    var idempotency: set<string>
    var principalCounts: map<string, int>
    ghost var history: seq<Entry>

    /** Counters and keys are what rescanning the history finds, and no more. */
    ghost predicate Valid()
      reads this
    {
      && rateLimit > 0
      && Legal(rateLimit, history)
      && Counts(principalCounts, history)
      && Keys(idempotency, history)
    }

    constructor (limit: int)
      requires limit > 0
      ensures Valid() && rateLimit == limit && history == []
    {
      rateLimit := limit;
      idempotency := {};
      principalCounts := map[];
      history := [];
    }

    static method Create(limit: int := 100) returns (r: Result<InMemoryGatewaySecurity, EvaluationError>)
      ensures r.Success? <==> limit > 0
      ensures r.Success? ==> fresh(r.value) && r.value.Valid() && r.value.rateLimit == limit && r.value.history == []
    {
      if limit <= 0 {
        return Failure(NonPositiveRateLimit);
      }
      var store := new InMemoryGatewaySecurity(limit);
      return Success(store);
    }

    /** The verdict read off the counters and the key set is the rescanning policy's. */
    method Decide(request: GatewayRequest, principal: GatewayPrincipal) returns (rejection: Option<Rejection>)
      requires Valid()
      ensures rejection == Verdict(rateLimit, history, Call(request, principal))
      ensures var pid, key := principal.principalId, request.correlation.idempotencyKey;
              rejection.None?
              <==> && principal.authenticated && request.targetDomain in principal.permissions
                   && request.action in principal.permissions[request.targetDomain]
                   && request.action in AllowedActions(request.targetDomain)
                   && (pid in principalCounts ==> principalCounts[pid] < rateLimit)
                   && (key.Some? ==> key.value !in idempotency)
    {
      rejection := None;
      var key := request.correlation.Key();
      var pid := principal.principalId;
      if !principal.authenticated {
        rejection := Some(Unauthenticated);
      } else if !principal.Permits(request.targetDomain, request.action) {
        rejection := Some(Unauthorized);
      } else {
        var count := if pid in principalCounts then principalCounts[pid] else 0;
        if count >= rateLimit {
          rejection := Some(RateLimited);
        } else if key.Some? && key.value in idempotency {
          rejection := Some(Replay);
        }
      }
    }

    /** Updates the counters and the key set for an accepted request only. */
    method Record(request: GatewayRequest, principal: GatewayPrincipal, rejection: Option<Rejection>)
      requires Valid() && rejection == Verdict(rateLimit, history, Call(request, principal))
      modifies this
      ensures Valid() && rateLimit == old(rateLimit)
      ensures history == old(history) + [Entry(Call(request, principal), rejection)]
    {
      var key := request.correlation.Key();
      var pid := principal.principalId;
      ghost var e := Entry(Call(request, principal), rejection);
      LegalSnoc(rateLimit, history, e);
      CountsSnoc(principalCounts, history, e);
      KeysSnoc(idempotency, history, e);
      if rejection.None? {
        principalCounts := principalCounts[pid := (if pid in principalCounts then principalCounts[pid] else 0) + 1];
        if key.Some? {
          idempotency := idempotency + {key.value};
        }
      }
      history := history + [e];
    }

    /**
     Evaluates one request: the verdict is the one the rescanning policy gives for the
     whole history, and only an accepted request changes the store.
     */
    method Evaluate(request: GatewayRequest, principal: GatewayPrincipal, now: Option<Instant>, clock: Instant)
      returns (r: Result<GatewaySecurityResult, EvaluationError>)
      requires Valid() && request.Valid() && clock.aware
      modifies this
      ensures Valid() && rateLimit == old(rateLimit)
      ensures r.Failure? <==> now.Some? && !now.value.aware
      ensures r.Failure? ==> history == old(history) && idempotency == old(idempotency)
                             && principalCounts == old(principalCounts)
      ensures r.Success? ==>
                && history == old(history)
                              + [Entry(Call(request, principal),
                                       Verdict(rateLimit, old(history), Call(request, principal)))]
                && Reports(r.value, request, principal, Verdict(rateLimit, old(history), Call(request, principal)),
                           if now.Some? then now.value else clock)
      ensures r.Success? ==>
                var pid, key := principal.principalId, request.correlation.idempotencyKey;
                r.value.receipt.status == AcceptedForReview
                <==> && principal.authenticated && request.targetDomain in principal.permissions
                     && request.action in principal.permissions[request.targetDomain]
                     && (pid in old(principalCounts) ==> old(principalCounts)[pid] < rateLimit)
                     && (key.Some? ==> key.value !in old(idempotency))
    {
      var at := if now.Some? then now.value else clock;
      if !at.aware {
        return Failure(NaiveTimestamp);
      }
      var rejection := Decide(request, principal);
      Record(request, principal, rejection);
      return Success(ResultOf(request, principal, rejection, at));
    }

    /** The store itself obeys the run-level bounds. */
    lemma StoreBounds()
      requires Valid()
      ensures forall p :: p in principalCounts ==> 0 < principalCounts[p] <= rateLimit
      ensures |idempotency| <= AcceptedCount(history) <= |principalCounts| * rateLimit
    {
      forall p | p in principalCounts ensures principalCounts[p] <= rateLimit {
        RateBound(rateLimit, history, p);
      }
      AcceptedKeysAre(history);
      assert idempotency == AcceptedKeys(history);
      assert principalCounts.Keys == Principals(history);
      KeyCountBound(rateLimit, history);
    }
  }

  /** Stores with equivalent histories are field-by-field equal. */
  lemma EqualStores(a: InMemoryGatewaySecurity, b: InMemoryGatewaySecurity)
    requires a.Valid() && b.Valid()
    ensures SameStore(a.history, b.history)
            <==> a.principalCounts == b.principalCounts && a.idempotency == b.idempotency
  {
    if a.principalCounts == b.principalCounts && a.idempotency == b.idempotency {
      forall p ensures AcceptedBy(a.history, p) == AcceptedBy(b.history, p) {
        assert p in a.principalCounts <==> p in b.principalCounts;
      }
    }
  }
}
