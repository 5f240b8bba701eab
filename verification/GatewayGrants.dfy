/**
 Who may have a request accepted, in the principal's own fields: the grant of the one pair
 of domain and action asked for decides, and no other grant has any influence on a run.
 */
module GatewayGrants {
  import opened Wrappers
  import opened Gateway
  import opened GatewayLog
  import opened GatewayRuns
  import opened GatewaySafety

  /** The grant of the one pair is enough: such a principal is never told that it lacks authority. */
  lemma GrantIsEnough(limit: int, log: seq<Entry>, request: GatewayRequest, principalId: string)
    requires request.Valid()
    ensures var granted := GatewayPrincipal(principalId, true, map[request.targetDomain := {request.action}]);
            Verdict(limit, log, Call(request, granted)) !in {Some(Unauthenticated), Some(Unauthorized)}
  {
  }

  /** Taking the one pair away turns an acceptance, and every verdict after authentication, into `Unauthorized`. */
  lemma RevokedIsUnauthorized(limit: int, log: seq<Entry>, call: Call)
    requires Verdict(limit, log, call) != Some(Unauthenticated)
    requires call.request.targetDomain in call.principal.permissions
    ensures var domain, held := call.request.targetDomain, call.principal.permissions;
            var less := held[domain := held[domain] - {call.request.action}];
            && Verdict(limit, log, call.(principal := call.principal.(permissions := less))) == Some(Unauthorized)
            && Verdict(limit, log, call.(principal := call.principal.(permissions := held - {domain})))
               == Some(Unauthorized)
  {
  }

  /** The pair of domain and action is among the principal's grants. */
  predicate Holds(principal: GatewayPrincipal, domain: EcologyDomain, action: GatewayAction) {
    domain in principal.permissions && action in principal.permissions[domain]
  }

  /** The same request by the same principal, whose grants may differ in every pair but the one asked for. */
  predicate SameForThePair(x: Call, y: Call) {
    && x.request == y.request
    && x.principal.principalId == y.principal.principalId
    && x.principal.authenticated == y.principal.authenticated
    && (Holds(x.principal, x.request.targetDomain, x.request.action)
        <==> Holds(y.principal, x.request.targetDomain, x.request.action))
  }

  lemma SamePairSameVerdict(limit: int, a: seq<Entry>, b: seq<Entry>, x: Call, y: Call)
    requires SameStore(a, b) && SameForThePair(x, y)
    ensures Verdict(limit, a, x) == Verdict(limit, b, y)
  {
  }

  lemma SamePairSameStore(a: seq<Entry>, b: seq<Entry>, d: Entry, e: Entry)
    requires SameStore(a, b) && SameForThePair(d.call, e.call) && d.verdict == e.verdict
    ensures SameStore(a + [d], b + [e])
  {
    forall p ensures AcceptedBy(a + [d], p) == AcceptedBy(b + [e], p) {
      AcceptedBySnoc(a, d, p);
      AcceptedBySnoc(b, e, p);
    }
    forall k ensures KeyAccepted(a + [d], k) <==> KeyAccepted(b + [e], k) {
      KeyAcceptedSnoc(a, d, k);
      KeyAcceptedSnoc(b, e, k);
    }
  }

  ghost predicate SameForTheirPairs(xs: seq<Call>, ys: seq<Call>) {
    |xs| == |ys| && forall i :: 0 <= i < |xs| ==> SameForThePair(xs[i], ys[i])
  }

  /** Changing any other grants of any of the callers changes no verdict of a run and not the final store. */
  lemma {:induction false} OtherGrantsDoNotMatter(
      limit: int, a: seq<Entry>, b: seq<Entry>, xs: seq<Call>, ys: seq<Call>)
    requires SameStore(a, b) && SameForTheirPairs(xs, ys)
    ensures var r, s := Continue(limit, a, xs), Continue(limit, b, ys);
            && (forall i :: 0 <= i < |xs| ==> r[i].verdict == s[i].verdict)
            && SameStore(a + r, b + s)
    decreases |xs|
  {
    if xs == [] {
      assert a + [] == a && b + [] == b;
    } else {
      var d := Entry(xs[0], Verdict(limit, a, xs[0]));
      var e := Entry(ys[0], Verdict(limit, b, ys[0]));
      SamePairSameVerdict(limit, a, b, xs[0], ys[0]);
      SamePairSameStore(a, b, d, e);
      OtherGrantsDoNotMatter(limit, a + [d], b + [e], xs[1..], ys[1..]);
      ContinueStep(limit, a, xs, d);
      ContinueStep(limit, b, ys, e);
    }
  }

  // ----- keys -----

  /** The request with another idempotency key. */
  function WithKey(call: Call, key: Option<string>): Call {
    call.(request := call.request.(correlation := call.request.correlation.(idempotencyKey := key)))
  }

  /** An empty key is no key: it is never stored, never replayed, and not enough for a material action. */
  lemma EmptyKeyIsNoKey(limit: int, log: seq<Entry>, call: Call)
    ensures Verdict(limit, log, WithKey(call, Some(""))) == Verdict(limit, log, WithKey(call, None))
    ensures var verdict := Verdict(limit, log, call);
            SameStore(log + [Entry(WithKey(call, Some("")), verdict)], log + [Entry(WithKey(call, None), verdict)])
    ensures call.request.action != RegisterReference ==> !WithKey(call, Some("")).request.Valid()
  {
    var verdict := Verdict(limit, log, call);
    var x, y := Entry(WithKey(call, Some("")), verdict), Entry(WithKey(call, None), verdict);
    forall p ensures AcceptedBy(log + [x], p) == AcceptedBy(log + [y], p) {
      AcceptedBySnoc(log, x, p);
      AcceptedBySnoc(log, y, p);
    }
    forall k ensures KeyAccepted(log + [x], k) <==> KeyAccepted(log + [y], k) {
      KeyAcceptedSnoc(log, x, k);
      KeyAcceptedSnoc(log, y, k);
    }
  }

  /** A key once accepted is refused to everybody from then on; in the entries' own fields. */
  lemma KeyUsedOnce(limit: int, log: seq<Entry>, i: nat, j: nat)
    requires Legal(limit, log) && i < j < |log| && log[i].Accepted()
    requires log[i].call.request.correlation.idempotencyKey == log[j].call.request.correlation.idempotencyKey
    requires log[i].call.request.correlation.idempotencyKey !in {None, Some("")}
    ensures log[j].verdict in {Some(Unauthenticated), Some(Unauthorized), Some(RateLimited), Some(Replay)}
  {
    VerdictReasons(limit, log, j);
    if log[j].Accepted() {
      AtMostOnce(limit, log, i, j);
    }
  }
}
