/** What every run of the gateway keeps: at most once, the rate limit, only authorized requests. */
module GatewaySafety {
  import opened Arithmetic
  import opened Wrappers
  import opened Gateway
  import opened GatewayLog

  /** At most once: no key is accepted twice, by whatever principals. */
  lemma AtMostOnce(limit: int, log: seq<Entry>, i: nat, j: nat)
    requires Legal(limit, log)
    requires i < j < |log| && log[i].Accepted() && log[j].Accepted()
    ensures log[i].call.Key().None? || log[i].call.Key() != log[j].call.Key()
  {
    assert log[..j][i] == log[i];
  }

  /** The rate limit bounds every principal's acceptances. */
  lemma {:induction false} RateBound(limit: int, log: seq<Entry>, principalId: string)
    requires limit > 0 && Legal(limit, log)
    ensures AcceptedBy(log, principalId) <= limit
  {
    if log != [] {
      var n := |log| - 1;
      forall i | 0 <= i < n
        ensures log[..n][i].verdict == Verdict(limit, log[..n][..i], log[..n][i].call)
      {
        assert log[..n][..i] == log[..i];
      }
      RateBound(limit, log[..n], principalId);
    }
  }

  /**
   An accepted request came from an authenticated principal that was granted the very pair of
   domain and action asked for, which the table lists; a material one carries a key.
   */
  lemma AcceptedIsAuthorized(limit: int, log: seq<Entry>, i: nat)
    requires Legal(limit, log) && i < |log| && log[i].Accepted()
    ensures var request, principal := log[i].call.request, log[i].call.principal;
            && principal.authenticated
            && request.targetDomain in principal.permissions
            && request.action in principal.permissions[request.targetDomain]
            && request.action in AllowedActions(request.targetDomain)
    ensures var request := log[i].call.request;
            request.Valid() && request.action != RegisterReference ==>
              request.correlation.idempotencyKey !in {None, Some("")}
  {
    assert log[i].verdict == Verdict(limit, log[..i], log[i].call);
  }

  /** The keys of the accepted requests. */
  function AcceptedKeys(log: seq<Entry>): set<string> {
    if log == [] then {}
    else
      var last := log[|log| - 1];
      AcceptedKeys(log[..|log| - 1])
      + (if last.Accepted() && last.call.Key().Some? then {last.call.Key().value} else {})
  }

  lemma AcceptedKeysAre(log: seq<Entry>)
    ensures forall k :: k in AcceptedKeys(log) <==> KeyAccepted(log, k)
    ensures |AcceptedKeys(log)| <= AcceptedCount(log)
  {
    forall k ensures k in AcceptedKeys(log) <==> KeyAccepted(log, k) {
      AcceptedKeyIff(log, k);
    }
    AcceptedKeysCount(log);
  }

  lemma {:induction false} AcceptedKeyIff(log: seq<Entry>, k: string)
    ensures k in AcceptedKeys(log) <==> KeyAccepted(log, k)
  {
    if log != [] {
      var n := |log| - 1;
      AcceptedKeyIff(log[..n], k);
      assert log == log[..n] + [log[n]];
      KeyAcceptedSnoc(log[..n], log[n], k);
    }
  }

  lemma {:induction false} AcceptedKeysCount(log: seq<Entry>)
    ensures |AcceptedKeys(log)| <= AcceptedCount(log)
  {
    if log != [] {
      AcceptedKeysCount(log[..|log| - 1]);
    }
  }

  function AcceptedCount(log: seq<Entry>): nat {
    if log == [] then 0
    else AcceptedCount(log[..|log| - 1]) + (if log[|log| - 1].Accepted() then 1 else 0)
  }

  /** The principals with at least one acceptance. */
  function Principals(log: seq<Entry>): (ps: set<string>)
    ensures forall p :: p in ps <==> AcceptedBy(log, p) > 0
  {
    if log == [] then {}
    else
      var n := |log| - 1;
      var ps := Principals(log[..n]);
      if log[n].Accepted() then ps + {log[n].call.principal.principalId} else ps
  }

  function AcceptedAmong(log: seq<Entry>, ps: set<string>): nat {
    if log == [] then 0
    else
      var last := log[|log| - 1];
      AcceptedAmong(log[..|log| - 1], ps)
      + (if last.Accepted() && last.call.principal.principalId in ps then 1 else 0)
  }

  lemma {:induction false} AmongSplits(log: seq<Entry>, ps: set<string>, p: string)
    requires p in ps
    ensures AcceptedAmong(log, ps) == AcceptedAmong(log, ps - {p}) + AcceptedBy(log, p)
  {
    if log != [] {
      AmongSplits(log[..|log| - 1], ps, p);
    }
  }

  lemma {:induction false} AmongNone(log: seq<Entry>)
    ensures AcceptedAmong(log, {}) == 0
  {
    if log != [] {
      AmongNone(log[..|log| - 1]);
    }
  }

  lemma {:induction false} AmongBound(limit: int, log: seq<Entry>, ps: set<string>)
    requires limit > 0 && Legal(limit, log)
    ensures AcceptedAmong(log, ps) <= |ps| * limit
  {
    if ps == {} {
      AmongNone(log);
    } else {
      var p :| p in ps;
      AmongSplits(log, ps, p);
      AmongBound(limit, log, ps - {p});
      RateBound(limit, log, p);
      assert ps == ps - {p} + {p} && |ps| == |ps - {p}| + 1;
      OneMore(|ps - {p}|, limit);
    }
  }

  lemma {:induction false} AmongAll(log: seq<Entry>, ps: set<string>)
    requires Principals(log) <= ps
    ensures AcceptedAmong(log, ps) == AcceptedCount(log)
  {
    if log != [] {
      var n := |log| - 1;
      forall p | p in Principals(log[..n]) ensures p in ps {
        assert AcceptedBy(log, p) > 0;
      }
      AmongAll(log[..n], ps);
      if log[n].Accepted() {
        assert AcceptedBy(log, log[n].call.principal.principalId) > 0;
      }
    }
  }

  /** Stored keys are bounded by acceptances, and those by principals times the limit. */
  lemma KeyCountBound(limit: int, log: seq<Entry>)
    requires limit > 0 && Legal(limit, log)
    ensures |AcceptedKeys(log)| <= AcceptedCount(log) <= |Principals(log)| * limit
  {
    AcceptedKeysAre(log);
    AmongAll(log, Principals(log));
    AmongBound(limit, log, Principals(log));
  }

  /** No key is accepted twice. */
  ghost predicate NoReplay(log: seq<Entry>) {
    forall i, j :: 0 <= i < j < |log| && log[i].Accepted() && log[j].Accepted() && log[i].call.Key().Some? ==>
      log[i].call.Key() != log[j].call.Key()
  }

  /** Every accepted request was granted to its principal, and carries a key if it is material. */
  ghost predicate OnlyAuthorized(log: seq<Entry>) {
    forall i :: 0 <= i < |log| && log[i].Accepted() ==> Granted(log[i].call)
  }

  predicate Granted(call: Call) {
    var request, principal := call.request, call.principal;
    && principal.authenticated
    && request.targetDomain in principal.permissions
    && request.action in principal.permissions[request.targetDomain]
    && request.action in AllowedActions(request.targetDomain)
    && (request.action != RegisterReference ==> request.correlation.idempotencyKey !in {None, Some("")})
  }

  lemma LegalNoReplay(limit: int, log: seq<Entry>)
    requires Legal(limit, log)
    ensures NoReplay(log)
  {
    forall i, j | 0 <= i < j < |log| && log[i].Accepted() && log[j].Accepted() && log[i].call.Key().Some?
      ensures log[i].call.Key() != log[j].call.Key()
    {
      AtMostOnce(limit, log, i, j);
    }
  }

  lemma LegalOnlyAuthorized(limit: int, log: seq<Entry>)
    requires Legal(limit, log) && forall i :: 0 <= i < |log| ==> log[i].call.request.Valid()
    ensures OnlyAuthorized(log)
  {
    forall i | 0 <= i < |log| && log[i].Accepted() ensures Granted(log[i].call) {
      AcceptedIsAuthorized(limit, log, i);
    }
  }

  ghost predicate WithinRate(limit: int, log: seq<Entry>) {
    forall p :: AcceptedBy(log, p) <= limit
  }

  lemma LegalWithinRate(limit: int, log: seq<Entry>)
    requires limit > 0 && Legal(limit, log)
    ensures WithinRate(limit, log)
  {
    forall p ensures AcceptedBy(log, p) <= limit {
      RateBound(limit, log, p);
    }
  }

  lemma NewStoreRunLegal(limit: int, calls: seq<Call>)
    ensures Legal(limit, Continue(limit, [], calls))
  {
    RunsAreLegal(limit, [], calls);
    assert [] + Continue(limit, [], calls) == Continue(limit, [], calls);
  }

  /** Whatever is sent to a new store, and by whom, all of this holds of what it did. */
  lemma RunsAreSafe(limit: int, calls: seq<Call>)
    requires limit > 0
    requires forall i :: 0 <= i < |calls| ==> calls[i].request.Valid()
    ensures var log := Continue(limit, [], calls);
            && NoReplay(log) && OnlyAuthorized(log) && WithinRate(limit, log)
            && |AcceptedKeys(log)| <= AcceptedCount(log) <= |Principals(log)| * limit
  {
    var log := Continue(limit, [], calls);
    NewStoreRunLegal(limit, calls);
    LegalNoReplay(limit, log);
    LegalOnlyAuthorized(limit, log);
    LegalWithinRate(limit, log);
    KeyCountBound(limit, log);
  }

  /** Some earlier accepted request of the log carries the key. */
  ghost predicate Reused(log: seq<Entry>, i: nat)
    requires i < |log|
  {
    && log[i].call.Key().Some?
    && exists j :: 0 <= j < i && log[j].Accepted() && log[j].call.Key() == log[i].call.Key()
  }

  /**
   Nothing else is rejected: a request is accepted exactly when its principal is
   authenticated, holds the pair asked for, which the table lists, and is below the limit,
   and its key, if any, is new.  The reason for a rejection is the first of the four that
   applies.
   */
  lemma VerdictReasons(limit: int, log: seq<Entry>, i: nat)
    requires Legal(limit, log) && i < |log|
    ensures var request, principal := log[i].call.request, log[i].call.principal;
            var count := AcceptedBy(log[..i], principal.principalId);
            var granted := && request.targetDomain in principal.permissions
                           && request.action in principal.permissions[request.targetDomain]
                           && request.action in AllowedActions(request.targetDomain);
            && (log[i].verdict == Some(Unauthenticated) <==> !principal.authenticated)
            && (log[i].verdict == Some(Unauthorized) <==> principal.authenticated && !granted)
            && (log[i].verdict == Some(RateLimited) <==> principal.authenticated && granted && count >= limit)
            && (log[i].verdict == Some(Replay)
                <==> principal.authenticated && granted && count < limit && Reused(log, i))
            && (log[i].Accepted() <==> principal.authenticated && granted && count < limit && !Reused(log, i))
  {
    var call := log[i].call;
    assert log[i].verdict == Verdict(limit, log[..i], call);
    if call.Key().Some? {
      assert KeyAccepted(log[..i], call.Key().value) <==> Reused(log, i) by {
        assert forall j :: 0 <= j < i ==> log[..i][j] == log[j];
      }
    }
  }
}
