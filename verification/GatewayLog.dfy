/**
 The enforcement policy stated without any store: every verdict is found by rescanning
 the whole log of earlier requests and verdicts.  GatewaySafety and GatewayRuns say what
 every run keeps; GatewaySecurity shows that the store of counters and keys computes the
 same verdicts.
 */
module GatewayLog {
  import opened Wrappers
  import opened Gateway

  datatype Rejection = Unauthenticated | Unauthorized | Replay | RateLimited

  datatype Call = Call(request: GatewayRequest, principal: GatewayPrincipal) {
    predicate Authorized() {
      principal.Permits(request.targetDomain, request.action)
    }

    function Key(): Option<string> {
      request.correlation.Key()
    }
  }

  /** One evaluated request; `verdict` is `None` for an accepted one. */
  datatype Entry = Entry(call: Call, verdict: Option<Rejection>) {
    predicate Accepted() {
      verdict.None?
    }
  }

  /** How many requests of a principal were accepted. */
  function AcceptedBy(log: seq<Entry>, principalId: string): nat {
    if log == [] then 0
    else
      var last := log[|log| - 1];
      AcceptedBy(log[..|log| - 1], principalId)
      + (if last.Accepted() && last.call.principal.principalId == principalId then 1 else 0)
  }

  predicate KeyAccepted(log: seq<Entry>, key: string) {
    exists i :: 0 <= i < |log| && log[i].Accepted() && log[i].call.Key() == Some(key)
  }

  /** The decision order: authentication, authorization, rate, replay. */
  function Verdict(limit: int, log: seq<Entry>, call: Call): Option<Rejection> {
    if !call.principal.authenticated then Some(Unauthenticated)
    else if !call.Authorized() then Some(Unauthorized)
    else if AcceptedBy(log, call.principal.principalId) >= limit then Some(RateLimited)
    else if call.Key().Some? && KeyAccepted(log, call.Key().value) then Some(Replay)
    else None
  }

  /** The entries a sequence of calls produces when it follows `log`. */
  function Continue(limit: int, log: seq<Entry>, calls: seq<Call>): (r: seq<Entry>)
    ensures |r| == |calls|
    ensures forall i :: 0 <= i < |r| ==> r[i].call == calls[i]
    decreases |calls|
  {
    if calls == [] then []
    else
      var e := Entry(calls[0], Verdict(limit, log, calls[0]));
      [e] + Continue(limit, log + [e], calls[1..])
  }

  lemma ContinueStep(limit: int, log: seq<Entry>, calls: seq<Call>, e: Entry)
    requires calls != [] && e == Entry(calls[0], Verdict(limit, log, calls[0]))
    ensures log + Continue(limit, log, calls) == log + [e] + Continue(limit, log + [e], calls[1..])
  {
  }

  /** Every verdict in the log is the one its own past dictates. */
  ghost predicate Legal(limit: int, log: seq<Entry>) {
    forall i :: 0 <= i < |log| ==> log[i].verdict == Verdict(limit, log[..i], log[i].call)
  }

  lemma LegalSnoc(limit: int, log: seq<Entry>, e: Entry)
    requires Legal(limit, log) && e.verdict == Verdict(limit, log, e.call)
    ensures Legal(limit, log + [e])
  {
    forall i | 0 <= i < |log + [e]|
      ensures (log + [e])[i].verdict == Verdict(limit, (log + [e])[..i], (log + [e])[i].call)
    {
      assert (log + [e])[..i] == log[..i];
      assert log[..|log|] == log;
    }
  }

  /** Every run from the empty store produces a legal log. */
  lemma {:induction false} RunsAreLegal(limit: int, log: seq<Entry>, calls: seq<Call>)
    requires Legal(limit, log)
    ensures Legal(limit, log + Continue(limit, log, calls))
    decreases |calls|
  {
    if calls == [] {
      assert log + Continue(limit, log, calls) == log;
    } else {
      var e := Entry(calls[0], Verdict(limit, log, calls[0]));
      LegalSnoc(limit, log, e);
      RunsAreLegal(limit, log + [e], calls[1..]);
      ContinueStep(limit, log, calls, e);
    }
  }

  // ----- one more entry -----

  lemma KeyAcceptedSnoc(log: seq<Entry>, e: Entry, k: string)
    ensures KeyAccepted(log + [e], k) <==> KeyAccepted(log, k) || (e.Accepted() && e.call.Key() == Some(k))
  {
    var t := log + [e];
    if KeyAccepted(log, k) {
      var i :| 0 <= i < |log| && log[i].Accepted() && log[i].call.Key() == Some(k);
      assert t[i] == log[i];
    }
    if e.Accepted() && e.call.Key() == Some(k) {
      assert t[|log|] == e;
    }
  }

  lemma AcceptedBySnoc(log: seq<Entry>, e: Entry, p: string)
    ensures AcceptedBy(log + [e], p)
         == AcceptedBy(log, p) + (if e.Accepted() && e.call.principal.principalId == p then 1 else 0)
  {
    assert (log + [e])[..|log|] == log;
  }
}
