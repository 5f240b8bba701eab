/**
 What whole runs against the policy of GatewayLog can and cannot tell: rejected requests
 leave no trace, and independent ones may be swapped.
 */
module GatewayRuns {
  import opened Wrappers
  import opened Text
  import opened Gateway
  import opened GatewayLog

  // ----- equivalence of stores -----

  /** The two logs leave the same counters and the same stored keys. */
  ghost predicate SameStore(a: seq<Entry>, b: seq<Entry>) {
    && (forall p :: AcceptedBy(a, p) == AcceptedBy(b, p))
    && (forall k :: KeyAccepted(a, k) <==> KeyAccepted(b, k))
  }

  lemma SameStoreSnoc(a: seq<Entry>, b: seq<Entry>, e: Entry)
    requires SameStore(a, b)
    ensures SameStore(a + [e], b + [e])
  {
    forall p ensures AcceptedBy(a + [e], p) == AcceptedBy(b + [e], p) {
      AcceptedBySnoc(a, e, p);
      AcceptedBySnoc(b, e, p);
    }
    forall k ensures KeyAccepted(a + [e], k) <==> KeyAccepted(b + [e], k) {
      KeyAcceptedSnoc(a, e, k);
      KeyAcceptedSnoc(b, e, k);
    }
  }

  lemma RejectedLeavesStore(log: seq<Entry>, e: Entry)
    requires !e.Accepted()
    ensures SameStore(log + [e], log)
  {
    forall p ensures AcceptedBy(log + [e], p) == AcceptedBy(log, p) { AcceptedBySnoc(log, e, p); }
    forall k ensures KeyAccepted(log + [e], k) <==> KeyAccepted(log, k) { KeyAcceptedSnoc(log, e, k); }
  }

  lemma SameStoreSameVerdict(limit: int, a: seq<Entry>, b: seq<Entry>, call: Call)
    requires SameStore(a, b)
    ensures Verdict(limit, a, call) == Verdict(limit, b, call)
  {
  }

  /** Equal stores give every later call the same verdict and stay equal. */
  lemma {:induction false} SameStoreSameFuture(limit: int, a: seq<Entry>, b: seq<Entry>, calls: seq<Call>)
    requires SameStore(a, b)
    ensures Continue(limit, a, calls) == Continue(limit, b, calls)
    ensures SameStore(a + Continue(limit, a, calls), b + Continue(limit, b, calls))
    decreases |calls|
  {
    if calls == [] {
      assert a + [] == a && b + [] == b;
    } else {
      var e := Entry(calls[0], Verdict(limit, a, calls[0]));
      SameStoreSameVerdict(limit, a, b, calls[0]);
      SameStoreSnoc(a, b, e);
      SameStoreSameFuture(limit, a + [e], b + [e], calls[1..]);
      ContinueStep(limit, a, calls, e);
      ContinueStep(limit, b, calls, e);
    }
  }

  // ----- deleting rejected requests -----

  function Keep<T>(s: seq<T>, mask: seq<bool>): seq<T>
    requires |mask| == |s|
  {
    if s == [] then [] else (if mask[0] then [s[0]] else []) + Keep(s[1..], mask[1..])
  }

  /**
   Deleting any of the rejected requests of a run leaves every remaining verdict and the
   final store unchanged.
   */
  lemma {:induction false} RejectedAreInvisible(
      limit: int, a: seq<Entry>, b: seq<Entry>, calls: seq<Call>, mask: seq<bool>)
    requires SameStore(a, b) && |mask| == |calls|
    requires forall i :: 0 <= i < |calls| && !mask[i] ==> !Continue(limit, a, calls)[i].Accepted()
    ensures Continue(limit, b, Keep(calls, mask)) == Keep(Continue(limit, a, calls), mask)
    ensures SameStore(a + Continue(limit, a, calls), b + Continue(limit, b, Keep(calls, mask)))
    decreases |calls|
  {
    if calls == [] {
      assert a + [] == a && b + [] == b;
    } else {
      var e := Entry(calls[0], Verdict(limit, a, calls[0]));
      var all, rest := Continue(limit, a, calls), Continue(limit, a + [e], calls[1..]);
      ContinueStep(limit, a, calls, e);
      assert all == [e] + rest;
      forall i | 0 <= i < |calls[1..]| && !mask[1..][i] ensures !rest[i].Accepted() {
        assert rest[i] == all[i + 1] && !mask[i + 1];
      }
      if mask[0] {
        SameStoreSameVerdict(limit, a, b, calls[0]);
        SameStoreSnoc(a, b, e);
        RejectedAreInvisible(limit, a + [e], b + [e], calls[1..], mask[1..]);
        ContinueStep(limit, b, Keep(calls, mask), e);
        KeepStep(calls, mask);
        KeepStep(all, mask);
      } else {
        assert all[0] == e;
        RejectedLeavesStore(a, e);
        RejectedAreInvisible(limit, a + [e], b, calls[1..], mask[1..]);
        KeepStep(calls, mask);
        KeepStep(all, mask);
      }
    }
  }

  lemma KeepStep<T>(s: seq<T>, mask: seq<bool>)
    requires |mask| == |s| > 0
    ensures Keep(s, mask) == (if mask[0] then [s[0]] + Keep(s[1..], mask[1..]) else Keep(s[1..], mask[1..]))
    ensures mask[0] ==> Keep(s, mask)[0] == s[0] && Keep(s, mask)[1..] == Keep(s[1..], mask[1..])
  {
  }

  // ----- commuting requests -----

  /** Different principals, and not the same key. */
  predicate Independent(x: Call, y: Call) {
    && x.principal.principalId != y.principal.principalId
    && (x.Key().None? || x.Key() != y.Key())
  }

  /** A request does not influence the verdict of an independent one. */
  lemma VerdictUnaffected(limit: int, log: seq<Entry>, e: Entry, call: Call)
    requires Independent(e.call, call)
    ensures Verdict(limit, log + [e], call) == Verdict(limit, log, call)
  {
    AcceptedBySnoc(log, e, call.principal.principalId);
    if call.Key().Some? {
      KeyAcceptedSnoc(log, e, call.Key().value);
    }
  }

  /**
   Two adjacent independent requests can be swapped anywhere in a run: both keep their
   verdicts, everything after them is decided alike, and the final stores are the same.
   */
  lemma IndependentCommute(limit: int, log: seq<Entry>, x: Call, y: Call, later: seq<Call>)
    requires Independent(x, y)
    ensures var r := Continue(limit, log, [x, y] + later);
            var s := Continue(limit, log, [y, x] + later);
            r[0] == s[1] && r[1] == s[0] && r[2..] == s[2..] && SameStore(log + r, log + s)
  {
    var ex := Entry(x, Verdict(limit, log, x));
    var ey := Entry(y, Verdict(limit, log, y));
    TwoIndependent(limit, log, x, y, later);
    TwoIndependent(limit, log, y, x, later);
    SwapKeepsStore(log, ex, ey);
    SameStoreSameFuture(limit, log + [ex] + [ey], log + [ey] + [ex], later);
  }

  lemma TwoIndependent(limit: int, log: seq<Entry>, x: Call, y: Call, later: seq<Call>)
    requires Independent(x, y)
    ensures var ex := Entry(x, Verdict(limit, log, x));
            var ey := Entry(y, Verdict(limit, log, y));
            var t := Continue(limit, log + [ex] + [ey], later);
            && Continue(limit, log, [x, y] + later) == [ex, ey] + t
            && log + Continue(limit, log, [x, y] + later) == log + [ex] + [ey] + t
  {
    var ex := Entry(x, Verdict(limit, log, x));
    var ey := Entry(y, Verdict(limit, log, y));
    VerdictUnaffected(limit, log, ex, y);
    assert [x, y] + later == [x] + ([y] + later);
    Regroup(log, ex, ey, Continue(limit, log + [ex] + [ey], later));
  }

  lemma Regroup<T>(log: seq<T>, x: T, y: T, t: seq<T>)
    ensures [x] + ([y] + t) == [x, y] + t
    ensures log + ([x, y] + t) == log + [x] + [y] + t
  {
  }

  lemma SwapKeepsStore(log: seq<Entry>, ex: Entry, ey: Entry)
    ensures SameStore(log + [ex] + [ey], log + [ey] + [ex])
  {
    var a, b := log + [ex] + [ey], log + [ey] + [ex];
    forall p ensures AcceptedBy(a, p) == AcceptedBy(b, p) {
      AcceptedBySnoc(log, ex, p);
      AcceptedBySnoc(log + [ex], ey, p);
      AcceptedBySnoc(log, ey, p);
      AcceptedBySnoc(log + [ey], ex, p);
    }
    forall k ensures KeyAccepted(a, k) <==> KeyAccepted(b, k) {
      KeyAcceptedSnoc(log, ex, k);
      KeyAcceptedSnoc(log + [ex], ey, k);
      KeyAcceptedSnoc(log, ey, k);
      KeyAcceptedSnoc(log + [ey], ex, k);
    }
  }

  /** A request any principal id can have accepted without storing a key. */
  function Ping(principalId: string): (c: Call)
    ensures c.request.Valid() && c.Authorized() && c.Key().None? && c.principal.principalId == principalId
  {
    BlankIffAllSpace("r");
    assert "r"[0] == 'r';
    Call(GatewayRequest("r", "1.0", ExternalAuthority, RegisterReference, Correlation("c", None), None),
         GatewayPrincipal(principalId, true, map[ExternalAuthority := {RegisterReference}]))
  }

  /** The two logs hold the same accepted keys. */
  ghost predicate SameKeys(a: seq<Entry>, b: seq<Entry>) {
    forall k :: KeyAccepted(a, k) <==> KeyAccepted(b, k)
  }

  lemma KeylessSnoc(log: seq<Entry>, e: Entry)
    requires e.call.Key().None?
    ensures SameKeys(log + [e], log)
  {
    forall k ensures KeyAccepted(log + [e], k) <==> KeyAccepted(log, k) {
      KeyAcceptedSnoc(log, e, k);
    }
  }

  ghost predicate AllPings(calls: seq<Call>, principalId: string) {
    forall i :: 0 <= i < |calls| ==> calls[i] == Ping(principalId)
  }

  lemma {:induction false} PingsAccepted(limit: int, log: seq<Entry>, principalId: string, calls: seq<Call>)
    requires AllPings(calls, principalId) && AcceptedBy(log, principalId) + |calls| <= limit
    ensures var after := log + Continue(limit, log, calls);
            AcceptedBy(after, principalId) == AcceptedBy(log, principalId) + |calls| && SameKeys(after, log)
    decreases |calls|
  {
    if calls == [] {
      assert log + Continue(limit, log, calls) == log;
    } else {
      var e := Entry(calls[0], Verdict(limit, log, calls[0]));
      AcceptedBySnoc(log, e, principalId);
      KeylessSnoc(log, e);
      PingsAccepted(limit, log + [e], principalId, calls[1..]);
      ContinueStep(limit, log, calls, e);
    }
  }

  /** After any past, putting `x` first leaves the verdict on `y` as it was. */
  ghost predicate NeverAffects(limit: int, x: Call, y: Call) {
    forall past: seq<Call> | forall i :: 0 <= i < |past| ==> past[i].request.Valid() ::
      var log := Continue(limit, [], past);
      Verdict(limit, log + [Entry(x, Verdict(limit, log, x))], y) == Verdict(limit, log, y)
  }

  lemma DependentVerdicts(limit: int, log: seq<Entry>, x: Call, y: Call)
    requires limit > 0 && x.Authorized() && y.Authorized() && !Independent(x, y)
    requires forall k :: !KeyAccepted(log, k)
    requires AcceptedBy(log, x.principal.principalId) < limit && AcceptedBy(log, y.principal.principalId) < limit
    requires x.principal.principalId == y.principal.principalId
             ==> AcceptedBy(log, x.principal.principalId) == limit - 1
    ensures Verdict(limit, log, y).None?
    ensures Verdict(limit, log + [Entry(x, Verdict(limit, log, x))], y).Some?
  {
    var e := Entry(x, None);
    assert Verdict(limit, log, x).None?;
    if x.principal.principalId == y.principal.principalId {
      AcceptedBySnoc(log, e, y.principal.principalId);
    } else {
      KeyAcceptedSnoc(log, e, x.Key().value);
    }
  }

  /** A past after which `x`, coming first, turns the acceptance of `y` into a rejection. */
  lemma DependentWitness(limit: int, x: Call, y: Call) returns (past: seq<Call>)
    requires limit > 0 && x.Authorized() && y.Authorized() && !Independent(x, y)
    ensures forall i :: 0 <= i < |past| ==> past[i].request.Valid()
    ensures var log := Continue(limit, [], past);
            Verdict(limit, log, y).None? && Verdict(limit, log + [Entry(x, Verdict(limit, log, x))], y).Some?
  {
    var pid := x.principal.principalId;
    var n := if y.principal.principalId == pid then limit - 1 else 0;
    past := seq(n, _ => Ping(pid));
    PingsAccepted(limit, [], pid, past);
    var log := Continue(limit, [], past);
    assert [] + log == log;
    DependentVerdicts(limit, log, x, y);
  }

  /** Independence is exactly what makes two authorized requests insensitive to their order. */
  lemma IndependentIff(limit: int, x: Call, y: Call)
    requires limit > 0 && x.Authorized() && y.Authorized()
    ensures NeverAffects(limit, x, y) <==> Independent(x, y)
  {
    if Independent(x, y) {
      forall past: seq<Call> | forall i :: 0 <= i < |past| ==> past[i].request.Valid()
        ensures var log := Continue(limit, [], past);
                Verdict(limit, log + [Entry(x, Verdict(limit, log, x))], y) == Verdict(limit, log, y)
      {
        var log := Continue(limit, [], past);
        VerdictUnaffected(limit, log, Entry(x, Verdict(limit, log, x)), y);
      }
    } else {
      var past := DependentWitness(limit, x, y);
      assert Continue(limit, [], past) == Continue(limit, [], past);
    }
  }
}
