/**
 Supply governance and economic invariants (setc/source_coin/treasury.py and
 setc/source_coin/security.py), and ledger runs gated by them.
 */
module SourceCoin {
  import opened Arithmetic
  import opened Wrappers

  datatype SupplyMode = FixedGenesis | CappedSupply | Scheduled | Governed

  datatype SupplyPolicy = SupplyPolicy(
    mode: SupplyMode, approved: bool, maxSupply: Option<int>, perPeriodLimit: Option<int>)
  {
    /** The constructor's checks all pass. */
    predicate Valid() {
      && (maxSupply.Some? ==> maxSupply.value > 0)
      && (perPeriodLimit.Some? ==> perPeriodLimit.value > 0)
      && (mode == CappedSupply ==> maxSupply.Some?)
    }

    predicate PermitsSupply(current: int, requested: int) {
      if !approved || requested <= 0 then false
      else if maxSupply.Some? && current + requested > maxSupply.value then false
      else if perPeriodLimit.Some? && requested > perPeriodLimit.value then false
      else true
    }

    predicate WithinCap(supply: int) {
      maxSupply.Some? ==> supply <= maxSupply.value
    }
  }

  datatype SupplyError = NegativeTotals | BurnExceedsMint | NegativeComponent | InvariantViolated

  function ReconcileSupply(minted: int, burned: int): Result<int, SupplyError> {
    if minted < 0 || burned < 0 then Failure(NegativeTotals)
    else if burned > minted then Failure(BurnExceedsMint)
    else Success(minted - burned)
  }

  datatype EconomicSnapshot = EconomicSnapshot(genesis: int, minted: int, burned: int, observed: int) {
    function Expected(): int { genesis + minted - burned }
  }

  function AssertSupplyConservation(s: EconomicSnapshot): Result<(), SupplyError> {
    if s.genesis < 0 || s.minted < 0 || s.burned < 0 || s.observed < 0 then Failure(NegativeComponent)
    else if s.observed != s.Expected() then Failure(InvariantViolated)
    else Success(())
  }

  /** The check accepts exactly one value of each component, given the others. */
  lemma SnapshotChecked(s: EconomicSnapshot)
    ensures AssertSupplyConservation(s).Success?
            <==> && s.genesis >= 0 && s.minted >= 0 && s.burned >= 0 && s.observed >= 0
                 && s.genesis + s.minted == s.burned + s.observed
    ensures AssertSupplyConservation(s) == Failure(NegativeComponent)
            <==> s.genesis < 0 || s.minted < 0 || s.burned < 0 || s.observed < 0
  {
  }

  /** Reconciling succeeds exactly for totals that can be, and then with what burning left. */
  lemma ReconcileIff(minted: int, burned: int, supply: int)
    ensures ReconcileSupply(minted, burned) == Success(supply)
            <==> 0 <= burned && 0 <= supply && minted == burned + supply
    ensures ReconcileSupply(minted, burned) == Failure(BurnExceedsMint) <==> 0 <= minted < burned
    ensures ReconcileSupply(minted, burned) == Failure(NegativeTotals) <==> minted < 0 || burned < 0
  {
  }

  // ----- gated runs -----

  datatype Event = Mint(amount: int) | Burn(amount: int)

  /** The books of a run: what was minted and burned since genesis, and the supply observed. */
  function Post(s: EconomicSnapshot, e: Event): EconomicSnapshot {
    match e
    case Mint(n) => s.(minted := s.minted + n, observed := s.observed + n)
    case Burn(n) => s.(burned := s.burned + n, observed := s.observed - n)
  }

  function Books(genesis: int, events: seq<Event>): EconomicSnapshot {
    if events == [] then EconomicSnapshot(genesis, 0, 0, genesis)
    else Post(Books(genesis, events[..|events| - 1]), events[|events| - 1])
  }

  /** A mint needs the policy's permission at the current supply; a burn needs the supply. */
  predicate Allowed(policy: SupplyPolicy, supply: int, e: Event) {
    match e
    case Mint(n) => policy.PermitsSupply(supply, n)
    case Burn(n) => 0 < n <= supply
  }

  ghost predicate Gated(policy: SupplyPolicy, genesis: int, events: seq<Event>) {
    forall i :: 0 <= i < |events| ==> Allowed(policy, Books(genesis, events[..i]).observed, events[i])
  }

  function Mints(events: seq<Event>): nat {
    if events == [] then 0 else Mints(events[..|events| - 1]) + (if events[|events| - 1].Mint? then 1 else 0)
  }

  lemma GatedPrefix(policy: SupplyPolicy, genesis: int, events: seq<Event>)
    requires Gated(policy, genesis, events) && events != []
    ensures Gated(policy, genesis, events[..|events| - 1])
  {
    var t := events[..|events| - 1];
    forall i | 0 <= i < |t| ensures Allowed(policy, Books(genesis, t[..i]).observed, t[i]) {
      assert t[..i] == events[..i];
    }
  }

  /**
   From a supply within the cap, every gated run keeps the supply between zero and the cap,
   always passes the conservation check, and agrees with reconciling all supply ever issued
   against all supply burned.
   */
  lemma {:induction false} GatedRunsConserve(policy: SupplyPolicy, genesis: int, events: seq<Event>)
    requires genesis >= 0 && policy.WithinCap(genesis) && Gated(policy, genesis, events)
    ensures var books := Books(genesis, events);
            && 0 <= books.observed && policy.WithinCap(books.observed)
            && AssertSupplyConservation(books).Success?
            && ReconcileSupply(genesis + books.minted, books.burned) == Success(books.observed)
  {
    if events != [] {
      GatedPrefix(policy, genesis, events);
      GatedRunsConserve(policy, genesis, events[..|events| - 1]);
      assert Allowed(policy, Books(genesis, events[..|events| - 1]).observed, events[|events| - 1]);
    }
  }

  /** Without approval nothing is ever minted, whatever else the policy says. */
  lemma {:induction false} UnapprovedNeverMints(policy: SupplyPolicy, genesis: int, events: seq<Event>)
    requires !policy.approved && Gated(policy, genesis, events)
    ensures Mints(events) == 0 && Books(genesis, events).minted == 0
  {
    if events != [] {
      GatedPrefix(policy, genesis, events);
      UnapprovedNeverMints(policy, genesis, events[..|events| - 1]);
      assert Allowed(policy, Books(genesis, events[..|events| - 1]).observed, events[|events| - 1]);
    }
  }

  /** The amounts that may be minted at a supply: from one up to the room under the cap and the limit. */
  lemma MintableAmounts(policy: SupplyPolicy, current: int, requested: int)
    ensures policy.PermitsSupply(current, requested)
            <==> && policy.approved && 1 <= requested
                 && (policy.maxSupply.Some? ==> requested <= policy.maxSupply.value - current)
                 && (policy.perPeriodLimit.Some? ==> requested <= policy.perPeriodLimit.value)
    ensures policy.PermitsSupply(current, requested)
            ==> forall less :: 1 <= less <= requested ==> policy.PermitsSupply(current, less)
    ensures policy.PermitsSupply(current, requested)
            ==> forall lower :: lower <= current ==> policy.PermitsSupply(lower, requested)
  {
  }

  /** With a per-period limit, n mints issue at most n times the limit. */
  lemma {:induction false} MintsBounded(policy: SupplyPolicy, genesis: int, events: seq<Event>)
    requires policy.perPeriodLimit.Some? && Gated(policy, genesis, events)
    ensures Books(genesis, events).minted <= Mints(events) * policy.perPeriodLimit.value
  {
    if events != [] {
      var n := |events| - 1;
      GatedPrefix(policy, genesis, events);
      MintsBounded(policy, genesis, events[..n]);
      assert Allowed(policy, Books(genesis, events[..n]).observed, events[n]);
      OneMore(Mints(events[..n]), policy.perPeriodLimit.value);
    }
  }

  /** `n` times the limit, as the mints add it up. */
  function FullSum(n: nat, limit: int): int {
    if n == 0 then 0 else FullSum(n - 1, limit) + limit
  }

  lemma {:induction false} FullSumIs(n: nat, limit: int)
    ensures FullSum(n, limit) == n * limit
  {
    if n > 0 {
      FullSumIs(n - 1, limit);
      OneMore(n - 1, limit);
    }
  }

  /** `n` mints that issue the full limit each, every one of them permitted. */
  ghost predicate IssuesFully(policy: SupplyPolicy, genesis: int, events: seq<Event>, n: nat)
    requires policy.perPeriodLimit.Some?
  {
    && Gated(policy, genesis, events) && Mints(events) == n
    && Books(genesis, events).minted == n * policy.perPeriodLimit.value
  }

  /** Burns the genesis supply, if any. */
  lemma Emptied(policy: SupplyPolicy, genesis: int) returns (events: seq<Event>)
    requires genesis >= 0
    ensures Gated(policy, genesis, events) && Mints(events) == 0
    ensures Books(genesis, events) == EconomicSnapshot(genesis, 0, genesis, 0)
  {
    events := [];
    if genesis > 0 {
      GatedSnoc(policy, genesis, events, Burn(genesis));
      events := events + [Burn(genesis)];
    }
  }

  /** Mints and burns the full limit in turn, from an emptied supply. */
  lemma {:induction false} FullCycles(policy: SupplyPolicy, genesis: int, n: nat, limit: int)
    returns (events: seq<Event>)
    requires policy.approved && limit > 0 && policy.perPeriodLimit == Some(limit)
    requires genesis >= 0 && policy.WithinCap(limit)
    ensures Gated(policy, genesis, events) && Mints(events) == n
    ensures Books(genesis, events)
         == EconomicSnapshot(genesis, FullSum(n, limit), genesis + FullSum(n, limit), 0)
  {
    if n == 0 {
      events := Emptied(policy, genesis);
    } else {
      var earlier := FullCycles(policy, genesis, n - 1, limit);
      events := OneCycle(policy, genesis, earlier, limit);
    }
  }

  lemma OneMoreEvent(policy: SupplyPolicy, genesis: int, events: seq<Event>, e: Event) returns (more: seq<Event>)
    requires Gated(policy, genesis, events) && Allowed(policy, Books(genesis, events).observed, e)
    ensures Gated(policy, genesis, more) && Books(genesis, more) == Post(Books(genesis, events), e)
    ensures Mints(more) == Mints(events) + (if e.Mint? then 1 else 0)
  {
    GatedSnoc(policy, genesis, events, e);
    more := events + [e];
  }

  /** From an empty supply, a full mint and the burn of all it issued. */
  lemma OneCycle(policy: SupplyPolicy, genesis: int, events: seq<Event>, limit: int) returns (more: seq<Event>)
    requires policy.approved && limit > 0 && policy.perPeriodLimit == Some(limit) && policy.WithinCap(limit)
    requires Gated(policy, genesis, events) && Books(genesis, events).observed == 0
    ensures Gated(policy, genesis, more) && Mints(more) == Mints(events) + 1
    ensures var s, t := Books(genesis, events), Books(genesis, more);
            t == s.(minted := s.minted + limit, burned := s.burned + limit)
  {
    var minted := OneMoreEvent(policy, genesis, events, Mint(limit));
    more := OneMoreEvent(policy, genesis, minted, Burn(limit));
  }

  /** Some mint issued the full limit, so the cap has room for it over an empty supply. */
  lemma {:induction false} FullMintFits(policy: SupplyPolicy, genesis: int, events: seq<Event>, n: nat)
    requires genesis >= 0 && policy.perPeriodLimit.Some? && n > 0 && IssuesFully(policy, genesis, events, n)
    ensures policy.WithinCap(policy.perPeriodLimit.value)
  {
    var t, last, limit := events[..|events| - 1], events[|events| - 1], policy.perPeriodLimit.value;
    GatedPrefix(policy, genesis, events);
    assert Allowed(policy, Books(genesis, t).observed, last);
    if last.Mint? {
      MintsBounded(policy, genesis, t);
      OneMore(n - 1, limit);
      NeverOverdrawn(policy, genesis, t);
    } else {
      FullMintFits(policy, genesis, t, n);
    }
  }

  lemma {:induction false} NeverOverdrawn(policy: SupplyPolicy, genesis: int, events: seq<Event>)
    requires genesis >= 0 && Gated(policy, genesis, events)
    ensures Books(genesis, events).observed >= 0
  {
    if events != [] {
      GatedPrefix(policy, genesis, events);
      NeverOverdrawn(policy, genesis, events[..|events| - 1]);
      assert Allowed(policy, Books(genesis, events[..|events| - 1]).observed, events[|events| - 1]);
    }
  }

  /**
   The limit holds for each request and nothing adds requests up.  The bound on n mints is
   reached for every n as soon as the cap has room for one full mint: burning in between
   makes room for the next, so the cap bounds the supply and not what is ever minted.
   */
  lemma MintBoundIsTight(policy: SupplyPolicy, genesis: int, n: nat)
    requires policy.Valid() && policy.approved && policy.perPeriodLimit.Some? && genesis >= 0
    ensures (exists events :: IssuesFully(policy, genesis, events, n))
            <==> n == 0 || policy.WithinCap(policy.perPeriodLimit.value)
  {
    var limit := policy.perPeriodLimit.value;
    FullSumIs(n, limit);
    if n == 0 {
      assert IssuesFully(policy, genesis, [], n);
    } else if policy.WithinCap(limit) {
      var events := FullCycles(policy, genesis, n, limit);
      assert IssuesFully(policy, genesis, events, n);
    } else if events :| IssuesFully(policy, genesis, events, n) {
      FullMintFits(policy, genesis, events, n);
    }
  }

  lemma GatedSnoc(policy: SupplyPolicy, genesis: int, events: seq<Event>, e: Event)
    requires Gated(policy, genesis, events) && Allowed(policy, Books(genesis, events).observed, e)
    ensures Gated(policy, genesis, events + [e])
    ensures Books(genesis, events + [e]) == Post(Books(genesis, events), e)
    ensures Mints(events + [e]) == Mints(events) + (if e.Mint? then 1 else 0)
  {
    var t := events + [e];
    assert t[..|events|] == events;
    forall i | 0 <= i < |t| ensures Allowed(policy, Books(genesis, t[..i]).observed, t[i]) {
      if i < |events| {
        assert t[..i] == events[..i] && t[i] == events[i];
      }
    }
  }

  // ----- settled at most once -----

  datatype TransactionStatus =
    | Created | Validated | Authorized | Executing | SettledStatus | RejectedStatus | FailedStatus | CancelledStatus

  datatype CoinTransaction = CoinTransaction(transactionId: string, idempotencyKey: string, status: TransactionStatus)

  /** No two settled transactions share an idempotency key. */
  ghost predicate SettledOnce(ts: seq<CoinTransaction>) {
    forall i, j :: 0 <= i < j < |ts| && ts[i].status.SettledStatus? && ts[j].status.SettledStatus? ==>
      ts[i].idempotencyKey != ts[j].idempotencyKey
  }

  method AssertNoDuplicateSettlement(ts: seq<CoinTransaction>) returns (ok: bool)
    ensures ok <==> SettledOnce(ts)
  {
    var settledKeys: set<string> := {};
    for i := 0 to |ts|
      invariant SettledOnce(ts[..i])
      invariant forall k :: k in settledKeys <==>
                  exists j :: 0 <= j < i && ts[j].status.SettledStatus? && ts[j].idempotencyKey == k
    {
      if ts[i].status.SettledStatus? {
        if ts[i].idempotencyKey in settledKeys {
          return false;
        }
        settledKeys := settledKeys + {ts[i].idempotencyKey};
      }
    }
    assert ts[..|ts|] == ts;
    return true;
  }
}
