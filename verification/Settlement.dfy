/** The settlement lifecycle (setc/capitalization/domain.py) and what every run of it keeps. */
module Settlement {
  import opened Wrappers

  datatype Status =
    | Draft | PendingApproval | Approved | Submitted | Accepted | Settled
    | Failed | Cancelled | Reversed | Restricted | Expired

  function Transitions(prior: Status): set<Status> {
    match prior
    case Draft => {PendingApproval, Cancelled}
    case PendingApproval => {Approved, Restricted, Cancelled}
    case Approved => {Submitted, Cancelled, Expired}
    case Submitted => {Accepted, Status.Failed, Cancelled}
    case Accepted => {Settled, Status.Failed, Reversed}
    case Settled => {Reversed}
    case Restricted => {PendingApproval, Cancelled}
    case Failed => {}
    case Cancelled => {}
    case Reversed => {}
    case Expired => {}
  }

  datatype TransitionError = InvalidTransition(prior: Status, next: Status)

  function AssertSettlementTransition(prior: Status, next: Status): Result<(), TransitionError> {
    if next == prior then Success(())
    else if next !in Transitions(prior) then Failure(InvalidTransition(prior, next))
    else Success(())
  }

  /** The same table read by the status entered: what each may be entered from. */
  lemma EnteredFrom(prior: Status, next: Status)
    ensures next != prior ==>
              (AssertSettlementTransition(prior, next).Success?
               <==> match next
                    case Draft => false
                    case PendingApproval => prior == Draft || prior == Restricted
                    case Approved => prior == PendingApproval
                    case Submitted => prior == Approved
                    case Accepted => prior == Submitted
                    case Settled => prior == Accepted
                    case Failed => prior == Submitted || prior == Accepted
                    case Cancelled => prior in {Draft, PendingApproval, Approved, Submitted, Restricted}
                    case Reversed => prior == Accepted || prior == Settled
                    case Restricted => prior == PendingApproval
                    case Expired => prior == Approved)
    ensures AssertSettlementTransition(prior, next).Failure? ==>
              AssertSettlementTransition(prior, next).error == InvalidTransition(prior, next)
    ensures AssertSettlementTransition(prior, prior).Success?
  {
  }

  /** Every change of status along the run passes the transition check. */
  ghost predicate Run(run: seq<Status>) {
    forall i :: 0 <= i < |run| - 1 ==> AssertSettlementTransition(run[i], run[i + 1]).Success?
  }

  lemma RunPrefix(run: seq<Status>, n: nat)
    requires Run(run) && n <= |run|
    ensures Run(run[..n])
  {
    forall i | 0 <= i < n - 1 ensures AssertSettlementTransition(run[..n][i], run[..n][i + 1]).Success? {
      assert AssertSettlementTransition(run[i], run[i + 1]).Success?;
    }
  }

  // ----- the approval path -----

  /** How far along the approval path a status is; the stages are entered one by one. */
  function Stage(s: Status): nat {
    match s
    case Draft => 0
    case PendingApproval => 1
    case Restricted => 1
    case Approved => 2
    case Submitted => 3
    case Accepted => 4
    case Settled => 5
    case Failed => 6
    case Cancelled => 6
    case Reversed => 6
    case Expired => 6
  }

  lemma {:induction false} StageGrows(run: seq<Status>, i: nat, j: nat)
    requires Run(run) && i <= j < |run|
    ensures Stage(run[i]) <= Stage(run[j])
    decreases j - i
  {
    if i < j {
      StageGrows(run, i, j - 1);
      assert AssertSettlementTransition(run[j - 1], run[j]).Success?;
    }
  }

  /** The one status through which each of the stages 1 to 5 is entered from the stage before. */
  function Gate(stage: nat): Status
    requires 1 <= stage <= 5
  {
    match stage
    case 1 => PendingApproval
    case 2 => Approved
    case 3 => Submitted
    case 4 => Accepted
    case _ => Settled
  }

  /** The position at which a run from a draft first stands at the gate of a stage it reaches. */
  lemma {:induction false} GatePassed(run: seq<Status>, j: nat, stage: nat) returns (i: nat)
    requires Run(run) && j < |run| && run[0] == Draft
    requires 1 <= stage <= Stage(run[j]) <= 5
    ensures i <= j && run[i] == Gate(stage)
    ensures forall k :: 0 <= k < i ==> Stage(run[k]) < stage
    decreases j
  {
    assert AssertSettlementTransition(run[j - 1], run[j]).Success?;
    if stage <= Stage(run[j - 1]) {
      i := GatePassed(run, j - 1, stage);
    } else {
      i := j;
      forall k | 0 <= k < j ensures Stage(run[k]) < stage {
        StageGrows(run, k, j - 1);
      }
    }
  }

  /** A settled run passed approval request, approval, submission and acceptance, in this order. */
  lemma SettledPassedAllGates(run: seq<Status>, s: nat) returns (p: nat, a: nat, b: nat, c: nat)
    requires Run(run) && s < |run| && run[0] == Draft && run[s] == Settled
    ensures 0 < p < a < b < c < s
    ensures run[p] == PendingApproval && run[a] == Approved && run[b] == Submitted && run[c] == Accepted
  {
    p := GatePassed(run, s, 1);
    a := GatePassed(run, s, 2);
    b := GatePassed(run, s, 3);
    c := GatePassed(run, s, 4);
    StageGrows(run, p, s);
    if a <= p { StageGrows(run, a, p); }
    if b <= a { StageGrows(run, b, a); }
    if c <= b { StageGrows(run, c, b); }
    if s <= c { StageGrows(run, s, c); }
  }

  /** Once approved, a run never stands before approval again. */
  lemma NoReturnToApproval(run: seq<Status>, a: nat, j: nat)
    requires Run(run) && a < j < |run| && run[a] == Approved
    ensures run[j] !in {Draft, PendingApproval, Restricted}
    ensures run[j] == Approved ==> forall k :: a <= k <= j ==> run[k] == Approved
  {
    StageGrows(run, a, j);
    if run[j] == Approved {
      forall k | a <= k <= j ensures run[k] == Approved {
        StageGrows(run, a, k);
        StageGrows(run, k, j);
      }
    }
  }

  /**
   Approval always answers a request, and a restricted settlement is approved only after it
   was requested anew: each run standing in approval later stands in `PendingApproval` right
   before its first approval since.
   */
  lemma {:induction false} ApprovalAnswersRequest(run: seq<Status>, i: nat, j: nat) returns (k: nat)
    requires Run(run) && i < j < |run| && run[i] != Approved && run[j] == Approved
    ensures i <= k < j && run[k] == PendingApproval && run[k + 1] == Approved
    ensures run[i] == Restricted ==> i < k
    decreases j
  {
    assert AssertSettlementTransition(run[j - 1], run[j]).Success?;
    if run[j - 1] == Approved {
      k := ApprovalAnswersRequest(run, i, j - 1);
    } else {
      k := j - 1;
    }
  }

  /** A run leaving `Restricted` next stands in `PendingApproval` or `Cancelled`. */
  lemma RestrictedLeaves(run: seq<Status>, i: nat)
    requires Run(run) && i + 1 < |run| && run[i] == Restricted && run[i + 1] != Restricted
    ensures run[i + 1] == PendingApproval || run[i + 1] == Cancelled
  {
    assert AssertSettlementTransition(run[i], run[i + 1]).Success?;
  }

  // ----- what can still be reached -----

  /** Some run leads from the one status to the other. */
  ghost predicate Reaches(s: Status, t: Status) {
    exists run :: Leads(run, s, t)
  }

  ghost predicate Leads(run: seq<Status>, s: Status, t: Status) {
    Run(run) && run != [] && run[0] == s && run[|run| - 1] == t
  }

  /** The statuses from which a status can still be reached. */
  function ReachedFrom(t: Status): set<Status> {
    match t
    case Draft => {Draft}
    case PendingApproval => {Draft, PendingApproval, Restricted}
    case Restricted => {Draft, PendingApproval, Restricted}
    case Approved => {Draft, PendingApproval, Restricted, Approved}
    case Submitted => {Draft, PendingApproval, Restricted, Approved, Submitted}
    case Accepted => {Draft, PendingApproval, Restricted, Approved, Submitted, Accepted}
    case Settled => {Draft, PendingApproval, Restricted, Approved, Submitted, Accepted, Settled}
    case Expired => {Draft, PendingApproval, Restricted, Approved, Expired}
    case Cancelled => {Draft, PendingApproval, Restricted, Approved, Submitted, Cancelled}
    case Failed => {Draft, PendingApproval, Restricted, Approved, Submitted, Accepted, Status.Failed}
    case Reversed => {Draft, PendingApproval, Restricted, Approved, Submitted, Accepted, Settled, Reversed}
  }

  lemma {:induction false} RunStaysReachable(run: seq<Status>, n: nat)
    requires Run(run) && n < |run|
    ensures run[0] in ReachedFrom(run[n])
  {
    if n > 0 {
      RunStaysReachable(run, n - 1);
      assert AssertSettlementTransition(run[n - 1], run[n]).Success?;
    }
  }

  lemma RunCons(first: Status, run: seq<Status>)
    requires Run(run) && run != [] && AssertSettlementTransition(first, run[0]).Success?
    ensures Run([first] + run)
  {
    var t := [first] + run;
    forall i | 0 <= i < |t| - 1 ensures AssertSettlementTransition(t[i], t[i + 1]).Success? {
      if i > 0 {
        assert AssertSettlementTransition(run[i - 1], run[i]).Success?;
      }
    }
  }

  /** The next status on the way to settlement. */
  function Onward(s: Status): Status {
    match s
    case Draft => PendingApproval
    case Restricted => PendingApproval
    case PendingApproval => Approved
    case Approved => Submitted
    case Submitted => Accepted
    case Accepted => Settled
    case _ => s
  }

  lemma {:induction false} PathTo(s: Status, t: Status) returns (run: seq<Status>)
    requires s in ReachedFrom(t)
    ensures Leads(run, s, t)
    decreases Reach(s)
  {
    if AssertSettlementTransition(s, t).Success? {
      run := [s, t];
    } else {
      var rest := PathTo(Onward(s), t);
      RunCons(s, rest);
      run := [s] + rest;
    }
  }

  /** For every two statuses: the table above says exactly whether some run leads from one to the other. */
  lemma ReachableIff(s: Status, t: Status)
    ensures Reaches(s, t) <==> s in ReachedFrom(t)
  {
    if s in ReachedFrom(t) {
      var run := PathTo(s, t);
    }
    if run :| Leads(run, s, t) {
      RunStaysReachable(run, |run| - 1);
    }
  }

  /** Which of the four ends is still possible: acceptance rules out cancelling, submission expiry. */
  lemma EndsReachable(s: Status)
    ensures Reaches(s, Expired) <==> s in {Draft, PendingApproval, Restricted, Approved, Expired}
    ensures Reaches(s, Cancelled) <==> s !in {Accepted, Settled, Status.Failed, Reversed, Expired}
    ensures Reaches(s, Status.Failed) <==> s !in {Settled, Cancelled, Reversed, Expired}
    ensures Reaches(s, Reversed) <==> s !in {Status.Failed, Cancelled, Expired}
  {
    ReachableIff(s, Expired);
    ReachableIff(s, Cancelled);
    ReachableIff(s, Status.Failed);
    ReachableIff(s, Reversed);
  }

  predicate Terminal(s: Status) {
    Transitions(s) == {}
  }

  /** A terminal status can only be repeated. */
  lemma {:induction false} TerminalStutters(run: seq<Status>, i: nat, j: nat)
    requires Run(run) && i <= j < |run| && Terminal(run[i])
    ensures run[j] == run[i]
    decreases j
  {
    if i < j {
      TerminalStutters(run, i, j - 1);
      assert AssertSettlementTransition(run[j - 1], run[j]).Success?;
    }
  }

  // ----- how long a run can be -----

  /** The steps of a run that change the status. */
  function Moves(run: seq<Status>): nat {
    if |run| <= 1 then 0
    else Moves(run[..|run| - 1]) + (if run[|run| - 1] != run[|run| - 2] then 1 else 0)
  }

  /** The steps of a run that enter the restricted status from another one. */
  function Restrictions(run: seq<Status>): nat {
    if |run| <= 1 then 0
    else
      Restrictions(run[..|run| - 1])
      + (if run[|run| - 1] == Restricted && run[|run| - 2] != Restricted then 1 else 0)
  }

  /** The most moves a run can still make without being restricted again. */
  function Reach(s: Status): nat {
    match s
    case Draft => 6
    case Restricted => 6
    case PendingApproval => 5
    case Approved => 4
    case Submitted => 3
    case Accepted => 2
    case Settled => 1
    case _ => 0
  }

  /** Every move costs one unit of reach, except that a restriction gives back two. */
  lemma {:induction false} MovesBounded(run: seq<Status>)
    requires Run(run) && run != []
    ensures Moves(run) + Reach(run[|run| - 1]) <= Reach(run[0]) + 2 * Restrictions(run)
    ensures Moves(run) <= 6 + 2 * Restrictions(run)
  {
    var n := |run| - 1;
    if n > 0 {
      RunPrefix(run, n);
      MovesBounded(run[..n]);
      assert AssertSettlementTransition(run[n - 1], run[n]).Success?;
    }
  }

  /** A run with its ends and its counts. */
  ghost predicate Tally(run: seq<Status>, first: Status, last: Status, moves: nat, restrictions: nat) {
    && Run(run) && run != [] && run[0] == first && run[|run| - 1] == last
    && Moves(run) == moves && Restrictions(run) == restrictions
  }

  lemma RunSnoc(run: seq<Status>, next: Status)
    requires Run(run) && run != []
    requires AssertSettlementTransition(run[|run| - 1], next).Success?
    ensures Run(run + [next])
  {
    var t := run + [next];
    forall i | 0 <= i < |t| - 1 ensures AssertSettlementTransition(t[i], t[i + 1]).Success? {
      if i < |run| - 1 {
        assert AssertSettlementTransition(run[i], run[i + 1]).Success?;
      }
    }
  }

  /** One more change of status. */
  lemma Extend(run: seq<Status>, first: Status, last: Status, moves: nat, restrictions: nat, next: Status)
    returns (t: seq<Status>)
    requires Tally(run, first, last, moves, restrictions)
    requires next in Transitions(last) && next != last
    ensures Tally(t, first, next, moves + 1, restrictions + (if next == Restricted then 1 else 0))
  {
    t := run + [next];
    RunSnoc(run, next);
    assert t[..|t| - 1] == run;
  }

  /** A draft restricted and resubmitted `r` times. */
  lemma {:induction false} Resubmitted(r: nat) returns (run: seq<Status>)
    ensures Tally(run, Draft, PendingApproval, 1 + 2 * r, r)
  {
    if r == 0 {
      run := Extend([Draft], Draft, Draft, 0, 0, PendingApproval);
    } else {
      run := Resubmitted(r - 1);
      run := Extend(run, Draft, PendingApproval, 2 * r - 1, r - 1, Restricted);
      run := Extend(run, Draft, Restricted, 2 * r, r, PendingApproval);
    }
  }

  /** The bound on moves is reached, for every number of restrictions. */
  lemma MoveBoundIsTight(r: nat) returns (run: seq<Status>)
    ensures Run(run) && run != [] && run[0] == Draft
    ensures Restrictions(run) == r && Moves(run) == 6 + 2 * r
  {
    run := Resubmitted(r);
    run := Extend(run, Draft, PendingApproval, 1 + 2 * r, r, Approved);
    run := Extend(run, Draft, Approved, 2 + 2 * r, r, Submitted);
    run := Extend(run, Draft, Submitted, 3 + 2 * r, r, Accepted);
    run := Extend(run, Draft, Accepted, 4 + 2 * r, r, Settled);
    run := Extend(run, Draft, Settled, 5 + 2 * r, r, Reversed);
  }
}
