# SourceEnergy governance core: a verified model

This project models the parts of the SourceEnergy repository whose guarantees span whole runs or arbitrary
input lists, and proves those guarantees for every run and every input:

- the **gateway enforcement store**: per-principal counters and a global key set, refined against a policy that
  rescans the whole history, with grant, at-most-once, rate, projection and commutation results over all runs;
- the **regenerative allocation**: filter, weigh, sort, cap, regroup, fail closed, with conservation,
  order-independence and scaling results over exact reals, and all lines and errors in the candidates' own numbers;
- the **authority concentration index**, with its exact bounds from Lagrange's identity and a form without grouping;
- the **anchor roster validator** and the **scorecard export**, separately and as a pipeline;
- the **synthetic genesis split**, the **accelerator state machine** with its evidence bindings, the
  **settlement lifecycle**, the **SQL parenthesis checker**, the **journey graph**, the **Genesis payload**, the
  **supply gates** and the **evidence normaliser**.

There is one module per source component or pipeline of components, and the small shared theory they rest on:
`Sorting` (a stable sort, its uniqueness, and exactly when it forgets the input order), `Sums`, `Grouping` (dictionary
regrouping), `Text` and `TextOrder` (Python's `strip` and string order), `Sequences`, `Arithmetic`, `Wrappers`.
`GatewayGrants`, `AllocationNumbers` and `SqlProblems` say what a component decides in the fields of its inputs. Code
that updates state is modelled by classes and loops proved against specification functions
(`InMemoryGatewaySecurity`, `EcologyJourney`, `ErrorLog`, `BuildRegenerativeProposal`, `AuthorityConcentration`,
`CheckRows`, ...); the results about runs are lemmas about those functions. `dafny verify dfyconfig.toml` checks
everything.

Where the code and what is said about it differ, the model follows the code:

- `docs/ecology/ECO-E06-REGENERATIVE-ALLOCATION.md:10` says that target-category caps constrain proposals. The code
  caps each line (`setc/ecology/allocation.py:144-146`), so a category as a whole may exceed its cap.
  `Allocation.TargetTotalMayExceedCap` gives the input and `Allocation.TargetWithinCapIff` says exactly when it
  does not happen.
- The per-period supply limit bounds one request (`setc/source_coin/treasury.py:49-50`); nothing accumulates over a
  period, and the cap bounds the supply, not what is ever minted. `SourceCoin.MintsBounded` says what the limit bounds
  and `SourceCoin.MintBoundIsTight` exactly when that bound is reached.
- The parenthesis check removes comments before string literals (`setc/capitalization/artifact_checks.py:21-23`), so
  a `--` or `/*` that begins inside a literal and does not end there can take its closing quote along, and a balanced
  text is reported as unbalanced. `ArtifactChecks.DashesInLiteral` gives the input, `ArtifactChecks.NeverSeenIff` says
  exactly which literals the check does not see, and `MigrationText.CodeDecides` what it says of a text of such
  literals.
- The scorecard export calls itself deterministic (`ssr/tools/export_scorecard_sync.py:2`). Its key folds case,
  while validation tells case variants apart, so the sheet may depend on the order of the records in the roster.
  `RosterWitnesses.OrderShownByExport` gives accepted rosters of every size from two for which it does, and
  `RosterOrder.OrderIndependentRosterIff` the exact condition.
- An absent optional field is written as `null` and read back as the text "None"
  (`ssr/tools/validate_anchor_roster.py:103-123`), so validation is not idempotent on its own output.
  `RosterWitnesses.OutputRefused` and `RosterWitnesses.OutputChanged` give accepted rosters of every size from one for
  which it is not; `RosterPipeline.RevalidationAcceptsIff` and `RosterPipeline.RevalidationIdempotentIff` say exactly
  when it is. The exported sheet, which leaves such fields blank, is taken back: `SheetReadBack.SheetTakenBackIff`.

## Model

| member | source | states |
|---|---|---|
| `Gateway.AllowlistByAction` | setc/ecology/gateway.py:33-53 | The allowlist read the other way round: which domains each action may be asked of; every action but registering a reference is material |
| `GatewayLog.RunsAreLegal` | setc/ecology/gateway_security.py:79-100 | Every run of requests produces a log in which each verdict is the one its own past dictates |
| `GatewaySafety.AtMostOnce` | setc/ecology/gateway_security.py:93-100 | In any legal log no idempotency key is accepted twice, even by different principals |
| `GatewaySafety.RateBound` | setc/ecology/gateway_security.py:90-98 | No principal ever has more acceptances than the rate limit |
| `GatewaySafety.AcceptedIsAuthorized` | setc/ecology/gateway_security.py:39-40 | In the fields of an accepted entry: the principal is authenticated, was granted the very pair of domain and action asked for, which the table lists, and a valid material request carries a non-empty key |
| `GatewaySafety.RunsAreSafe` | setc/ecology/gateway_security.py:72-100 | For every run of valid requests on a new store, whoever sends them: no key accepted twice, only granted and listed pairs accepted, no principal over the limit, stored keys bounded |
| `GatewaySafety.VerdictReasons` | setc/ecology/gateway_security.py:84-94 | Each of the five outcomes occurs exactly under its condition on the principal's fields and grants, the table, its count of acceptances and earlier use of the key |
| `GatewaySafety.KeyCountBound` | setc/ecology/gateway_security.py:97-100 | Stored keys are at most the acceptances, and these at most principals times the limit |
| `GatewayGrants.GrantIsEnough` | setc/ecology/gateway_security.py:39-40 | A principal granted just the pair a valid request asks for is never answered as unauthenticated or unauthorized, after any past |
| `GatewayGrants.RevokedIsUnauthorized` | setc/ecology/gateway_security.py:84-87 | Taking that one pair, or its whole domain, out of the grants turns every verdict after authentication into unauthorized |
| `GatewayGrants.OtherGrantsDoNotMatter` | setc/ecology/gateway_security.py:39-40 | Changing any other grants of any callers changes no verdict of a run and not the final store |
| `GatewayGrants.EmptyKeyIsNoKey` | setc/ecology/gateway_security.py:93-100 | An empty key is decided and stored like an absent one, and does not make a material request valid |
| `GatewayGrants.KeyUsedOnce` | setc/ecology/gateway_security.py:93-100 | In the entries' own fields: once a non-empty key is accepted, every later request with it is rejected |
| `GatewayRuns.SameStoreSameFuture` | setc/ecology/gateway_security.py:84-100 | Histories with the same counters and keys decide every later run alike and stay so |
| `GatewayRuns.RejectedAreInvisible` | setc/ecology/gateway_security.py:95-100 | Deleting any choice of rejected requests from a run leaves all remaining verdicts and the final store unchanged |
| `GatewayRuns.IndependentCommute` | setc/ecology/gateway_security.py:84-100 | Adjacent requests of different principals with different or absent keys can be swapped: same verdicts, same later run, same store |
| `GatewayRuns.IndependentIff` | setc/ecology/gateway_security.py:84-100 | For authorized requests that independence is necessary too: otherwise some past exists after which the first changes the verdict on the second |
| `GatewaySecurity.ReceiptIdNotBlank` | setc/ecology/gateway_security.py:103-110 | The built receipt id passes the receipt's own check for every request id |
| `GatewaySecurity.ReceiptIdTells` | setc/ecology/gateway_security.py:104 | Receipts share an id exactly when request id and decision agree |
| `GatewaySecurity.MessageTellsReason` | setc/ecology/gateway_security.py:22-26 | The message of a rejected receipt determines the reason |
| `GatewaySecurity.InMemoryGatewaySecurity.constructor` | setc/ecology/gateway_security.py:72-77 | A new store stands for the empty history |
| `GatewaySecurity.InMemoryGatewaySecurity.Create` | setc/ecology/gateway_security.py:72-77 | Creation succeeds exactly for a positive limit and gives a fresh store with the empty history |
| `GatewaySecurity.InMemoryGatewaySecurity.Decide` | setc/ecology/gateway_security.py:84-94 | The verdict read off the counter and the key set is that of the policy rescanning the history, and acceptance is spelled out in the fields of principal and store |
| `GatewaySecurity.InMemoryGatewaySecurity.Record` | setc/ecology/gateway_security.py:96-100 | After the update, counters and keys are again exactly what rescanning the extended history finds |
| `GatewaySecurity.InMemoryGatewaySecurity.Evaluate` | setc/ecology/gateway_security.py:79-121 | Evaluation fails exactly for a naive time and then changes nothing; otherwise it appends the rescanning policy's verdict, which receipt and audit record report consistently, and accepts exactly an authenticated principal granted that pair, below the limit, with no key already stored |
| `GatewaySecurity.InMemoryGatewaySecurity.StoreBounds` | setc/ecology/gateway_security.py:72-100 | Every counter of the store lies in 1..limit, and its keys number at most principals times the limit |
| `GatewaySecurity.EqualStores` | setc/ecology/gateway_security.py:76-77 | Two stores have equal fields exactly when their histories are equivalent, which carries the run results over to the fields |
| `Intelligence.AuthorityConcentration` | setc/ecology/intelligence.py:104-109 | The loop computes the sum of squared shares per authority, zero for a zero total |
| `Intelligence.TotalsByAuthority` | setc/ecology/intelligence.py:106-108 | The accumulated dictionary holds, per authority, what a rescan of all inputs finds |
| `Intelligence.SumValues` | setc/ecology/intelligence.py:105 | The accumulated total is the sum of the values |
| `Intelligence.RegroupingConservesTotal` | setc/ecology/intelligence.py:105-109 | The per-authority totals add up to the total of the inputs |
| `Intelligence.ConcentrationPermutation` | setc/ecology/intelligence.py:104-109 | The index does not depend on the order of the inputs |
| `Intelligence.LagrangeIdentity` | setc/ecology/intelligence.py:109 | n times the sum of squares less the squared sum is the sum of all squared pairwise differences |
| `Intelligence.ConcentrationBounds` | setc/ecology/intelligence.py:104-116 | For a positive total over k authorities the index lies between 1/k and 1, with each end reached in exactly one kind of case |
| `Intelligence.IndexInValues` | setc/ecology/intelligence.py:104-109 | Without any grouping: the index times the squared sum of the values is the sum, over every two inputs of one authority, of the product of their values |
| `Intelligence.ZeroIff` | setc/ecology/intelligence.py:105-109 | For valid inputs the index is zero exactly when no input has any value |
| `Intelligence.FullyConcentrated` | setc/ecology/intelligence.py:109-115 | The index is 1 exactly when one authority holds everything |
| `Intelligence.EvenlySpread` | setc/ecology/intelligence.py:109-115 | The index is 1/k exactly when all k authorities hold the same |
| `Intelligence.RelabelRaises` | setc/ecology/intelligence.py:106-109 | Relabelling one authority as another raises the index by exactly twice the product of their shares, so never lowers it |
| `Intelligence.PostureIsWeakest` | setc/ecology/intelligence.py:70-77 | The derived posture is the weakest contributing one, and an estimate for no inputs: aggregation never promotes evidence |
| `Allocation.BuildRegenerativeProposal` | setc/ecology/allocation.py:119-164 | Builds what the decision and the identity checks say, and never fails by the over-allocation guard |
| `Allocation.DecideLines` | setc/ecology/allocation.py:129-155 | Filter, weight check, ordered lines and authority check give the specified decision; what it says in numbers is `AllocationNumbers.LinesInNumbers` and `AllocationNumbers.ErrorReasons` |
| `Allocation.FilterEligible` | setc/ecology/allocation.py:129 | The comprehension yields the eligible candidates in order |
| `Allocation.EligibleMultiset` | setc/ecology/allocation.py:129 | Filtering keeps every candidate whose confidence reaches the minimum as often as it occurs and no other |
| `Allocation.SumWeights` | setc/ecology/allocation.py:135 | The aggregate weight is the sum of score times confidence, in the candidates' own fields |
| `Allocation.ProvisionalLines` | setc/ecology/allocation.py:139-147 | The loop yields one specified line per candidate, in order; what a line amounts to is `AllocationNumbers.LinesInNumbers` |
| `Allocation.AuthorityTotals` | setc/ecology/allocation.py:150-152 | The accumulated dictionary holds, per authority, what a rescan of the lines finds |
| `Allocation.CheckAuthorities` | setc/ecology/allocation.py:153-155 | The check fails exactly when some authority's lines exceed the ceiling |
| `Allocation.NeverOverAllocates` | setc/ecology/allocation.py:95-147 | The line amounts, summed in sorted order, never exceed the available amount |
| `Allocation.OutcomeFits` | setc/ecology/allocation.py:93-96 | Whatever is decided on passes the constructor's guards on the amounts |
| `Allocation.FullDeploymentIff` | setc/ecology/allocation.py:135-147 | The whole amount is deployed exactly when score times confidence of every eligible candidate stays within its part of the total under both caps |
| `Allocation.LineAmountExact` | setc/ecology/allocation.py:141-146 | A line's amount is the largest one that score times confidence and both caps allow |
| `Allocation.AmountsProportional` | setc/ecology/allocation.py:141-142 | Before caps, amounts are in proportion to score times confidence |
| `Allocation.ProposedLinesCoverEligible` | setc/ecology/allocation.py:129-147 | The lines are those of the eligible candidates, each as often as it occurs, ordered by reference id |
| `Allocation.ProposedLinesCapped` | setc/ecology/allocation.py:141-146 | Every line is non-negative and within its candidate and target cap, and there is one for each eligible candidate |
| `Allocation.TargetTotalBound` | setc/ecology/allocation.py:144-146 | A target's lines together are bounded by their number times the cap |
| `Allocation.TargetWithinCapIff` | setc/ecology/allocation.py:140-147 | A target as a whole keeps within its cap exactly when the cap is zero, its candidates would keep within it uncapped, or at most one of them is due anything |
| `Allocation.TargetTotalMayExceedCap` | setc/ecology/allocation.py:144-146 | Two valid candidates whose decided lines together reach twice the target's cap |
| `Allocation.AuthoritiesWithinCeiling` | setc/ecology/allocation.py:150-155 | Accepted lines leave no authority above its share of the available amount |
| `Allocation.AuthorityTotalsConserve` | setc/ecology/allocation.py:150-152 | The per-authority totals add up to the amount deployed |
| `Allocation.OrderIndependentLinesIff` | setc/ecology/allocation.py:140-147 | The lines are independent of the input order exactly when candidates with equal ids would get equal lines |
| `Allocation.FailuresOrderIndependent` | setc/ecology/allocation.py:129-155 | Errors never depend on the input order, whatever the reference ids |
| `Allocation.OutcomeOrderIndependentIff` | setc/ecology/allocation.py:129-155 | The whole decision is independent of the input order exactly when it is an error, nothing is eligible or available, or eligible candidates with equal ids would get equal lines |
| `Allocation.OutcomeScales` | setc/ecology/allocation.py:130-155 | Scaling the available amount by a positive factor scales every line by it and keeps every error |
| `AllocationNumbers.LinesInNumbers` | setc/ecology/allocation.py:129-147 | In the candidates' own fields: the lines of a decision are one for each candidate whose confidence reaches the minimum, ordered by reference id, each carrying its candidate's data, with amount times the sum of score times confidence equal to available times its own, or less and at a cap |
| `AllocationNumbers.LinesInProportion` | setc/ecology/allocation.py:141-142 | Two lines no cap binds are to each other as score times confidence of their candidates |
| `AllocationNumbers.NothingForNothing` | setc/ecology/allocation.py:141-146 | A candidate without score or without confidence is due nothing, and nothing is due otherwise only under a zero cap |
| `AllocationNumbers.ExchangeChangesNothing` | setc/ecology/allocation.py:135-142 | Exchanging score and confidence of every candidate eligible both ways changes no amount and no error |
| `AllocationNumbers.ErrorReasons` | setc/ecology/allocation.py:129-155 | Each error is raised exactly under its own condition on available amount, eligible candidates, their scores and confidences, and authority totals |
| `Testnet.DeterministicSyntheticAllocation` | setc/source_coin/testnet.py:88-98 | Fails exactly for a non-positive total or no participants, never by its own conservation assertion, and otherwise returns the specified split |
| `Testnet.IdsAre` | setc/source_coin/testnet.py:89 | The ids are the participants, each once, ascending by code point |
| `Testnet.IdsDependOnSet` | setc/source_coin/testnet.py:89 | Only the set of participants matters, not order or repetition |
| `Testnet.SplitConserves` | setc/source_coin/testnet.py:92-97 | The split adds up to exactly the total |
| `Testnet.SplitIsFair` | setc/source_coin/testnet.py:92-95 | Amounts differ by at most one, exactly total mod n participants get the extra one, and earlier ids never get less |
| `Testnet.SplitIncrement` | setc/source_coin/testnet.py:92-95 | One more unit of total goes to the participant at sorted position total mod n and to nobody else |
| `Accelerator.ValidTransitionIff` | setc/fashion/accelerator.py:94-107 | A transition validates exactly when it moves forward and every state it passes has references |
| `Accelerator.NextState` | setc/fashion/accelerator.py:13-30 | The fixed order, read as the successor of each state |
| `Accelerator.MissingReported` | setc/fashion/accelerator.py:103-107 | A refusal for want of equivalency names, in order, exactly the states passed over without references |
| `Accelerator.RefusalReasons` | setc/fashion/accelerator.py:72-107 | Each refusal of a step has exactly its condition on participant, direction, references and rationale, in the order of the checks |
| `Accelerator.DecidedIff` | setc/fashion/accelerator.py:72-91 | A request is decided rather than refused exactly under the participant, transition and rationale conditions |
| `Accelerator.OnlyApprovalMoves` | setc/fashion/accelerator.py:84 | Only an approved step changes the state, and it moves it forward; a decision repeats outcome, rationale and context |
| `Accelerator.ApprovalsPartition` | setc/fashion/accelerator.py:84-107 | Over any chained run each state after the start up to the final one is passed by exactly one approved step, and no other state is passed |
| `Accelerator.ApprovalsBounded` | setc/fashion/accelerator.py:84-98 | Approvals are at most the states advanced over, which are at most those that remained |
| `Accelerator.EveryPassedStateEvidenced` | setc/fashion/accelerator.py:93-107 | Every state a run passes has non-empty references in the approved step that passes it |
| `AcceleratorBindings.ValidateTransitionEvidence` | setc/fashion/accelerator_bindings.py:59-78 | Succeeds exactly when there are references and all are backed, returns what each resolves to, verified and of a listed authority, and otherwise reports the first unbacked one with its reason |
| `AcceleratorBindings.BackedOrReason` | setc/fashion/accelerator_bindings.py:66-75 | A reference is backed exactly when it resolves to verified evidence of a listed authority, and otherwise the one reason why not applies |
| `AcceleratorBindings.ValidateEquivalency` | setc/fashion/accelerator_bindings.py:80-88 | Raises nothing exactly when every mapped state has a contract and all its references are backed, and otherwise reports the first bad reference of the first bad entry |
| `AcceleratorBindings.EveryPassedStateBacked` | setc/fashion/accelerator_bindings.py:59-88 | If every approved step passes both checks, every state a run passes has references, all resolving to verified evidence of that state's own authorities |
| `AcceleratorBindings.ContractAlwaysPresent` | setc/fashion/accelerator_bindings.py:60-63 | For a decided step the missing-contract error cannot occur, for the requested state or any state skipped |
| `AcceleratorBindings.ContractsNotEmpty` | setc/fashion/accelerator_bindings.py:31-45 | Every state but the intake state has a non-empty contract |
| `AcceleratorBindings.StatesByAuthority` | setc/fashion/accelerator_bindings.py:31-45 | The table read the other way round: for which states the evidence of each authority counts |
| `Settlement.SettledPassedAllGates` | setc/capitalization/domain.py:68-119 | A settled run from a draft passed approval request, approval, submission and acceptance, in that order |
| `Settlement.EnteredFrom` | setc/capitalization/domain.py:68-119 | The table read by the status entered: which prior statuses each status may be entered from, and nothing else passes |
| `Settlement.ApprovalAnswersRequest` | setc/capitalization/domain.py:83-119 | A run that comes to stand in approval was in pending approval right before, and after a restriction was requested anew |
| `Settlement.RestrictedLeaves` | setc/capitalization/domain.py:101-103 | A run leaving restricted next stands in pending approval or cancelled |
| `Settlement.ReachableIff` | setc/capitalization/domain.py:68-119 | For every two statuses, whether some run leads from one to the other, against an explicit table |
| `Settlement.EndsReachable` | setc/capitalization/domain.py:68-119 | For each status exactly which of expired, cancelled, failed and reversed some run can reach from it |
| `Settlement.NoReturnToApproval` | setc/capitalization/domain.py:79-119 | After approval a run never stands in draft, pending or restricted again, and is never re-approved |
| `Settlement.TerminalStutters` | setc/capitalization/domain.py:104-119 | A terminal status can only be repeated |
| `Settlement.StageGrows` | setc/capitalization/domain.py:68-119 | A run never goes back a stage on the approval path |
| `Settlement.GatePassed` | setc/capitalization/domain.py:68-119 | Each stage is first reached through the one status that opens it; `Settlement.EnteredFrom` says by which single steps |
| `Settlement.MovesBounded` | setc/capitalization/domain.py:68-119 | A run makes at most 6 + 2r changes of status, r counting entries to restricted |
| `Settlement.MoveBoundIsTight` | setc/capitalization/domain.py:68-119 | For every r some run from a draft reaches that bound |
| `ArtifactChecks.ErrorLog.CheckBalancedSql` | setc/capitalization/artifact_checks.py:27-46 | Appends exactly the file's problems, in order, to those already collected, stopping early where the source does |
| `ArtifactChecks.ScanDepth` | setc/capitalization/artifact_checks.py:33-41 | The running depth stops exactly when some prefix closes more than it opened, and otherwise ends at the overall depth |
| `ArtifactChecks.BalancedIff` | setc/capitalization/artifact_checks.py:33-43 | A text is in the recursive balanced-parenthesis grammar exactly when no prefix goes negative and the depth ends at zero |
| `ArtifactChecks.ParenthesisVerdict` | setc/capitalization/artifact_checks.py:32-43 | No parenthesis problem is reported exactly when the scrubbed text is in that grammar |
| `ArtifactChecks.NoCommentLeft` | setc/capitalization/artifact_checks.py:21 | The line-comment pass leaves no double dash, not even one joined by a removal |
| `ArtifactChecks.LineCommentPass` | setc/capitalization/artifact_checks.py:21 | The pass changes exactly the texts containing a double dash and is idempotent |
| `ArtifactChecks.LineByLine` | setc/capitalization/artifact_checks.py:21 | Each line with a break after it is cut at its first double dash, and the break stays |
| `ArtifactChecks.LastLineCut` | setc/capitalization/artifact_checks.py:21 | The last line, without a break after it, is cut likewise |
| `ArtifactChecks.LiteralEmptied` | setc/capitalization/artifact_checks.py:23 | The string pass alone makes every literal, doubled quotes included, the empty literal and treats the rest on its own |
| `ArtifactChecks.LiteralErased` | setc/capitalization/artifact_checks.py:20-24 | All three passes together do so for every literal in which each comment that seems to begin also ends |
| `ArtifactChecks.NeverSeenIff` | setc/capitalization/artifact_checks.py:20-24 | That condition is exact: a literal leaves only an empty one behind, whatever follows, if and only if every line and block comment begun in it ends in it |
| `ArtifactChecks.CodeBeforeLiteral` | setc/capitalization/artifact_checks.py:20-24 | Code before a literal is kept, without its comments, and does not disturb the literal |
| `ArtifactChecks.DashesInLiteral` | setc/capitalization/artifact_checks.py:20-43 | A balanced text with a double dash inside a literal is reported as unbalanced |
| `SqlProblems.CountIsMost` | setc/capitalization/artifact_checks.py:29 | Counting double dollar signs from the left attains the most places that do not overlap |
| `SqlProblems.ProblemsIff` | setc/capitalization/artifact_checks.py:27-46 | Each problem is reported exactly under its own condition on the text, in terms of occurrences and of the scrubbed depth, and no others |
| `SqlProblems.LiteralBodies` | setc/capitalization/artifact_checks.py:23 | The bodies of literals are exactly the texts with every quote written twice |
| `SqlProblems.BlockCommentRemoved` | setc/capitalization/artifact_checks.py:22 | A block comment is removed from its beginning to the first end after it, and nothing else with it |
| `SqlProblems.OpenBlocksStay` | setc/capitalization/artifact_checks.py:22 | A text without the end of a block comment is left alone by that pass |
| `MigrationText.ScrubOfText` | setc/capitalization/artifact_checks.py:20-24 | A whole text of code and literals in turn, with comments ending where they begin, is scrubbed to its uncommented code with empty literals |
| `MigrationText.CodeDecides` | setc/capitalization/artifact_checks.py:32-43 | For such a text no parenthesis problem is reported exactly when its code alone is balanced |
| `Journey.MakeEdge` | setc/ecology/journey.py:74-85 | Construction succeeds exactly for a non-blank relationship, different ends and non-blank evidence if any, with each error under its own condition, and yields the edge with both texts trimmed |
| `Journey.EcologyJourney.constructor` | setc/ecology/journey.py:102-106 | A new journey has the trimmed id and the empty graph |
| `Journey.EcologyJourney.Create` | setc/ecology/journey.py:102-106 | Creation is refused exactly for a blank id |
| `Journey.EcologyJourney.AddNode` | setc/ecology/journey.py:108-111 | Adds an absent node, refuses a present one and then changes nothing; the graph stays well formed |
| `Journey.EcologyJourney.Link` | setc/ecology/journey.py:113-118 | Adds an edge between registered nodes, refuses missing nodes and repeated edges and then changes nothing |
| `Journey.EcologyJourney.Extend` | setc/ecology/journey.py:126-128 | Adds the nodes before the first repeated one and keeps them even when it fails there |
| `Journey.FreshCountIs` | setc/ecology/journey.py:126-128 | That prefix is the longest one that repeats no node |
| `Journey.ApplyAdds` | setc/ecology/journey.py:108-128 | What an operation adds: exactly the absent node, the edge between registered nodes, or the nodes before the first repetition |
| `Journey.ApplyKeepsWellFormed` | setc/ecology/journey.py:108-128 | Every operation, failing or not, keeps the graph well formed and only appends |
| `Journey.RunsStayWellFormed` | setc/ecology/journey.py:78-128 | From an empty journey every sequence of operations keeps nodes and edges duplicate-free, ends registered and no self-loops, and earlier graphs are prefixes of later ones |
| `Genesis.ValidCandidateIff` | src/sourceenergy_one/genesis_package.py:43-71 | Validation accepts exactly approved candidates with each of the thirteen texts, all consents and each of the seven horizons non-blank |
| `Genesis.HorizonsReported` | src/sourceenergy_one/genesis_package.py:69-71 | A refusal for horizons names exactly the blank required ones, in order, once everything else is in order |
| `Genesis.StageIs` | src/sourceenergy_one/genesis_experience.py:23-35 | Each stage stands for the first condition not met; only all five make it ready |
| `Genesis.ValidCandidateHasPayload` | src/sourceenergy_one/genesis_package.py:66-93 | A valid candidate always has a payload |
| `Genesis.PayloadEqualIff` | src/sourceenergy_one/genesis_package.py:74-93 | Two payloads are equal exactly when each scalar field and each of the seven horizons agree and consent ids agree as multisets |
| `Genesis.PayloadIs` | src/sourceenergy_one/genesis_package.py:74-93 | A payload holds each text as it is, the required horizons alone with their texts, and the consents in ascending order |
| `SourceCoin.GatedRunsConserve` | setc/source_coin/security.py:25-41 | In every run of permitted mints and covered burns supply stays in 0..cap, passes the conservation check and agrees with reconciliation |
| `SourceCoin.SnapshotChecked` | setc/source_coin/security.py:25-41 | The conservation check accepts exactly balanced, non-negative books |
| `SourceCoin.ReconcileIff` | setc/source_coin/treasury.py:101-107 | Reconciling succeeds exactly for possible totals, and gives what burning left |
| `SourceCoin.MintableAmounts` | setc/source_coin/treasury.py:44-51 | The permitted amounts are those from one up to the room under cap and limit: with an amount every smaller one, and at every lower supply |
| `SourceCoin.UnapprovedNeverMints` | setc/source_coin/treasury.py:44-51 | No run under an unapproved policy mints anything |
| `SourceCoin.MintsBounded` | setc/source_coin/treasury.py:44-51 | n permitted mints issue at most n times the per-period limit |
| `SourceCoin.MintBoundIsTight` | setc/source_coin/treasury.py:44-51 | From any supply that is not negative some permitted run issues n full mints if and only if n is zero or the cap has room for a single one: burning makes room for the next |
| `SourceCoin.AssertNoDuplicateSettlement` | setc/source_coin/security.py:51-58 | The check passes exactly when no two settled transactions share a key |
| `Taxonomy.NormalizeIdempotent` | setc/wim/taxonomy.py:34 | Normalising twice is normalising once |
| `Taxonomy.SameNormalFormIff` | setc/wim/taxonomy.py:34 | Two texts have one normal form exactly when their trimmed lines agree: joining loses nothing |
| `Taxonomy.NormalFormsIff` | setc/wim/taxonomy.py:34 | The texts left alone are exactly the joins of clean lines |
| `Taxonomy.SplitOfJoin` | setc/wim/taxonomy.py:34 | Splitting undoes joining for lines without breaks whose last is not empty |
| `Taxonomy.SplitOfWritten` | setc/wim/taxonomy.py:34 | Splitting finds the lines whichever ending each of them has |
| `Taxonomy.EndingsDoNotMatter` | setc/wim/taxonomy.py:34 | The normal form does not depend on how the lines are ended |
| `Taxonomy.LineBreaksListed` | setc/wim/taxonomy.py:34 | The characters that end a line, code by code |
| `Taxonomy.RefusedIffBlank` | setc/wim/taxonomy.py:34-36 | Evidence is refused exactly when it is blank |
| `RosterAddress.MatchesIff` | ssr/tools/validate_anchor_roster.py:21 | The left-to-right match accepts exactly three slashes and three dot-separated labels |
| `RosterAddress.LabelCharCodes` | ssr/tools/validate_anchor_roster.py:21 | The characters of a label, code by code |
| `RosterAddress.AddressCharacters` | ssr/tools/validate_anchor_roster.py:21 | An address holds only slashes, dots and label characters |
| `RosterRow.ReadOkIff` | ssr/tools/validate_anchor_roster.py:72-109 | A row draws no complaint of its own exactly when its six required cells are filled, its address is in the grammar, its latitude and longitude read as finite numbers within -90..90 and -180..180, and its dates read as dates |
| `RosterRow.ReadingIs` | ssr/tools/validate_anchor_roster.py:72-93 | What is read from a row: exactly the blank required cells, in order, if any, or else its trimmed identity and whether address and export date pass |
| `RosterRow.CoordinateIs` | ssr/tools/validate_anchor_roster.py:46-57 | A number within bounds is returned, and NaN, an infinity or a number beyond either bound is reported as out of range |
| `RosterRow.NormalRowIs` | ssr/tools/validate_anchor_roster.py:103-125 | Each field of the normal row in terms of the cell it comes from, defaults included |
| `RosterRow.UniversalTime` | ssr/tools/validate_anchor_roster.py:36-39 | A date reads alike with Z and with the offset +00:00, and one without Z is read as it stands |
| `Roster.CheckRows` | ssr/tools/validate_anchor_roster.py:67-125 | The loop with its two seen-sets collects exactly the specified errors and normal rows, in order |
| `Roster.ValidateRows` | ssr/tools/validate_anchor_roster.py:60-129 | Returns the normal rows when nothing is wrong and all errors together otherwise; `Roster.ReportedIff` and `Roster.AcceptsIff` say what is wrong when |
| `Roster.NoErrorsIff` | ssr/tools/validate_anchor_roster.py:71-109 | No errors are collected exactly when every row reads well and ids and addresses are pairwise distinct |
| `Roster.AcceptsIff` | ssr/tools/validate_anchor_roster.py:60-129 | The validator accepts exactly rosters with the expected count, rows that meet the requirements of `RosterRow.ReadOkIff`, coordinates in numbers, and distinct trimmed ids and addresses |
| `Roster.AcceptedRowsNormalized` | ssr/tools/validate_anchor_roster.py:111-129 | An accepted roster comes back row for row, output i being the normal form of input i |
| `Roster.ReportedIff` | ssr/tools/validate_anchor_roster.py:71-109 | Kind by kind, an error is reported exactly when the row whose number it carries deserves it |
| `Roster.AllReportedIff` | ssr/tools/validate_anchor_roster.py:64-65 | The same with the error about the number of rows, which comes first and names both numbers |
| `Roster.ReportedInOrder` | ssr/tools/validate_anchor_roster.py:71-109 | Errors are reported from the first row to the last |
| `Roster.ProblemReportedIff` | ssr/tools/validate_anchor_roster.py:36-57 | A filled row is reported for its data exactly with the first thing wrong with them: a latitude that is no number, NaN, infinite or beyond 90 on either side, a longitude likewise at 180, or an activation or export date that is none |
| `Roster.DuplicatesAccounted` | ssr/tools/validate_anchor_roster.py:82-85 | Duplicate-id errors and seen ids together number the rows with all required fields |
| `ScorecardExport.ExportIsSorted` | ssr/tools/export_scorecard_sync.py:31-53 | The records are numbered 2 to n + 1; folded ids ascend by code point, and folded addresses between equal folded ids |
| `ScorecardExport.IdColumnIgnoresAddresses` | ssr/tools/export_scorecard_sync.py:31-38 | When different ids fold to different texts, rosters with the same ids list them in the same order, whatever their addresses and their order |
| `ScorecardExport.ExportIsPermutation` | ssr/tools/export_scorecard_sync.py:37-53 | Numbers aside, the sheet holds exactly one record for each row |
| `ScorecardExport.ExportIsFaithful` | ssr/tools/export_scorecard_sync.py:39-51 | Every record says field by field what some row says, and every row has such a record |
| `ScorecardExport.CanonicalAddressesDistinct` | ssr/tools/export_scorecard_sync.py:27-28 | Rows with distinct addresses get distinct canonical addresses |
| `ScorecardExport.CanonicalIsNoSurfaceAddress` | ssr/tools/export_scorecard_sync.py:27-28 | No canonical address passes for a surface address |
| `ScorecardExport.OrderIndependentSheetIff` | ssr/tools/export_scorecard_sync.py:31-53 | With distinct ids the sheet is independent of the input order exactly when the folded pairs of id and address are distinct |
| `RosterPipeline.ValidatedRows` | ssr/tools/validate_anchor_roster.py:82-93 | Validated rows have distinct ids, distinct addresses, and only addresses of the grammar |
| `RosterPipeline.AcceptedCoordinates` | ssr/tools/validate_anchor_roster.py:96-97 | Every coordinate of an accepted roster is the number read from its row, finite, and within -90..90 or -180..180 |
| `RosterPipeline.ValidatedExport` | ssr/tools/export_scorecard_sync.py:37-53 | The sheet of a validated roster has the expected length and distinct canonical addresses, none a surface address, and is order-independent exactly under the folded-key condition |
| `RosterPipeline.RevalidationAcceptsIff` | ssr/tools/validate_anchor_roster.py:103-125 | The validator accepts its own output exactly when every row carries an export date |
| `RosterPipeline.RevalidationIdempotentIff` | ssr/tools/validate_anchor_roster.py:103-125 | It returns that output unchanged exactly when no row lacks an optional field |
| `RosterPipeline.OptionalFieldsOfInput` | ssr/tools/validate_anchor_roster.py:103-123 | A normal row lacks an optional field exactly when the input cell is blank, so both conditions can be read off the input |
| `RosterWitnesses.PlausibleExists` | ssr/tools/validate_anchor_roster.py:36-48 | Readers and a printer of numbers that meet all the assumptions of the rows below exist |
| `RosterWitnesses.SampleAccepted` | ssr/tools/validate_anchor_roster.py:60-129 | For every size there is a roster the validator accepts, with or without export dates |
| `RosterWitnesses.OutputRefused` | ssr/tools/validate_anchor_roster.py:103-125 | For every size from one, an accepted roster whose normalised rows the validator refuses |
| `RosterWitnesses.OutputChanged` | ssr/tools/validate_anchor_roster.py:103-125 | For every size from one, an accepted roster whose normalised rows are accepted again and come back different |
| `RosterWitnesses.OrderShownByExport` | ssr/tools/export_scorecard_sync.py:31-38 | For every size from two, a roster the validator accepts, with two ids and addresses that differ by case only, whose sheet depends on the order of its records |
| `RosterWitnesses.SheetTakenBack` | ssr/tools/export_scorecard_sync.py:37-53 | The same rosters whose normalised rows are refused have their exported sheets taken back |
| `RosterOrder.PermutedRosterAccepted` | ssr/tools/validate_anchor_roster.py:60-129 | Every order of an accepted roster is accepted, with the same normal rows in some order |
| `RosterOrder.OrderOfRows` | ssr/tools/validate_anchor_roster.py:60-129 | Every order of the normal rows comes from some order of the roster |
| `RosterOrder.OrderIndependentRosterIff` | ssr/tools/export_scorecard_sync.py:31-53 | All orders of an accepted roster are exported as one sheet exactly when the folded pairs of id and address are distinct |
| `SheetReadBack.RecordBack` | ssr/tools/export_scorecard_sync.py:39-51 | A record of a validated row whose coordinates print back is an acceptable row, with the same normal form except for the columns the sheet drops |
| `SheetReadBack.SheetTakenBackIff` | ssr/tools/export_scorecard_sync.py:37-53 | Read as a roster, the sheet of an accepted roster is accepted and exported as the very same sheet if and only if the coordinates of its rows print as text that is read back as them |
| `Sorting.StableSortUnique` | ssr/tools/export_scorecard_sync.py:38 | Whatever stable sort is used, its result is the one of this model |
| `Sorting.OrderIndependentIff` | setc/ecology/allocation.py:140 | Sorting forgets the input order exactly when no two different elements tie |
| `Sorting.SortStable` | setc/ecology/allocation.py:140 | Elements with equal keys keep their relative order |
| `Text.LexLeqIff` | ssr/tools/export_scorecard_sync.py:38 | One text comes before another exactly when it begins it or has the smaller character where they first differ |
| `Text.StripIs` | ssr/tools/validate_anchor_roster.py:78 | Trimming takes whitespace off both ends and nothing else |
| `Text.WhitespaceListed` | ssr/tools/validate_anchor_roster.py:78 | The characters trimmed as whitespace, code by code |
| `TextOrder.SortedTextsEqualIff` | src/sourceenergy_one/genesis_package.py:87 | Sorted texts are equal exactly when the texts agree as multisets |
| `Grouping.RegroupConserves` | setc/ecology/allocation.py:150-152 | Regrouping by key loses nothing: the group totals add up to the total |

## Left out

- Rounding: decimals and floats are exact reals in allocation and index. Under 28-digit decimals or binary floats the
  over-allocation guard may act as a real backstop.
- Outside functions are parameters: float and date parsing and number printing (`Readers`, `show`), case folding
  (`Fold`), the evidence reader, the clock. Re-validation assumes that numbers print as something and that "None" is
  no date. Reading the sheet back assumes that the text of a cell survives being written to the file.
- SHA-256, JSON encoding and UUIDs: the payload and the normalised text are modelled, not their digests.
- Field checks on frozen records are `Valid()` predicates of their datatypes, with the error they raise not told
  apart; they are required where the source can only be given an object that passed its constructor. The trimming of
  a journey state's text, the checks on its reference, and the check that the states of a node stem from the node's own
  reference are not modelled, since nothing that is proved of the graph depends on them.
- Gateway request fields that no decision reads (subject, references, organization, attributes), the receipt's
  optional authoritative reference, proposal status lineage and rationale, result explanations.
- Roles in the Fashion request context, and the enrollment check of the bindings (two lookups).
- `value_throughput`, `regenerative_ratio`, `evidence_coverage`, the testnet manifest, and the transfer, participant
  and emergency checks: each is settled by reading one expression.
- The other SQL checks (authority boundaries, required controls, the API description): pattern lists.
- What one row yields is a function (`RosterRow.Read`) passed to the validation loop, which models the order of
  checks, the early `continue` and the seen-sets; extra columns are dropped as the source drops them.
- The iteration order of `set(participant_ids)`: the ids are sorted at once.
- Assigning to public fields from outside (`rate_limit`, `nodes`, `edges`) and journeys built from pre-filled lists,
  which the source does not check.
- Reading files, CSV and JSON, argument parsing, the front end, the worker, database functions and migrations.
- The modules for organizations, creators, heartbeat and the remaining Fashion and ecology validators: single-record
  checks.
