# Verified decision kernels of the control plane

The scripts of this repository decide what may be repaired next, who may act, what happened, and
whether a release is finished. They are small, they run once per decision, and a wrong answer is
expensive. This project restates eleven of them in Dafny, in the form they are written in
(recursive visits over mutable sets, worklists, accumulator loops, a receipt store that is updated
in place, pure constructors of sealed artifacts), and proves what they are for:

- **Dependency graphs.** `DependencyGraph` and `CycleScan` hold the depth-first admission and the
  worklist that every planner repeats. The three-colour visit accepts exactly the acyclic closed
  graphs; the scan that continues past a back edge still reports something exactly when there is
  a cycle, and only real cycles.
- **The 80/20 focus.** `PortfolioGraph`, `RootSelection`, `PortfolioFocus`: what a chosen set of
  ready components covers is the least fixpoint of the repair cascade, the search over root
  combinations finds the true optimum of the budget, and the greedy order's marginal gains
  partition the coverage.
- **The autonomous finisher.** `ReleaseManifest`, `RepairFrontier`, `RepairRun`,
  `DefinitionOfDone`, `HashChain`, `ExecutionCapsule`: every repair run promotes the same
  components whatever order it chooses, what is left over hangs on something unsupported or not
  required, and an execution closed under an admission that some grant issued traces back to a
  component that could lawfully be repaired.
- **The consequence court.** `Preparation`, `ConsequenceCourt`, `IntentReuse`: over every history of calls, with
  an actuator that may fail and observations that may be anything, a key is actuated at most
  once, every actuation has its verified receipt, and a result once given is final; and exactly
  when an intent, as opposed to a key, is actuated again.
- **The activity census.** `SearchRanges`, `ActivityCensus`: the bisecting search tiles its range
  for any interface whatever, and over an honest one is refused exactly when a single second is
  too crowded and is otherwise complete.
- **Trend, evidence, crown, catalog, projection.** `TrendFit` (with `Vectors`),
  `EvidenceManifest`, `LoopCrown` and `CrownCondition` (with `DefectRouting`), `CapabilityCatalog`, and for the graph
  projection `TurtleText`, `TurtleProjection`, `TurtleReading` and `TurtleIri`.

`Prelude`, `Text` and `Ordering` are shared: failure-carrying results, Python's `strip` and ASCII
case mapping, and the order of strings, tuples and sorted listings.

Modelling decisions that run through everything:

- A digest is a free datatype constructor over the value that is digested. Equal digests have equal
  contents by construction; nothing is assumed of a hash function.
- A sorted list of distinct texts, used only for what is in it, is a set (covered and uncovered
  components, marginal gains, facts, missing dependencies, recorded reasons).
- Instants are integers; times presented as text arrive already parsed, as an instant or as the
  reason they are none. Ratios and series are reals.
- An exception is an `Err` or a `Some` refusal, with the same conditions in the same order.
- What an operation promises is said on the fields of what goes in and comes out, in ghost
  predicates of its own. Where the operation goes through a helper, a lemma named `...Exactly`
  says on those fields what the helper does.
- What the code cannot see (the search interface, the world that is observed and actuated) is an
  arbitrary function or an arbitrary sequence of events, never a benign one, unless a property
  says otherwise.

Some results are about the code rather than about its intentions:

- The refusal "no dependency-ready unresolved component" and the zero-denominator guard can never
  be reached (`PortfolioFocus.ComputeFocus`, `TrendFit.DenominatorPositive`), nor can the clamp
  of the search bounds (`SearchRanges.BoundsAreTight`).
- A blocked capability may carry no reason at all; `CapabilityCatalog.UnexplainedExactly` says
  exactly when (`CapabilityCatalog.UnfencedDoUnexplained` is an input), and
  `CapabilityCatalog.AdmittedFrontierExplained` that an admitted catalog rules it out.
- The receipt store protects keys, not intents. A call actuates an intent a second time if and only
  if it reaches the world while the store holds a receipt for that intent under some key
  (`IntentReuse.ReactuatesExactly`, over whole histories `IntentReuse.IntentsOnceExactly`). That
  does happen (`IntentReuse.IntentActuatedTwice`), and it never does for callers that keep one
  key for each intent (`IntentReuse.OneKeyOneActuation`).
- A receipt defect reaches the term it is meant for if and only if it is about the replay binding or
  the name of its lane does not contain `replay_binding` (`DefectRouting.RoutedAsMeant`,
  `LoopCrown.DefectsReachTheirTerm`): terms are chosen by searching the rendered sentence.
  `DefectRouting.MisroutedLane` is such a lane.
- An emitted Turtle literal is one token if and only if it is not empty or what follows it does not
  open a long string (`TurtleText.LiteralIsOneToken`). `TurtleText.EmptyLiteralSwallowed` is an
  input where it is not. The emitter puts something else after every literal, so that a reader takes
  a unit's literals back unchanged (`TurtleReading.UnitReadsBack`).
- With a tolerance of zero or less a series of slope zero, such as a constant one or one that
  rises and falls again evenly, is DEGRADING whichever way it is read
  (`TrendFit.NeverFallsNeverDegrades`, `TrendFit.DirectionsAgree`; inputs in
  `TrendFit.ConstantPairDegrades` and `TrendFit.PeakDegradesBothWays`).
- Closing an execution checks that the admission carries its own digest, not that a grant issued it:
  `ExecutionCapsule.ClosingNeedsNoGrant` closes evidence for any intent at all.
  `ExecutionCapsule.IssuedExactly` says which admissions some grant issues, by a condition that
  could be checked before closing, and `ExecutionCapsule.CheckedClosureWasLawful` what that
  check would give.
- Supplier, commit, kind and disposition go into IRIs as they are. All IRIs of a unit are legal if
  and only if these four names are (`TurtleIri.IrisLegalExactly`);
  `TurtleIri.QuotedKindIllegal` is a unit whose IRI is not one.

## Model

| member | source | states |
|---|---|---|
| `DependencyGraph.EdgeDescends` | scripts/errc_portfolio.py:90-97 | on an acyclic graph a dependency has strictly less below it; the measure on which the recursive planners terminate |
| `DependencyGraph.FinishedMeansAcyclic` | scripts/dfcm_autonomic_finish.py:151-167 | a graph whose nodes all have a finishing order has no cycle |
| `DependencyGraph.DanglingDependency` | scripts/dfcm_autonomic_finish.py:143-146 | a node is named exactly when some dependency is outside the graph, and it is such a node |
| `DependencyGraph.Admission.Visit` | scripts/dfcm_autonomic_finish.py:155-164 | a visit either completes, restores the set being visited and marks its node done, or names a node that depends on itself |
| `DependencyGraph.CheckAcyclic` | scripts/dfcm_autonomic_finish.py:151-167 | the check passes if and only if no node depends on itself through any path, and otherwise names one that does |
| `DependencyGraph.ReverseEdges` | scripts/dfcm_autonomic_finish.py:170-175 | every node has an entry, holding exactly the nodes that name it as a dependency |
| `DependencyGraph.Descendants` | scripts/dfcm_autonomic_finish.py:178-187 | the worklist ends with exactly the nodes that depend on the start, directly or not |
| `CycleScan.CycleTrailIsCycle` | scripts/verify_calendar_release.py:53-55 | a trail that returns to a node on it shows a node that depends on itself |
| `CycleScan.Scan.Report` | scripts/verify_calendar_release.py:53-55 | the trail recorded is the one that was followed, closed at a place where nothing had been reported |
| `CycleScan.Scan.Visit` | scripts/verify_calendar_release.py:50-61 | a visit keeps the recorded errors, adds only real trails, at places of its own, restores the set being visited, and finishes its node or has recorded an error |
| `CycleScan.Scan.VisitDependencies` | scripts/verify_calendar_release.py:57-59 | every admitted dependency is visited or an error has been recorded, and each position of the list reports at most once |
| `CycleScan.Cycles` | scripts/verify_calendar_release.py:46-64 | errors are reported if and only if the admitted dependencies have a cycle, also after continuing past a back edge; every reported trail is a dependency path that repeats no node but the last, and no two are closed by the same written dependency |
| `Ordering.SortBySorts` | scripts/dfcm_autonomic_finish.py:326-330 | sorting pairwise comparable elements gives a strictly increasing listing of the same elements |
| `Ordering.StrictlySortedUnique` | scripts/v2030_definition_of_done.py:297 | there is only one such listing |
| `Ordering.BeforeExactly` | scripts/errc_portfolio.py:99 | texts compare at the first place where they differ: the one that ends there, or has the lesser character, comes first |
| `Text.StripTrims` | scripts/exact_subject_evidence_manifest.py:65-67 | what is stripped off is white space at the two ends |
| `Text.BlankExactly` | scripts/dfcm_autonomic_finish.py:704-707 | a text strips to nothing exactly when it is white space throughout |
| `Text.Sha40Exactly` | scripts/dfcm_autonomic_finish.py:121-127 | a commit is forty lower-case hexadecimal digits |
| `Text.NameCharExactly` | scripts/exact_subject_evidence_manifest.py:17 | the characters that repository and verifier names are made of, listed |
| `Text.LowerContainsExactly` | scripts/aloop_crown.py:243-247 | searching the lower-case texts finds the token in whatever case |
| `Text.UpperContainsExactly` | scripts/dfcm_autonomic_finish.py:199-206 | searching the upper-case text finds a word of capitals in whatever case |
| `PortfolioGraph.Admit` | scripts/errc_portfolio.py:38-45 | a policy is refused exactly when a fraction, the pull-request limit or the authority flag is out of its range, and for the first of these |
| `PortfolioGraph.RequiredRowsById` | scripts/errc_portfolio.py:57 | the table holds a row for each required identifier, of several the last one, and nothing that is not a row |
| `PortfolioGraph.BuildGraph` | scripts/errc_portfolio.py:54-73 | a table is built exactly when it is not empty, closed and acyclic; each refusal states its true ground |
| `PortfolioGraph.Closure` | scripts/errc_portfolio.py:75-81 | the start together with exactly what depends on it, for any graph |
| `PortfolioGraph.BlockersStep` | scripts/errc_portfolio.py:92-96 | blockers defined through paths obey the recursion the planner runs |
| `PortfolioGraph.SomeBlocker` | scripts/errc_portfolio.py:87-98 | every unresolved component is held up by a ready one |
| `PortfolioGraph.ReadyExists` | scripts/errc_portfolio.py:87-88 | an admitted table with unresolved components has a ready one |
| `PortfolioGraph.Relief.Blockers` | scripts/errc_portfolio.py:89-97 | the memoised recursion returns exactly the ready components reached through unresolved ones, and the memo table stays right |
| `PortfolioGraph.BlockerSets` | scripts/errc_portfolio.py:98 | the table of blockers of all unresolved components |
| `PortfolioGraph.CoveredIsRepairCascade` | scripts/errc_portfolio.py:83-105 | for any set of ready roots the covered components are the least set that contains the roots and every waiting component whose unresolved dependencies are all in it |
| `RootSelection.CombinationsSound` | scripts/errc_portfolio.py:101 | each combination is a sorted tuple of distinct roots of the given size |
| `RootSelection.CombinationsComplete` | scripts/errc_portfolio.py:101 | each such tuple is among the combinations |
| `RootSelection.Challenge` | scripts/errc_portfolio.py:101-105 | after a round the best selection is unbeaten by every candidate of the round and by the best before it |
| `RootSelection.RoundKeepsOptimal` | scripts/errc_portfolio.py:100-105 | an optimum of smaller sets that survives the sets of the next size is an optimum of both |
| `RootSelection.Search` | scripts/errc_portfolio.py:99-105 | the result covers the most components of all sets of ready roots within the budget, with fewest roots among those, and the greatest tuple among those |
| `RootSelection.MarginalsPartition` | scripts/errc_portfolio.py:106-113 | for any order of picks the marginal sets are disjoint, make up the coverage, and each lies inside its root's potential relief |
| `RootSelection.RankFirst` | scripts/errc_portfolio.py:108-112 | the root with the largest marginal gain, and the least identifier among those |
| `RootSelection.OrderByRelief` | scripts/errc_portfolio.py:106-113 | every chosen root is raised once, each one first among those that remain, with its own potential and marginal relief |
| `RootSelection.Raise` | scripts/errc_portfolio.py:99-113 | the picks raise an optimal selection in greedy order and cover what it covers |
| `PortfolioFocus.BudgetRoundsUp` | scripts/errc_portfolio.py:85 | the budget is the fraction of the table rounded up, and never more than the table |
| `PortfolioFocus.NobodyUnblocked` | scripts/errc_portfolio.py:98-102 | no blocker set is empty, so the empty choice covers nothing |
| `PortfolioFocus.PotentialIsHeldUp` | scripts/errc_portfolio.py:113 | the potential relief of a root that can start is the open components that are it or depend on it through open ones |
| `PortfolioFocus.CoveredIsReleased` | scripts/errc_portfolio.py:102 | covered are the open components all of whose startable roots are chosen |
| `PortfolioFocus.OptimalIsUnmatched` | scripts/errc_portfolio.py:99-105 | the searched optimum, said of the table: no other listing of roots that can start releases more, or as much with fewer roots, or the same as a greater tuple |
| `PortfolioFocus.FocusReadsOff` | scripts/errc_portfolio.py:83-115 | what the search and the greedy order leave is what the table says of it, in every field |
| `PortfolioFocus.SelectFocus` | scripts/errc_portfolio.py:85-115 | the focus of an admitted table: optimal picks in greedy order, what they cover, what they do not, and whether the target is met |
| `PortfolioFocus.ComputeFocus` | scripts/errc_portfolio.py:83-115 | a focus is refused for an unfit policy or graph only; otherwise each pick can start, holds up as many open components as its potential relief says and releases its marginal ones after the picks before it, no later pick would gain more, and no other roots that can start release more within the budget; all read off the rows and their paths |
| `PortfolioFocus.FocusReleasesMost` | scripts/errc_portfolio.py:83-115 | every pick has all dependencies ALIVE, the covered set is what repairing the picks releases, and no set of ready roots within the budget releases more, or as much with fewer roots |
| `ReleaseManifest.TableIndexesRows` | scripts/dfcm_autonomic_finish.py:107-141 | with distinct identifiers the table holds each row under its identifier and nothing else |
| `ReleaseManifest.RowDefectExactly` | scripts/dfcm_autonomic_finish.py:113-140 | a row has no defect exactly when its fields are as they must be; otherwise the defect is the first there is |
| `ReleaseManifest.IndexRows` | scripts/dfcm_autonomic_finish.py:107-141 | rows are admitted exactly when identifiers are distinct and each row passes every check; a refusal is that of the first row at fault |
| `ReleaseManifest.Components` | scripts/dfcm_autonomic_finish.py:102-148 | a manifest is admitted exactly when it has rows, all sound, with dependencies inside and without cycles; each refusal states its true ground |
| `RepairFrontier.UnlocksNested` | scripts/dfcm_autonomic_finish.py:229-241 | nothing unlocks itself, and direct unlocks are among the transitive ones |
| `RepairFrontier.UpstreamUnlocksMore` | scripts/dfcm_autonomic_finish.py:229-241 | what a pending component depends on unlocks strictly more than the component |
| `RepairFrontier.CostsExactly` | scripts/dfcm_autonomic_finish.py:190-214 | how reversible a repair is and how much evidence it takes, standing by standing |
| `RepairFrontier.AuthorityCostExactly` | scripts/dfcm_autonomic_finish.py:199-206 | authority costs exactly when the blocker contains one of the four words in whatever case |
| `RepairFrontier.CandidateOf` | scripts/dfcm_autonomic_finish.py:222-260 | a candidate carries its row, the dependencies that are not ALIVE, the sizes of the true direct and transitive unlock sets, and the costs of its standing and its blocker |
| `RepairFrontier.Candidates` | scripts/dfcm_autonomic_finish.py:217-261 | one candidate for each required component that is not ALIVE, in order of identifiers |
| `RepairFrontier.RanksAheadIsStrict` | scripts/dfcm_autonomic_finish.py:68-76 | the relief score is a strict order that separates different identifiers |
| `RepairFrontier.AheadExactly` | scripts/dfcm_autonomic_finish.py:68-76 | the score compares transitive unlocks, then direct ones, then reversibility, then cost, then the identifier backwards |
| `RepairFrontier.Preserve` | scripts/dfcm_autonomic_finish.py:301-330 | every pending component is either in the frontier, which lists exactly the repairable ones by score, or among the blocked, in order of identifiers, each with the counts and costs that are its own |
| `RepairFrontier.FrontierEmpty` | scripts/dfcm_autonomic_finish.py:324-330 | the listed frontier is empty exactly when nothing is repairable |
| `RepairFrontier.UpstreamRanksAhead` | scripts/dfcm_autonomic_finish.py:68-76 | of two pending components of which one depends on the other, the one depended on ranks ahead |
| `RepairRun.DeadMeansUnsupported` | scripts/dfcm_autonomic_finish.py:64-66 | a component no step can repair is UNSUPPORTED or neither ALIVE nor required |
| `RepairRun.EmptyFrontierMeansDoomed` | scripts/dfcm_autonomic_finish.py:324-330 | with an empty frontier a chain of components that are not ALIVE leads from every unfinished one to one that no step can repair |
| `RepairRun.PromoteKeepsAdmitted` | scripts/dfcm_autonomic_finish.py:102-148 | promoting a component keeps the manifest admitted |
| `RepairRun.PromoteKeepsDoom` | scripts/dfcm_autonomic_finish.py:324-330 | promoting a frontier component neither dooms nor saves any component |
| `RepairRun.RunKeepsAdmitted` | scripts/dfcm_autonomic_finish.py:102-148 | every state of a run is an admitted manifest |
| `RepairRun.RunKeepsDoom` | scripts/dfcm_autonomic_finish.py:324-330 | who is doomed is settled before the run starts |
| `RepairRun.RunKeepsAliveClosed` | scripts/dfcm_autonomic_finish.py:64-66 | a run never leaves an ALIVE component on a dependency that is not, if it did not start with one |
| `RepairRun.RunPromotesItsSteps` | scripts/dfcm_autonomic_finish.py:324-330 | a run promotes distinct pending components, none of them doomed, and changes nothing else |
| `RepairRun.RunPending` | scripts/dfcm_autonomic_finish.py:217-225 | each step takes exactly one component off the pending ones |
| `RepairRun.CompleteRun` | scripts/dfcm_autonomic_finish.py:324-330 | a run that can go no further has promoted every pending component that is not doomed, and leaves the doomed ones |
| `RepairRun.RunsConverge` | scripts/dfcm_autonomic_finish.py:324-330 | all such runs have the same length and end in the same manifest |
| `RepairRun.RunNeverStuck` | scripts/dfcm_autonomic_finish.py:324-330 | short of that length the frontier is never empty |
| `RepairRun.SelfContainedRunFinishes` | scripts/dfcm_autonomic_finish.py:324-330 | when the required set is closed under dependencies and nothing in it is UNSUPPORTED, every run can continue until all required components are ALIVE, after exactly as many steps as were pending |
| `DefinitionOfDone.Inspect` | scripts/dfcm_autonomic_finish.py:408-443 | the findings on a component are exactly those with a ground |
| `DefinitionOfDone.InspectAll` | scripts/dfcm_autonomic_finish.py:408-443 | the same over all required components |
| `DefinitionOfDone.InspectRoles` | scripts/dfcm_autonomic_finish.py:445-454 | a role is found missing exactly when no required ALIVE component has it |
| `DefinitionOfDone.NothingFoundMeansDone` | scripts/dfcm_autonomic_finish.py:408-456 | no finding applies if and only if every required component is ALIVE, receipted, executed at its exact commit, on ALIVE dependencies, and every required role is provided |
| `DefinitionOfDone.Evaluate` | scripts/dfcm_autonomic_finish.py:384-477 | the report says done exactly then, whatever standing is declared; a declared ALIVE that is not earned is itself a finding; a refusal is for the first thing in the way |
| `HashChain.ReplayChain` | scripts/dfcm_autonomic_finish.py:719-743 | replay accepts exactly the chained sequences; a refusal names the first item at fault and why, with everything before it chained |
| `HashChain.PrefixChained` | scripts/dfcm_autonomic_finish.py:782-801 | prefixes of accepted chains are accepted |
| `HashChain.SameEndSameChain` | scripts/dfcm_autonomic_finish.py:771-801 | two accepted chains with the same final digest are the same chain |
| `HashChain.TamperingShows` | scripts/dfcm_autonomic_finish.py:782-801 | any edit of a digested field, drop, swap or truncation of an accepted chain is refused or replays to another digest |
| `HashChain.SealedReplays` | scripts/dfcm_autonomic_finish.py:771-801 | events sealed one on the other replay in full and show exactly the sealed contents under their schema |
| `ExecutionCapsule.ConstructCapsule` | scripts/dfcm_autonomic_finish.py:480-556 | a capsule is constructed exactly when the manifest is admissible and reportable and is done or has something to repair; it preserves the whole frontier and selects as many of its first as the limit allows, each intent naming its component as the manifest has it and the action for its standing, or nothing when done; a refusal states the first ground, down to the row at fault or the malformed role list |
| `ExecutionCapsule.SelectedIntent` | scripts/dfcm_autonomic_finish.py:341-381 | a selected intent belongs to a component that can be repaired now, names its commit and carries its own digest |
| `ExecutionCapsule.ConstructedCapsuleIsSound` | scripts/dfcm_autonomic_finish.py:593-602 | a constructed capsule verifies, and its intents have distinct digests |
| `ExecutionCapsule.AdmittedExactly` | scripts/dfcm_autonomic_finish.py:615-681 | a grant is admitted if and only if it names the capsule, a selected intent and that intent's commit, has the scope, an authority and an actor, was issued before its window opens, and the present lies in the half-open window |
| `ExecutionCapsule.IntentByDigestExactly` | scripts/dfcm_autonomic_finish.py:574-581 | a digest stands for the first selected intent that has it |
| `ExecutionCapsule.GrantRefusedTruly` | scripts/dfcm_autonomic_finish.py:615-664 | every refusal of a grant has its ground in the capsule, the grant or the present |
| `ExecutionCapsule.AdmissionCopiesGrant` | scripts/dfcm_autonomic_finish.py:665-681 | the admission carries exactly what the grant says, and the commit and action of the intent that the digest stands for; it is sealed, and the present lies in its window |
| `ExecutionCapsule.ClosedExactly` | scripts/dfcm_autonomic_finish.py:804-857 | an execution is closed if and only if capsule and admission verify and belong together, and the evidence names their commit and intent, ends cleanly, is verified, lies in the window and lists verification and replay |
| `ExecutionCapsule.EvidenceRefusedTruly` | scripts/dfcm_autonomic_finish.py:804-857 | every refusal to close has its ground in the capsule, the admission or the evidence |
| `ExecutionCapsule.ClosureCopiesEvidence` | scripts/dfcm_autonomic_finish.py:804-916 | a closure needs the admission's commit and intent, a clean exit, a verified postcondition and an observation inside the window; its four events replay, and record the admission, the observed actuation, the verification and the replay with what admission and evidence say |
| `ExecutionCapsule.ClosedExecutionWasLawful` | scripts/dfcm_autonomic_finish.py:480-916 | if all three stages succeed in sequence, the evidence names the commit and intent of a selected component that was required, repairable and had every dependency ALIVE, and both admission and observation fall in the granted window |
| `ExecutionCapsule.IssuedExactly` | scripts/dfcm_autonomic_finish.py:615-681 | some grant, at some time, issues an admission if and only if it verifies, names the capsule and a selected intent with its commit and action, has the scope, an authority and an actor, and was issued before a window that is not empty |
| `ExecutionCapsule.ClosingNeedsNoGrant` | scripts/dfcm_autonomic_finish.py:804-857 | for every capsule that verifies and any intent digest and commit there is an admission under which evidence for them closes, although no grant issued it unless the intent is selected |
| `ExecutionCapsule.CheckedClosureWasLawful` | scripts/dfcm_autonomic_finish.py:804-916 | an execution closed under an admission that meets that condition goes back to a selected intent of a repairable component |
| `ExecutionCapsule.SelectedCanBeClosed` | scripts/dfcm_autonomic_finish.py:480-916 | every selected intent of a constructed capsule can be granted, admitted and closed |
| `ExecutionCapsule.DoneAdmitsNoGrant` | scripts/dfcm_autonomic_finish.py:487-497 | a finished release's capsule admits no grant at all |
| `ExecutionCapsule.GrantBindsOneCapsule` | scripts/dfcm_autonomic_finish.py:640-681 | a grant fits one capsule only, and what it admits does not depend on when |
| `ExecutionCapsule.EvidenceBindsOneIntent` | scripts/dfcm_autonomic_finish.py:812-833 | evidence that closes under two admissions finds the same commit and intent in both, and one admission closes under one capsule |
| `ExecutionCapsule.AlteredArtifactRefused` | scripts/dfcm_autonomic_finish.py:584-612 | a capsule or admission altered under its old digest is refused |
| `Preparation.PreserveActionFrontier` | scripts/v2030_definition_of_done.py:277-300 | sound candidates are split: each one is on the frontier, in order of cost and identifier, if it is lawful, and among the exclusions with the first ground that applies if not; otherwise refused for the first candidate at fault, or because nothing is lawful |
| `Preparation.SelectCandidate` | scripts/v2030_definition_of_done.py:303-307 | a selection succeeds exactly when the identifier is on the frontier |
| `Preparation.UnfitExactly` | scripts/v2030_definition_of_done.py:140-146 | a candidate can be taken exactly when its identifier, its consequence and its cost are in order; otherwise it is refused for the first that is not |
| `Preparation.ExcludedExactly` | scripts/v2030_definition_of_done.py:287-296 | a candidate is lawful exactly when it is reversible, admitted, within its constraints and not falsified; otherwise it is excluded for the first of these |
| `Preparation.FactsExactly` | scripts/v2030_definition_of_done.py:270 | a fact is what is left of some note without the white space around it |
| `Preparation.SomeFactExactly` | scripts/v2030_definition_of_done.py:270-272 | there are facts exactly when some note is not all white space |
| `Preparation.Prepare` | scripts/v2030_definition_of_done.py:265-367 | a request is prepared exactly when subject, intent, facts, candidates, selection and verification are in order, and every part and digest of the result belongs to it; otherwise it is refused for the first of these that is not |
| `Preparation.FactsPermuted` | scripts/v2030_definition_of_done.py:270 | the order of the notes leaves no trace in the facts |
| `Preparation.FactsRepeated` | scripts/v2030_definition_of_done.py:270 | nor does repetition |
| `Preparation.FactsPadded` | scripts/v2030_definition_of_done.py:270 | nor does white space around any note |
| `Preparation.SplitsUnique` | scripts/v2030_definition_of_done.py:277-300 | the same candidates in any order have one split |
| `Preparation.PreparationIgnoresPresentation` | scripts/v2030_definition_of_done.py:332-367 | a request written differently is prepared if and only if the original is, to the same intent with the same digest |
| `ConsequenceCourt.ReceiptStore.Reserve` | scripts/v2030_definition_of_done.py:209-217 | a key is reserved for one intent, or the store is unchanged and the refusal says why |
| `ConsequenceCourt.ReceiptStore.Commit` | scripts/v2030_definition_of_done.py:219-235 | a receipt is stored for a reserved key and its intent only, and never rewritten |
| `ConsequenceCourt.ReceiptStore.Verify` | scripts/v2030_definition_of_done.py:237-246 | a receipt verifies when it is the persisted one, agrees with the reservation and replays |
| `ConsequenceCourt.ReplayReceipt` | scripts/v2030_definition_of_done.py:388-391 | a second call reads its receipt and touches neither store nor world |
| `ConsequenceCourt.Do` | scripts/v2030_definition_of_done.py:393-428 | observe, actuate once, observe, commit, verify; the world sees exactly the actuation that is reported |
| `ConsequenceCourt.AdmitDo` | scripts/dfcm_autonomic_finish.py:684-716 | a grant is admitted, or refused for the first thing that its authority lacks |
| `ConsequenceCourt.PastTheGate` | scripts/v2030_definition_of_done.py:379-391 | a call gets past the gate with full authority and a key of its own, and then answers from its receipt or acts; any other is refused and changes nothing |
| `ConsequenceCourt.Execute` | scripts/v2030_definition_of_done.py:370-428 | one call on the mutable store and world does what the transition says, on every path; the world is acted on only with a grant for that consequence, commit and intent, of the one scope, by someone, for a time |
| `ConsequenceCourt.DoCommits` | scripts/v2030_definition_of_done.py:403-428 | after an actuation under a reserved key nothing can be refused: the receipt is committed and verifies, also when the actuator failed |
| `ConsequenceCourt.TransitionKeepsSound` | scripts/v2030_definition_of_done.py:370-428 | whatever is presented and whatever the world does, a call keeps receipts lawful and paired one to one with actuations, and only adds to the store |
| `ConsequenceCourt.ResultMeansReceipt` | scripts/v2030_definition_of_done.py:387-428 | a call with a result leaves a committed receipt that verifies; a refused call has not actuated and has committed nothing |
| `ConsequenceCourt.ActuatesExactly` | scripts/v2030_definition_of_done.py:370-403 | a call actuates if and only if the grant names the consequence, the commit and the intent, with the scope, an authority and an expiry, the store is available, the key is not blank, free of a receipt and of other intents, and the precondition shows; then it adds exactly its own receipt and returns its result, and otherwise no receipt is added |
| `ConsequenceCourt.RunIsSound` | scripts/v2030_definition_of_done.py:196-428 | after any history no key has been actuated twice, every actuation has its committed receipt and every receipt its one actuation |
| `ConsequenceCourt.RunOnlyGrows` | scripts/v2030_definition_of_done.py:196-246 | reservations, receipts and the log of actuations are only ever added to |
| `ConsequenceCourt.ReceiptAnswers` | scripts/v2030_definition_of_done.py:387-391 | a call whose key has a receipt for its intent returns that receipt's result and changes nothing |
| `ConsequenceCourt.ResultIsFinal` | scripts/v2030_definition_of_done.py:370-449 | once a call has given a result, the same call gives it for ever, whatever happens in between, and never actuates again |
| `ConsequenceCourt.PreparedIsConsistent` | scripts/v2030_definition_of_done.py:340-367 | a prepared execution carries the digest of its own content |
| `ConsequenceCourt.ReceiptsAreFaithful` | scripts/v2030_definition_of_done.py:405-428 | over histories of prepared executions each receipt tells of exactly the intent it is filed under |
| `ConsequenceCourt.AliveMeansObserved` | scripts/v2030_definition_of_done.py:431-449 | ALIVE means the consequence was requested exactly once under its key, from the expected precondition, without error, and the expected postcondition was observed |
| `IntentReuse.ReceiptedMeansLogged` | scripts/v2030_definition_of_done.py:219-235 | an intent has a receipt in the store if and only if it has been actuated |
| `IntentReuse.ReactuatesExactly` | scripts/v2030_definition_of_done.py:340-403 | a call actuates an intent that was actuated before if and only if it reaches the world while the store holds a receipt for that intent |
| `IntentReuse.IntentsOnceExactly` | scripts/v2030_definition_of_done.py:196-428 | over any history: no intent is actuated twice if and only if no call does that |
| `IntentReuse.ActuationWasCalledFor` | scripts/v2030_definition_of_done.py:370-403 | every actuation in the log stems from a call of the history under its key, for its intent and consequence, whose grant names that intent, consequence and commit, the scope and the recorded authority |
| `IntentReuse.OneKeyOneActuation` | scripts/v2030_definition_of_done.py:196-428 | when calls for one intent use one key, no intent is actuated twice in any history |
| `IntentReuse.SecondKeyExactly` | scripts/v2030_definition_of_done.py:340-403 | after an actuation the same intent is actuated again if and only if it is presented under another key that is open for it and the world shows the precondition |
| `IntentReuse.FirstCallReaches` | scripts/v2030_definition_of_done.py:370-403 | whatever has been prepared is actuated by a first call with a fitting grant |
| `IntentReuse.SampleIsPrepared` | scripts/v2030_definition_of_done.py:332-367 | a plain request is preparable, and this is what it is prepared to |
| `IntentReuse.IntentActuatedTwice` | scripts/v2030_definition_of_done.py:340-357 | a plain request presented under two keys: one intent, actuated twice |
| `SearchRanges.BoundsAreTight` | scripts/reconcile_portfolio_activity.py:82-92 | the first second holds the start of the half-open window and the last one its last microsecond, so the bounds cover it and neither end second could be spared |
| `SearchRanges.CappedAndHonest` | scripts/reconcile_portfolio_activity.py:31-32 | whatever the rows, an interface can answer honestly as far as it shows anything and show nothing beyond the thousandth row of an answer; that is all the completeness results ask of it |
| `SearchRanges.HalvesTile` | scripts/reconcile_portfolio_activity.py:220-229 | segments that tile a range, continued by others, tile as far as those do from there on |
| `SearchRanges.HalvesAccepted` | scripts/reconcile_portfolio_activity.py:220-229 | depth grows by one while the range is halved, so depth stays logarithmic in the seconds |
| `SearchRanges.InRangeSplits` | scripts/reconcile_portfolio_activity.py:220-229 | the rows of a range are those of its halves, each once |
| `SearchRanges.NextPage` | scripts/reconcile_portfolio_activity.py:231-242 | reading one more page extends the rows read so far in the listing's order |
| `SearchRanges.PageCountExactly` | scripts/reconcile_portfolio_activity.py:232 | as many pages as the rows take up, and no more, and one if there are none |
| `SearchRanges.GatheredHonest` | scripts/reconcile_portfolio_activity.py:231-242 | over an honest interface the pages asked for in turn make up the listing so far |
| `SearchRanges.GatheredServed` | scripts/reconcile_portfolio_activity.py:231-242 | over any interface the rows gathered were all shown, by answers that were complete and agreed on a total within the cap |
| `SearchRanges.JoinHalves` | scripts/reconcile_portfolio_activity.py:220-229 | two halves that meet the search contract meet it together |
| `SearchRanges.JoinAtRoot` | scripts/reconcile_portfolio_activity.py:276-283 | the same at the root |
| `SearchRanges.HalvesAtRoot` | scripts/reconcile_portfolio_activity.py:276-283 | after a split at the root the depth of a segment is bounded by the half its search started from |
| `SearchRanges.RefusedHalf` | scripts/reconcile_portfolio_activity.py:220-229 | a refused half refuses the whole, with a crowded second as the reason |
| `SearchRanges.KeysExactly` | scripts/reconcile_portfolio_activity.py:119-129 | two rows have one key exactly when their nonempty node ids agree, or neither has one and their ids agree, or neither has either and their nonempty urls agree; a row has no key exactly when it has none of the three |
| `SearchRanges.DifferentNodesAreDistinct` | scripts/reconcile_portfolio_activity.py:119-122 | rows with pairwise different nonempty node ids are all of different pull requests, so that a census over them is exact |
| `SearchRanges.FirstRowsKept` | scripts/reconcile_portfolio_activity.py:285-287 | of each pull request, told apart on the fields of the rows, the first row is kept, exactly one, and nothing that was not there |
| `SearchRanges.NothingLost` | scripts/reconcile_portfolio_activity.py:285-287 | over rows of different pull requests deduplication drops nothing |
| `SearchRanges.WindowIsCovered` | scripts/reconcile_portfolio_activity.py:331-350 | filtering the rows of the search bounds by the exact window finds the same repositories as filtering all rows |
| `ActivityCensus.ReadPages` | scripts/reconcile_portfolio_activity.py:231-249 | an accepted leaf has as many rows as reported, all of them shown by some whole answer, and over an honest interface it is the listing itself |
| `ActivityCensus.ReadOn` | scripts/reconcile_portfolio_activity.py:233-242 | the pages are asked for in turn; an accepted range had only complete answers that agreed on the total, and an honest interface gives none other |
| `ActivityCensus.SearchPartition` | scripts/reconcile_portfolio_activity.py:201-257 | for any interface: termination, segments that tile the range, at most a thousand rows each, counts that add up, bounded depth, and no row that was not shown; for an honest one, capped or not: exactly the rows of the range, or a second that is too crowded |
| `ActivityCensus.SearchWindow` | scripts/reconcile_portfolio_activity.py:262-283 | the same for the whole window, with depths bounded by the range each search started from |
| `ActivityCensus.Deduplicate` | scripts/reconcile_portfolio_activity.py:285-287 | exactly one row of each pull request is kept, and it is the first; a row without node id, id or url refuses the census |
| `ActivityCensus.ActiveRepositories` | scripts/reconcile_portfolio_activity.py:334-350 | exactly the owner's repositories with a pull request updated inside the half-open window |
| `ActivityCensus.PullRequestCensus` | scripts/reconcile_portfolio_activity.py:259-350 | for any interface the kept rows were shown by whole answers, the counts add up, depths are bounded and the active set is that of the kept rows; over an honest one to rows of different pull requests, capped or not, the census is refused exactly when some second is too crowded, and otherwise keeps exactly the rows of the range |
| `TrendFit.DenominatorPositive` | scripts/bfcc_benchmark.py:59-61 | with two or more points the denominator is positive |
| `TrendFit.RisingSlopePositive` | scripts/bfcc_benchmark.py:49-62 | a series that never falls and does rise has a positive slope |
| `TrendFit.ReversedSlope` | scripts/bfcc_benchmark.py:49-62 | read backwards, a series has the opposite slope |
| `TrendFit.NeverFallsNeverDegrades` | scripts/bfcc_benchmark.py:65-74 | a series that never falls is DEGRADING if and only if it has two points or more, is constant, and the tolerance is not positive |
| `TrendFit.ConstantPairDegrades` | scripts/bfcc_benchmark.py:65-74 | two equal values under no tolerance are DEGRADING |
| `TrendFit.FlatExactly` | scripts/bfcc_benchmark.py:49-62 | the slope is zero if and only if twice the values weighed by their indices are n - 1 times their sum |
| `TrendFit.DirectionsAgree` | scripts/bfcc_benchmark.py:65-74 | read backwards a series has the opposite direction, except exactly when it balances in that sense and the tolerance is not positive |
| `TrendFit.PeakDegradesBothWays` | scripts/bfcc_benchmark.py:65-74 | 0, 1, 0 under no tolerance is DEGRADING both ways |
| `TrendFit.FittedResiduals` | scripts/bfcc_benchmark.py:49-62 | the residuals of the fitted line are perpendicular to the constants and to the indices |
| `TrendFit.FitIsOptimal` | scripts/bfcc_benchmark.py:49-62 | no line has a smaller sum of squared residuals, and no other line the same |
| `TrendFit.BestLineClassifies` | scripts/bfcc_benchmark.py:65-74 | whatever line fits best decides the direction: flat within the tolerance, else improving when it rises and degrading when it does not; and its slope is the one reported |
| `TrendFit.LineRecovered` | scripts/bfcc_benchmark.py:49-62 | a series that lies on a line is given that line |
| `EvidenceManifest.NormalizeIdempotent` | scripts/exact_subject_evidence_manifest.py:44-71 | normalising twice is normalising once |
| `EvidenceManifest.NormalizeExactly` | scripts/exact_subject_evidence_manifest.py:44-71 | an observation is normalised exactly when it is bound to the subject with a sensor, a known result and an evidence identifier, and then says what it said with its names stripped; otherwise it is refused for the first of these that fails |
| `EvidenceManifest.RepositoryExactly` | scripts/exact_subject_evidence_manifest.py:17-41 | a repository is an owner, a slash and a name |
| `EvidenceManifest.CountsExactly` | scripts/exact_subject_evidence_manifest.py:95 | each of the five counts is the number of places where the result stands |
| `EvidenceManifest.StandingExactly` | scripts/exact_subject_evidence_manifest.py:96-110 | BUILD_BROKEN exactly when some observation is FAIL; UNKNOWN exactly when none is and there are none, or some is PENDING or UNKNOWN; UNSUPPORTED exactly when there are some and all are; PARTIAL_ALIVE otherwise; each with its reason |
| `EvidenceManifest.UniqueInOrder` | scripts/exact_subject_evidence_manifest.py:93 | sorted observations are in order of sensor and, within a sensor, of evidence |
| `EvidenceManifest.Merge` | scripts/exact_subject_evidence_manifest.py:86-92 | one observation of each key is kept, and the merge is refused exactly when two observations of one key differ |
| `EvidenceManifest.Manufacture` | scripts/exact_subject_evidence_manifest.py:74-122 | a manifest is manufactured exactly when every observation binds to the subject and none conflict; it lists each normalised observation once, in order of sensor and evidence, counts them by result, has the standing and reason they show, and is sealed; a refusal states its true ground |
| `EvidenceManifest.ManifestIgnoresPresentation` | scripts/exact_subject_evidence_manifest.py:85-93 | observations that normalise to the same set give the same manifest |
| `EvidenceManifest.PermutedOrRepeated` | scripts/exact_subject_evidence_manifest.py:85-93 | so any permutation or repetition does |
| `EvidenceManifest.ManifestIsFixedPoint` | scripts/exact_subject_evidence_manifest.py:135-137 | a manifest manufactures itself from its own subject and observations |
| `EvidenceManifest.Verify` | scripts/exact_subject_evidence_manifest.py:125-138 | exactly the manifests that some input manufactures are accepted |
| `LoopCrown.Board.Fail` | scripts/aloop_crown.py:261-264 | a term has failed exactly when a reason is recorded for it |
| `DefectRouting.ContainsSplit` | scripts/aloop_crown.py:343-347 | a word is never found across a separator that it does not contain |
| `DefectRouting.ComplaintNames` | scripts/aloop_crown.py:225-250 | the complaint itself contains the word exactly when the defect is about the replay binding |
| `DefectRouting.RenderedNames` | scripts/aloop_crown.py:224-250 | the rendered defect contains the word if and only if the defect is about the replay binding or the lane is so named |
| `DefectRouting.Route` | scripts/aloop_crown.py:343-347 | searching the rendered defect charges it to REPLAY exactly when it is about the replay binding or its lane contains the word, and to RECEIPTS otherwise |
| `DefectRouting.RoutedAsMeant` | scripts/aloop_crown.py:343-347 | a defect is charged to the term it is meant for if and only if it is about the binding or the lane does not contain the word |
| `DefectRouting.MisroutedLane` | scripts/aloop_crown.py:343-347 | a lane whose missing provider is charged to REPLAY |
| `LoopCrown.ReceiptDefects` | scripts/aloop_crown.py:219-253 | the defects of a lane's receipts are recorded, each under the term it is charged to; a work order that names its provider refuses the evaluation |
| `LoopCrown.CausalPass` | scripts/aloop_crown.py:284-317 | what a lane gives grounds for in LOOP and CAUSALITY |
| `LoopCrown.AuthorityPass` | scripts/aloop_crown.py:324-347 | what it gives grounds for in AUTHORITY, RECEIPTS and REPLAY |
| `LoopCrown.RecoveryPass` | scripts/aloop_crown.py:358-368 | malformed recoveries, and whether a recovery without a human was witnessed |
| `LoopCrown.ProcessPass` | scripts/aloop_crown.py:384-407 | incomplete event logs and unchanged repositories |
| `LoopCrown.OverallPass` | scripts/aloop_crown.py:369-380 | what only all lanes together give grounds for |
| `LoopCrown.PassesTogether` | scripts/aloop_crown.py:276-411 | pass by pass, everything that is due is found and nothing else |
| `LoopCrown.Evaluate` | scripts/aloop_crown.py:256-417 | the accumulated findings are exactly those due under one declarative condition, in no order of lanes in particular; a term is missing exactly when it has a finding |
| `LoopCrown.DefectsReachTheirTerm` | scripts/aloop_crown.py:343-347 | of the defects a lane gives grounds for, exactly those about the binding, or of a lane without the word, are under the term they are meant for |
| `CrownCondition.SoundMeansNoGrounds` | scripts/aloop_crown.py:284-407 | a lane is sound exactly when it gives no grounds |
| `CrownCondition.BindingExactly` | scripts/aloop_crown.py:27 | a binding is a verifier name, a colon and a target without white space |
| `LoopCrown.SelfRecoveredExactly` | scripts/aloop_crown.py:363-368 | a lane has recovered exactly when it records a recovery to success by replan, reissue or provider.replace with no human edge |
| `CrownCondition.ProvidersExactly` | scripts/aloop_crown.py:348-354 | a provider is seen exactly when some receipt of some lane is by it |
| `CrownCondition.RefusableExactly` | scripts/aloop_crown.py:241-247 | the evaluation is refused exactly when a work order contains the name of its provider in whatever case |
| `CrownCondition.NothingDueMeansCrownHolds` | scripts/aloop_crown.py:256-417 | nothing is due if and only if there are lanes, each with its record and sound in all its fields, and the lanes between them show a recurrence, a recovery, a stress pass and provider diversity |
| `CrownCondition.Crown` | scripts/aloop_crown.py:420-438 | the evaluation is refused if and only if a work order names its provider; otherwise the standing is AUTONOMOUS_LOOP_ALIVE if and only if that condition on the fields of the records holds |
| `CapabilityCatalog.CheckItems` | scripts/verify_capabilities.py:77-116 | items pass exactly when each is fit and no identifier is used twice; a refusal is that of the first item at fault |
| `CapabilityCatalog.IdExactly` | scripts/verify_capabilities.py:80-85 | an identifier is the prefix and one or more small letters, digits, hyphens and underscores |
| `CapabilityCatalog.UnfitExactly` | scripts/verify_capabilities.py:90-116 | an item is fit exactly when owner, class, standing, authority, interfaces, contract and sources are declared and a DO is fenced by a mutating authority, a broker and a receipt; otherwise the defect is the first there is |
| `CapabilityCatalog.Verify` | scripts/verify_capabilities.py:68-137 | a catalog is admitted exactly when header, items, closure and acyclicity are in order, and then listed by identifier; each refusal states its true ground |
| `CapabilityCatalog.MissingExactly` | scripts/capability_control.py:138 | the missing dependencies, listed as the item names them, are exactly those not observed ALIVE |
| `CapabilityCatalog.Judge` | scripts/capability_control.py:135-163 | an item is admitted exactly when it may be used; if not, its missing dependencies and the reasons that apply are recorded |
| `CapabilityCatalog.Frontier` | scripts/capability_control.py:118-176 | the loop sends usable items to the frontier and the others, each with its missing dependencies and reasons, to the blocked, in order |
| `CapabilityCatalog.SidesPartition` | scripts/capability_control.py:135-167 | the two sides share out the items: none dropped, none twice |
| `CapabilityCatalog.SideMembers` | scripts/capability_control.py:138-147 | an item is on the frontier exactly when its dependencies are observed ALIVE, its authority is allowed, and it is not consequential or a fenced DO that was asked for |
| `CapabilityCatalog.UnexplainedExactly` | scripts/capability_control.py:158-167 | a blocked item lacks a reason exactly when its class is unknown, or it is a DO without broker or receipt that everything else would admit |
| `CapabilityCatalog.UnfencedDoUnexplained` | scripts/capability_control.py:140-166 | a DO without a broker that everything else would admit is blocked without a reason |
| `CapabilityCatalog.AdmittedFrontierExplained` | scripts/verify_capabilities.py:108-116 | in an admitted catalog everything blocked has a reason, and a DO on the frontier has a granted mutating authority, a broker and a receipt |
| `CapabilityCatalog.FrontierGrows` | scripts/capability_control.py:138-147 | more ALIVE, more authority or DO included: nothing leaves the frontier |
| `TurtleText.EscapedIsOnePass` | scripts/project_external_paradigm_graph.py:26-33 | the four replacements in sequence are a map of single characters |
| `TurtleText.LiteralMatches` | scripts/project_external_paradigm_graph.py:26-33 | whatever follows, a literal matches STRING_LITERAL_QUOTE in its full length (RDF 1.1 Turtle, section 6.5) |
| `TurtleText.LiteralIsOneToken` | scripts/project_external_paradigm_graph.py:26-33 | under the longest match of STRING_LITERAL_QUOTE and STRING_LITERAL_LONG_QUOTE, a literal is one token of the first kind if and only if it is not empty or what follows does not open a long string |
| `TurtleText.LiteralIsOneTokenEagerly` | scripts/project_external_paradigm_graph.py:26-33 | for a reader that decides at three quotes: if and only if it is not empty or what follows does not begin with a quote |
| `TurtleText.EmptyLiteralSwallowed` | scripts/project_external_paradigm_graph.py:26-33 | an empty literal directly before a text in quotes is read as one long string |
| `TurtleText.LiteralReads` | scripts/project_external_paradigm_graph.py:26-33 | before anything that does not begin with a quote, a literal is read back and nothing else is touched |
| `TurtleText.LiteralRoundTrip` | scripts/project_external_paradigm_graph.py:26-33 | unescaping the token (RDF 1.1 Turtle, section 6.4) gives the text back |
| `TurtleText.LiteralInjective` | scripts/project_external_paradigm_graph.py:26-33 | different texts are written differently |
| `TurtleProjection.OpenOneMore` | scripts/project_external_paradigm_graph.py:166-170 | rewriting the last line and appending another keeps a block open at its last line |
| `TurtleProjection.EmitUnit` | scripts/project_external_paradigm_graph.py:124-173 | a unit leaves exactly the block of its statements, for any number of targets and optional parts |
| `TurtleProjection.CollectEdges` | scripts/project_external_paradigm_graph.py:146-164 | an edge for each declared target, refused exactly when a target is empty or unknown, for the first such target |
| `TurtleProjection.ProjectUnit` | scripts/project_external_paradigm_graph.py:90-184 | a unit is projected exactly when it is well formed, a candidate without standing, and its targets exist; otherwise it is refused for the first of these |
| `TurtleProjection.AllAcceptableIff` | scripts/project_external_paradigm_graph.py:90-153 | all units up to the last are acceptable exactly when each is |
| `TurtleProjection.ProjectUnits` | scripts/project_external_paradigm_graph.py:88-184 | the inventory is projected unit by unit, or refused because of its first unacceptable unit |
| `TurtleProjection.BlockTerminated` | scripts/project_external_paradigm_graph.py:124-173 | in every block the last line alone ends with a full stop and all others with a semicolon |
| `TurtleProjection.EdgesOrGaps` | scripts/project_external_paradigm_graph.py:147-184 | a unit whose identifier is its own is among the edges exactly when it has targets, and among the unresolved exactly when it has none |
| `TurtleProjection.RecordedExactly` | scripts/project_external_paradigm_graph.py:147-184 | without that condition: an identifier is among the edges if and only if some unit with it has targets, and among the unresolved if and only if some unit with it has none, so repeated identifiers may be in both |
| `TurtleProjection.SharedIdInBoth` | scripts/project_external_paradigm_graph.py:147-184 | two units with one identifier, one with a target and one without, put it in both lists |
| `TurtleReading.OneMoreSaid` | scripts/project_external_paradigm_graph.py:135-170 | amending the last line and appending a statement keeps every literal readable |
| `TurtleReading.UnitReadsBack` | scripts/project_external_paradigm_graph.py:124-173 | when no name in an IRI brings a quote, a reader takes from the text of a unit exactly its identifier, object, kind, name, source and pattern: no literal is ever followed directly by a quote |
| `TurtleIri.IriIsOneToken` | scripts/project_external_paradigm_graph.py:36-37 | an IRI is one IRIREF token (RDF 1.1 Turtle, section 6.5) if and only if it is legal |
| `TurtleIri.LegalJoined` | scripts/project_external_paradigm_graph.py:40-42 | names joined by a colon are legal if and only if both are |
| `TurtleIri.IrisLegalExactly` | scripts/project_external_paradigm_graph.py:119-170 | all IRIs of a unit are legal if and only if supplier, commit, kind and disposition are |
| `TurtleIri.LegalUnitReadsBack` | scripts/project_external_paradigm_graph.py:119-173 | a unit with legal names is read back, IRI token and literals |
| `TurtleIri.QuotedKindIllegal` | scripts/project_external_paradigm_graph.py:40-42 | a kind with a quote in it makes an IRI that is not a token |

## Left out

- Transport, subprocesses, file, TOML and JSON loading, argument parsing, exit codes, rendering to Markdown, and the scripts that only observe or only check fields.
- Bytes of canonical JSON and of SHA-256: digests are free constructors, so a collision is outside the model. Keys of a presented object that the code does not read are outside it too, whether it digests them (capsules, admissions, manifests) or not (items of a replayed chain, where an added key goes unnoticed).
- Floating point: series, fractions and coverage are reals, so the rounding of the published coverage figure and the tolerance of float sums are not modelled; neither are `math.ceil` errors on float products.
- Parsing of RFC 3339 texts: a time arrives as an instant, as unreadable, or as lacking a zone.
- Non-ASCII case mapping and character classes (`upper`, `lower`, `islower`, `isdigit`): the ASCII part only.
- Type checks on loosely typed input, except where a malformed value has its own branch (items that are not objects, missing fields, fields of the wrong type in grants and evidence).
- Concurrency, observers that raise, actuators that call `execute` again on the same store before the outer call has committed, interpreter exits inside the actuator, callers that assign to the store's fields directly, and the recursion limit of the interpreter.
- `scripts/errc_portfolio.py` `build`: the action lists and the pull-request arithmetic around the focus.
- `scripts/dfcm_autonomic_finish.py` `cycle` and `select`: they compose what is proved here; the `checks` flags of the report and the constant texts of the capsule carry no decision.
- `scripts/v2030_definition_of_done.py` `validate_repository_contract`: it compares files of the repository with constants.
- `scripts/reconcile_portfolio_activity.py` pushed-repository half, row counters, union and census receipt.
- `scripts/bfcc_benchmark.py` `compute_eta`, `compute_lambda` and the grouping of receipts by campaign.
- `scripts/aloop_crown.py` `validate_record`: records are taken after validation; the list of violations kept apart from the other reasons is not modelled, and reasons are tagged values instead of sentences.
- `scripts/verify_calendar_release.py` outside the cycle scan, and `combine` in `scripts/verify_capabilities.py`.
- `scripts/project_external_paradigm_graph.py` prefix lines, the inventory header checks, disposition concepts, and the final sort of edges; percent-encoding in IRIs is a parameter.
- DefinitionOfDone.Evaluate: states which findings there are, not their order or how often a dependency listed twice is reported.
- LoopCrown.Evaluate: states the set of findings, not the order in which reasons are recorded.
- CycleScan.Cycles: does not say which trails are reported, since that depends on the order of the table.
- DependencyGraph.DanglingDependency: names some offending node, where the planners name the first in table order.
- TurtleReading.UnitReadsBack: assumes names without a quote, where the code takes any; its reader knows string literals only, and IRIs are read separately in TurtleIri. That percent-encoding leaves plain characters is assumed there.
- DefectRouting.RenderedNames: holds for whatever text a malformed binding is shown as; Python's own quoting of it is not modelled.
