# Verified model of the remediation engine's ordering, state and closure logic

A Dafny 4.11 model of the parts of the repository whose correctness depends on more than one
function body: the Maven version order and the selection over it, the supervisor's task state, the
findings tracker of the dashboard, the console log and its copy in the browser, and the graph and
batch computations around them.

| Files | Subject |
|---|---|
| `Wrappers`, `Text` | optional values; ASCII trimming and case mapping, Python's string order, numerals |
| `MavenOrder`, `MavenParser`, `MavenParserLists`, `MavenRender`, `MavenVersions`, `MavenNumbers`, `MavenTexts`, `MavenSpellings`, `MavenSelection` | version items and comparator; the parser as a scan and as the loop over aliased lists; its inverse; where the order is transitive; what numbers and words mean; which texts are versions and which are one; selecting the next version |
| `SupervisorTasks`, `Sweeps`, `SupervisorValidator`, `SupervisorLaws`, `SupervisorBarrier` | transitions and commits; the four validation loops; what a pass guarantees; the barrier before teardown |
| `FindingRules`, `FindingsTracker`, `IssueComponents` | what the tracker does to rows; the tracker's state; grouping of scanner records by union-find |
| `EventLog`, `QueueReaders`, `SpanRules`, `SpanRuns`, `SpanRecorder`, `ParentChains` | the upsert log; its queue and the browsers; tool spans and their rows, on values, over runs and in the recorder; walks up parent links |
| `Graphs`, `MavenScope`, `DescendantSpans`, `TaskLineage`, `BatchSampler` | reactor scope, descendant spans, task lineage, batch sampling |

Loops that change dictionaries, lists or fields are methods with invariants, proved against
functions on values; the laws are lemmas about those functions. Iteration orders of dictionaries
and sets are parameters or arbitrary choices, so what is proved holds for all of them.

## What the code does not do

Some expectations a reader may have are false of the code. Each has a concrete witness and the exact
condition under which the code meets it.

- The version order is not transitive on all valid versions: 1-1 is below 1.0.rc.1, which is below
  1, which is below 1-1 (`MavenVersions.PreReleaseCycle`). It is transitive over a set of qualifiers
  if and only if the set holds no pre-release qualifier (`MavenVersions.TransitiveExactly`);
  selection stays inside that domain.
- Appending .0 does not always give the same version: 1.x and 1.x.0 differ
  (`MavenSpellings.DottedWordDiffers`), and `MavenSpellings.AppendZero` says exactly when it does.
- A validation without errors guarantees that every target owns its snapshot if and only if no
  usable snapshot is filed under the empty attempt id (`SupervisorLaws.OwnedExactly`, witness
  `SupervisorLaws.EmptyAttemptEscapes`): an empty id skips the identity check of the task loop and
  passes the target loop. The repository never files one: the snapshot schema demands a non-empty
  attempt id (`src/remediation_engine/contracts/schemas.py:2032`), and the supervisor files each
  snapshot under a generated id (`src/remediation_engine/orchestration/supervisor_node.py:1400`). For
  such maps `SupervisorLaws.RealIdsOwned` proves ownership without exception.
- A validation without errors does not look at the node a target's snapshot was made for: a target
  handed to update_subagent on a workaround snapshot skips the authorization test.
  `SupervisorLaws.HandedOnlyToExactly` says for which snapshots that is excluded (witness
  `SupervisorLaws.OwnerClean`). For the two worker
  nodes the supervisor makes the snapshot for the node it routes to
  (`src/remediation_engine/orchestration/supervisor_node.py:6759`).
- The sampler can finish for every number of batches asked for if and only if the names are
  distinct, or a batch takes nothing or the whole pool (`BatchSampler.FinishesExactly`, witness
  `BatchSampler.RepeatedNames`). The script's own pool comes from `get_unique_packages`
  (`examples/juice_shop/run_batch.py:74-88`), which returns distinct names, so only direct callers can
  pass repeated ones.
- The readers of one event queue, such as browser tabs on one run, converge in every run if and only
  if there is at most one of them (`QueueReaders.ConvergesExactly`, witness `QueueReaders.TwoReadersDiverge`).
- Opening a span under a run id that is still in use keeps running rows and active tools paired if
  and only if the id is not that of an active visible tool (`SpanRules.QuietReuseExactly`,
  `SpanRules.ToolReuseExactly`, witness `SpanRules.ReusedRunIdOrphansRow`). Run ids come from the
  tracing callbacks, or from a random id for events recorded by hand
  (`src/remediation_engine/orchestration/trajectory_exporter.py:448`), so only a callback that starts
  one run twice would do it.
- A freshly seeded tracker answers every search exactly if and only if no identifier was overwritten by
  a later record of the same row id (`FindingsTracker.SearchesExactly`, witness
  `FindingsTracker.SharedIdLoses`); distinct ids suffice (`FindingsTracker.DistinctIdsLoseNothing`).
  Equal ids can occur: a record with a CVE and a GHSA id, and one of the same package occurrence that
  carries the same CVE only as its rule id, get different tokens
  (`src/remediation_engine/orchestration/issue_identity.py:54-70`) and stay separate findings, while
  the row id is made from the vulnerability id and the occurrence alone
  (`demo/backend/workspace_manager.py:41-52`).

The comment at `_supervisor_execution.py:193-195` says that any change of worker input is paired
with a new revision. `SupervisorTasks.CommitLaws` proves that for the listed input fields; the plan's
issue ids, which the validator compares and repairs, are not among them
(`SupervisorTasks.PlanIssuesUnstamped`). `SupervisorLaws.RevisionStampsExactly` says what an unmoved
revision is worth: snapshots match as before if and only if the issue ids were left alone.

## Model

| member | source | states |
|---|---|---|
| MavenOrder.ItemsAntisymmetric | src/remediation_engine/contracts/version_policy.py:156-200 | Swapping the operands negates the comparison, for every pair of items (absent ones included), of any nesting and canonical or not. |
| MavenOrder.ListsAntisymmetric | src/remediation_engine/contracts/version_policy.py:189-200 | The same for lists of any lengths, however the shorter one is padded. |
| MavenOrder.CanonicalNotNull | src/remediation_engine/contracts/version_policy.py:156-170 | A non-empty trimmed list never compares equal to the padding: comparing with nothing cannot hide content. |
| MavenOrder.ListsZero | src/remediation_engine/contracts/version_policy.py:189-200 | On canonical forms the answer is 0 exactly when the forms are identical. |
| MavenOrder.ReleaseTransitive | src/remediation_engine/contracts/version_policy.py:156-200 | Without pre-release qualifiers the comparison is transitive on canonical forms, nested lists and padding included. |
| MavenOrder.ReleaseOrder | src/remediation_engine/contracts/version_policy.py:189-209 | On those forms it is a strict total order: trichotomy, antisymmetry, and a chain that closes with 0 is three times one form. |
| MavenOrder.QualifierChain | src/remediation_engine/contracts/version_policy.py:28-29 | Words that are alpha, beta, milestone, rc, snapshot, the empty word or sp in any case are in this order and equal ones compare equal; every other word is above them and two others are in lower-case string order. |
| MavenOrder.PrefixCancels | src/remediation_engine/contracts/version_policy.py:189-200 | A common front of two lists does not matter, whatever follows. |
| MavenOrder.SuffixRanks | src/remediation_engine/contracts/version_policy.py:156-200 | After any common front: pre-release words rank below nothing, then other words, then lists, then positive numbers, whatever comes behind them. |
| MavenParser.ParseCanonical | src/remediation_engine/contracts/version_policy.py:49-143 | Every accepted text becomes a trimmed spine: a list only in last place and never empty, no null item before the end of a list or before a nested list, all strings lower-case and alias-free. |
| MavenTexts.AcceptsExactly | src/remediation_engine/contracts/version_policy.py:51-62 | A text is a version if and only if, trimmed and in lower case, it is not empty, at most 512 long, of digits, letters, dots, dashes, underscores and pluses, begins and ends with a letter or digit, and has no two dots or dashes in a row. |
| MavenTexts.CaseIgnored | src/remediation_engine/contracts/version_policy.py:51 | Texts that differ only in case are one version, or both none. |
| MavenTexts.BlanksIgnored | src/remediation_engine/contracts/version_policy.py:51 | White space around a text does not matter. |
| MavenTexts.SameWord | src/remediation_engine/contracts/version_policy.py:92-120 | Two words that stand for one item may replace each other anywhere in a version. |
| MavenTexts.Synonyms | src/remediation_engine/contracts/version_policy.py:30-46 | In front of a digit a, b and m may be written alpha, beta and milestone; anywhere cr is rc, and ga, final and release are one. |
| MavenTexts.WordItems | src/remediation_engine/contracts/version_policy.py:41-46 | Every other word, and a, b and m without a digit behind, is an item of its own; a plain release is the empty word. |
| MavenParserLists.ReadCharacter | src/remediation_engine/contracts/version_policy.py:70-111 | One turn of the character loop over the aliased lists does to the heap what one step of the scan does to the spine. |
| MavenParserLists.ScanIntoLists | src/remediation_engine/contracts/version_policy.py:64-120 | The loop and the leftover after it leave a chain of fresh, distinct lists, each ending in the next, holding the scanned segments. |
| MavenParserLists.TrimList | src/remediation_engine/contracts/version_policy.py:122-138 | The in-place deletion from the end of one list, which looks past a non-empty sublist, drops exactly the nulls at the end of the scalars and an empty sublist. |
| MavenParserLists.TrimAll | src/remediation_engine/contracts/version_policy.py:122-138 | Trimming from the innermost list outwards leaves in every list the trimmed scalars, and a sublist exactly where the rest nests to something. |
| MavenParserLists.Freeze | src/remediation_engine/contracts/version_policy.py:140-143 | The recursive copy of the trimmed lists is the nested form of the segments. |
| MavenParserLists.ParseMavenVersion | src/remediation_engine/contracts/version_policy.py:49-143 | The whole in-place parser over shared mutable lists returns the form of the functional scan and fails on exactly the malformed texts. |
| MavenRender.ParseRender | src/remediation_engine/contracts/version_policy.py:49-143 | Round trip: every canonical form (within the length limit and the grammar's first character) is the parse of its rendering, so the parser reaches each of them and a form determines a spelling. |
| MavenRender.ParseRenderable | src/remediation_engine/contracts/version_policy.py:49-143 | Conversely every parse is such a form; with ParseRender this is the exact image of the parser. |
| MavenRender.ParseRenderExactly | src/remediation_engine/contracts/version_policy.py:49-143 | A canonical form is the parse of its rendering if and only if the rendering fits the length limit and starts with a letter or digit. |
| MavenSpellings.AppendZero | src/remediation_engine/contracts/version_policy.py:64-143 | For every valid version, appending .0 gives the same form if and only if the longer text is still a version (no trailing blank, within the length limit) and the version does not end in a qualifier after a dot other than ga, final or release; 1.x and 1.x.0 differ. |
| MavenSpellings.DottedWordDiffers | src/remediation_engine/contracts/version_policy.py:113-120 | 1.x and 1.x.0 are valid and have different forms. |
| MavenSpellings.TrailingZeros | src/remediation_engine/contracts/version_policy.py:64-143 | Any number of .0 after a version that ends in a digit is the same version if and only if the text stays within the length limit. |
| MavenSpellings.DashBeforeWord | src/remediation_engine/contracts/version_policy.py:80-111 | A word straight after digits reads as if a dash stood between (1rc is 1-rc), for every normalized text the grammar accepts, if and only if there is room for the dash. |
| MavenVersions.EqualVersions | src/remediation_engine/contracts/version_policy.py:203-209 | The comparison of valid versions is total and antisymmetric, and 0 exactly when both parse to one form, so equality of versions is an equivalence. |
| MavenVersions.TransitiveWithoutPreRelease | src/remediation_engine/contracts/version_policy.py:203-209 | Transitivity for any three valid versions that use none of alpha, beta, milestone, rc, snapshot. |
| MavenVersions.PreReleaseCycle | src/remediation_engine/contracts/version_policy.py:156-209 | For each single pre-release qualifier q there is a cycle: 1-1 below 1.0.q.1 below 1 below 1-1, as parsed from text. |
| MavenVersions.TransitiveExactly | src/remediation_engine/contracts/version_policy.py:203-209 | The order is transitive over the versions that use a set of qualifiers if and only if the set holds no pre-release qualifier. |
| MavenVersions.StableQualifiers | src/remediation_engine/contracts/version_policy.py:219-227 | The recursive stability test is a bound on the set of qualifiers at every depth. |
| MavenTexts.StableExactly | src/remediation_engine/contracts/version_policy.py:212-227 | A version is stable if and only if it parses, has no word but sp and plain-release words at any depth, and has a number in its outermost list. |
| MavenVersions.StableOrder | src/remediation_engine/contracts/version_policy.py:203-227 | On the versions that the stability test admits the order is a total preorder, strict on canonical forms. |
| MavenNumbers.NumbersDecide | src/remediation_engine/contracts/version_policy.py:64-143 | Two versions with any common front, up to a dot or dash, and a number behind it compare as the numbers. |
| MavenNumbers.DigitsDecide | src/remediation_engine/contracts/version_policy.py:73 | Of two such numbers without leading zeros the longer is later, of equally long ones the one with the larger first differing digit, and leading zeros do not count. |
| Text.NumeralNext | src/remediation_engine/contracts/version_policy.py:73 | A further digit 0 to 9 makes a numeral ten times as large plus the digit's own value. |
| Text.NumeralOrder | src/remediation_engine/contracts/version_policy.py:73 | Numerals of one length are ordered by their first differing digit. |
| Text.NumeralZeros | src/remediation_engine/contracts/version_policy.py:73 | Leading zeros change nothing. |
| Text.NumeralLonger | src/remediation_engine/contracts/version_policy.py:73 | Without a leading zero the longer numeral is the larger. |
| Text.StripMeaning | src/remediation_engine/contracts/version_policy.py:51 | Stripping drops white space from both ends and nothing else. |
| Text.CompareFirst | src/remediation_engine/contracts/version_policy.py:153 | Strings are ordered by the first differing character, a proper prefix first. |
| Text.SpacesExactly | src/remediation_engine/contracts/version_policy.py:51 | White space is tab to carriage return, the four separators and the blank. |
| Text.CaseOfLetters | src/remediation_engine/contracts/version_policy.py:51 | Case mapping pairs the two alphabets letter by letter. |
| MavenSelection.IsAttempted | src/remediation_engine/contracts/version_policy.py:245-255 | The loop with its fallback for malformed texts decides whether some non-blank attempt is the same version. |
| MavenSelection.FilterEligible | src/remediation_engine/contracts/version_policy.py:257-269 | The filter keeps exactly the eligible candidates, in order. |
| MavenSelection.FoldPreferred | src/remediation_engine/contracts/version_policy.py:272-280 | The fold ends at the earliest extremum: nothing beats it and it beats everything before it. |
| MavenSelection.SelectMavenVersion | src/remediation_engine/contracts/version_policy.py:230-280 | The answer is None exactly when no candidate is eligible, and otherwise the version of an eligible candidate that no eligible one is preferred to, the earliest of its spellings. |
| MavenSelection.AttemptBlocks | src/remediation_engine/contracts/version_policy.py:245-255 | An attempt blocks exactly the versions with its canonical form; a malformed attempt blocks no valid version. |
| MavenSelection.EligibleExactly | src/remediation_engine/contracts/version_policy.py:236-268 | A candidate is eligible if and only if the stage is one of the two and its role is listed, it is above the security floor, marked and versioned stable, and not attempted in any spelling. |
| MavenSelection.RunEnumerates | src/remediation_engine/contracts/version_policy.py:230-280 | Selecting again and again with each pick attempted gives a strictly monotone chain of distinct eligible forms, no longer than the number of eligible forms, and the next answer is None exactly when every eligible form has been picked. |
| SupervisorTasks.TerminalExactly | src/remediation_engine/contracts/decision_codes.py:42-78 | The four terminal statuses are exactly those from which the table allows no transition. |
| SupervisorTasks.TransitionsExactly | src/remediation_engine/contracts/decision_codes.py:42-61 | Every live status may turn into every other one, except that only a fixed task passes QA, a fixed one is not pivoted and a retry does not go back to pending. |
| SupervisorTasks.TaskQueue.CommitTaskTransition | src/remediation_engine/orchestration/_supervisor_execution.py:180-287 | The in-place commit against its specification: unknown tasks and rejected statuses leave the queue as it was, a rejection is recorded on request, and an accepted update changes one task to its committed value. |
| SupervisorTasks.CommitLaws | src/remediation_engine/orchestration/_supervisor_execution.py:203-287 | One commit moves the revision by 0 or 1, an unmoved revision means an unchanged worker input, a changed status is in the table or one of the two named exceptions, a terminal status stays, an accepted terminal status leaves no attempt and no version, and without closing or clearing the requested fields land and the revision moves if and only if the input does. |
| SupervisorTasks.CommitLands | src/remediation_engine/orchestration/_supervisor_execution.py:254-285 | An accepted commit gives the task the requested status and each requested field, keeps each other one, and withdraws the attempt and the version only when closing, clearing or ending. |
| SupervisorTasks.RejectedExactly | src/remediation_engine/orchestration/_supervisor_execution.py:207-233 | A commit is refused if and only if its status is unknown, or is a change outside the table that is neither of the two flagged passes in its exact circumstances. |
| SupervisorTasks.RevisionMovesExactly | src/remediation_engine/orchestration/_supervisor_execution.py:266-283 | The revision grows by one if and only if some worker field is asked to change or a withdrawn attempt or version was there, and else stays. |
| SupervisorTasks.RunLaws | src/remediation_engine/orchestration/_supervisor_execution.py:180-287 | Between any two moments of any run of commits on any tasks: same tasks, revisions never fall and rise at most once a commit, equal revisions mean equal worker inputs, terminal statuses are absorbing. |
| SupervisorTasks.PlanIssuesUnstamped | src/remediation_engine/orchestration/_supervisor_execution.py:163-177 | What the revision does not stamp: the plan's issue ids, which a snapshot is compared on, can change under one revision. |
| SupervisorLaws.RevisionStampsExactly | src/remediation_engine/orchestration/_supervisor_execution.py:163-177 | For every update, a commit that leaves the revision leaves every snapshot as good a match as before if and only if it was rejected or leaves the plan's issue ids. |
| SupervisorValidator.Projection.Validate | src/remediation_engine/orchestration/_supervisor_execution.py:290-623 | The four loops over the dictionaries in place leave a state that does not depend on iteration order, and report what the loops report in the orders given. |
| SupervisorLaws.TaskLoopKeeps | src/remediation_engine/orchestration/_supervisor_execution.py:307-425 | The task loop never changes a status; a non-terminal task keeps revision and attempt, and all of itself unless a snapshot with its own identity and revision supports it; a terminal task ends without attempt and version. |
| SupervisorLaws.SupportedIsRepaired | src/remediation_engine/orchestration/_supervisor_execution.py:376-415 | A supported task leaves the loop with all committed fields of its snapshot. |
| SupervisorLaws.TaskReports | src/remediation_engine/orchestration/_supervisor_execution.py:307-425 | Each error and each event of the task loop occurs exactly in its case, about this task, its attempt and the snapshot's. |
| SupervisorLaws.NodeFitsTable | src/remediation_engine/orchestration/_supervisor_execution.py:387-397 | The nodes that fit a task are QA and the worker of its strategy. |
| SupervisorLaws.PlanReports | src/remediation_engine/orchestration/_supervisor_execution.py:427-480 | The one event of a dropped plan names its reason; kept plans and plans without a task are silent. |
| SupervisorLaws.ActiveReports | src/remediation_engine/orchestration/_supervisor_execution.py:482-588 | The target loop reports the first thing wrong with a target, and for one otherwise ready any disagreement on the compared fields and an exhausted path. |
| SupervisorLaws.DiagnosticsReports | src/remediation_engine/orchestration/_supervisor_execution.py:590-622 | A projection is reported exactly when the version differed, an attempted version exactly for updates. |
| SupervisorLaws.TaskLoopTwice | src/remediation_engine/orchestration/_supervisor_execution.py:307-425 | A second look changes nothing and repeats only reports of the first; it repeats an event exactly for identity, revision, digest or dispatch-node conflicts, which no repair cures. |
| SupervisorLaws.ValidatedTwice | src/remediation_engine/orchestration/_supervisor_execution.py:290-623 | The validator is a projection on tasks, plans and diagnostics, whatever targets and node the second pass is given. |
| SupervisorLaws.ValidatedKeeps | src/remediation_engine/orchestration/_supervisor_execution.py:307-425 | A pass keeps the set of tasks and every status, and treats each task by itself. |
| SupervisorLaws.PlanKeptExactly | src/remediation_engine/orchestration/_supervisor_execution.py:427-480 | A retry plan survives a pass, unchanged, if and only if its task is queued and live and, for an update retry, the plan carries the task's version, stage, instruction and an unexhausted path at this revision or the one before. |
| SupervisorLaws.DiagnosticsProjected | src/remediation_engine/orchestration/_supervisor_execution.py:590-615 | Diagnostics of a queued task show its selected version after a pass; nothing else of them changes and none is dropped. |
| SupervisorLaws.NoErrorsExactly | src/remediation_engine/orchestration/_supervisor_execution.py:290-623 | A pass reports no error if and only if every live attempt is supported by its snapshot, every target in the queue is dispatchable after repair, and no selected version was attempted before. |
| SupervisorLaws.CleanDispatch | src/remediation_engine/orchestration/_supervisor_execution.py:482-622 | After a pass without errors every target in the queue is live, agrees with its snapshot on revision, policies, instruction and digest, is not exhausted and has an authorized and untried version when updates follow; a non-empty attempt id also gives ownership, which OwnedExactly makes exact. The dispatch node is the subject of HandedOnlyToExactly and NodeFitsExactly. |
| SupervisorLaws.AuthorizedExactly | src/remediation_engine/orchestration/_supervisor_execution.py:516-533 | A version is authorized if and only if it is not empty and equals some non-blank allowed version once both are trimmed and, except for Maven, any run of v and V is dropped from each front. |
| SupervisorLaws.AttemptedExactly | src/remediation_engine/orchestration/_supervisor_execution.py:598-622 | A version was attempted if and only if it is not empty and equals so, case ignored, some non-empty attempted version. |
| SupervisorLaws.CleanUpdate | src/remediation_engine/orchestration/_supervisor_execution.py:516-549 | After every pass without errors to update_subagent a target on an update snapshot has a version that counts as one with some allowed version, and as none of those attempted. |
| SupervisorLaws.EmptyAttemptEscapes | src/remediation_engine/orchestration/_supervisor_execution.py:333-344 | For every node the targets go to, update_subagent included: with a usable snapshot filed under the empty attempt id, a pass without errors lets a task of another name run on it. |
| SupervisorLaws.OwnedExactly | src/remediation_engine/orchestration/_supervisor_execution.py:290-623 | For each node: every target of every pass without errors owns its snapshot by identity and revision if and only if no snapshot with a policy, its own digest and, for updates, an authorized version is filed under the empty attempt id. |
| SupervisorLaws.OwnedAtAllNodes | src/remediation_engine/orchestration/_supervisor_execution.py:290-623 | The same over all nodes at once, where a policy and the digest decide. |
| SupervisorLaws.RealIdsOwned | src/remediation_engine/orchestration/_supervisor_execution.py:307-425 | With snapshots filed under real attempt ids, every target of a pass without errors owns its snapshot, is dispatchable and carries all committed fields. |
| SupervisorLaws.HandedOnlyToExactly | src/remediation_engine/orchestration/_supervisor_execution.py:516-549 | For any next node and set of nodes: all targets of all passes without errors run on snapshots made for these nodes if and only if every usable snapshot under its own id, or the empty one, is made for one of them; with update_subagent alone, when no target skips the authorization test. |
| SupervisorLaws.NodeFitsExactly | src/remediation_engine/orchestration/_supervisor_execution.py:376-425 | After a pass without errors, a target with an attempt runs on a node that fits its strategy if and only if another look at it reports no event. |
| SupervisorBarrier.GroupChildren | src/remediation_engine/orchestration/_supervisor_execution.py:654-657 | The grouping finds every parent, with the first child in queue order in front. |
| SupervisorBarrier.PivotParents | src/remediation_engine/orchestration/_supervisor_execution.py:653-682 | The repair loop over sorted parents pivots each queued parent that is not yet pivoted, once, whatever the others become. |
| SupervisorBarrier.DedupeKeys | src/remediation_engine/orchestration/supervisor_routing.py:161-169 | Deduplication keeps every key once and invents none. |
| SupervisorBarrier.DedupeExactly | src/remediation_engine/orchestration/supervisor_routing.py:161-169 | Of the events that agree on task, received attempt and code exactly the first is kept. |
| SupervisorBarrier.ReportsExactly | src/remediation_engine/orchestration/_supervisor_execution.py:646-696 | Every event of the repairs and the validator is reported now or was before, under its own task, received attempt and code; nothing else is, and no two reports, earlier ones included, agree on all three. |
| SupervisorBarrier.ErrorsExactly | src/remediation_engine/orchestration/_supervisor_execution.py:697-698 | The errors are those of the validator that were not there before, each once. |
| SupervisorBarrier.PivotedExactly | src/remediation_engine/orchestration/_supervisor_execution.py:653-669 | The repair changes exactly the queued tasks with a child that are not pivoted: one revision more, no attempt, no version, every other field kept. |
| SupervisorBarrier.PivotEventsExactly | src/remediation_engine/orchestration/_supervisor_execution.py:670-682 | There is a repair event for exactly these tasks, with the attempt lost and that of the first child in queue order. |
| SupervisorBarrier.ReconcileBeforeTeardown | src/remediation_engine/orchestration/_supervisor_execution.py:626-710 | The barrier on copies computes the specified state and reports exactly what earlier reports do not contain. |
| SupervisorBarrier.BarrierHolds | src/remediation_engine/orchestration/_supervisor_execution.py:626-710 | Afterwards every queued parent of a task is pivoted, no terminal task has an attempt, a version or a retry plan, and no plan is left without its task. |
| SupervisorBarrier.BarredTwice | src/remediation_engine/orchestration/_supervisor_execution.py:637-691 | The barrier is a projection on the state. |
| SupervisorBarrier.BarrierConverges | src/remediation_engine/orchestration/_supervisor_execution.py:626-710 | Applied again to its own result, with its reports merged into the earlier ones and with any iteration orders, it changes nothing and reports no event and no error. |
| FindingRules.MergeKeepsIdentifiers | demo/backend/findings_tracker.py:90-96 | Choosing a new primary identifier and sorting the rest into aliases loses no identifier and invents none. |
| FindingsTracker.MergedName | demo/backend/findings_tracker.py:90-96 | A merged row is named by the first CVE among the identifiers of both, else by the first GHSA, else as before; its aliases are the others. |
| FindingsTracker.SeverityOrder | demo/backend/findings_tracker.py:16 | CRITICAL, HIGH, MEDIUM, LOW and INFO rank in this order in any case, everything else below. |
| FindingsTracker.MergedMeaning | demo/backend/findings_tracker.py:84-109 | A merged row has the worse severity, its own when they rank alike, the CWEs of both, its own description unless that is empty, keeps package, group and task, and absorbs the same result again. |
| FindingRules.ReconciledExactly | demo/backend/findings_tracker.py:356-403 | The reconciliation remediates exactly the findings of some passed group with no remaining identifier, keeps every row and identifier, and is idempotent. |
| FindingRules.ReconciledIgnoresSplit | demo/backend/findings_tracker.py:374-403 | Which rows were active or remediated before does not matter to the remediated set. |
| FindingRules.ReconciledMonotone | demo/backend/findings_tracker.py:374-403 | More passed groups or fewer remaining identifiers never take a finding out of the remediated set. |
| FindingRules.PassesReconcile | demo/backend/findings_tracker.py:374-403 | The three passes in sequence are that declarative reconciliation, given that every remediated row belongs to a group. |
| FindingRules.AddedAbsorbs | demo/backend/findings_tracker.py:244-290 | A scan result added twice is added once; no row, identifier or status is lost, and a result with identifiers is covered by some row of its occurrence if and only if its id was not taken by a row that shares none. |
| FindingRules.RunGrows | demo/backend/findings_tracker.py:161-403 | Between any two moments of any run of the tracker, whose methods are tied to these steps, no id leaves the union of active and remediated rows, no row loses an identifier or changes occurrence or novelty, and every later row is new. |
| FindingsTracker.FindingsTracker.constructor | demo/backend/findings_tracker.py:22-40 | For any baseline records the rows are those of the last record of each id, active and not new, and the index holds what was entered; the tracker is valid if and only if no identifier was overwritten. |
| FindingsTracker.SharedIdLoses | demo/backend/findings_tracker.py:38-40 | A record of the same id without some identifier of an earlier one overwrites it. |
| FindingsTracker.DistinctIdsLoseNothing | demo/backend/findings_tracker.py:38-40 | With distinct ids nothing is overwritten. |
| FindingsTracker.SearchesExactly | demo/backend/findings_tracker.py:38-82 | Every search of a freshly seeded tracker finds what a search of all rows would if and only if no identifier was overwritten. |
| FindingsTracker.FindingsTracker.MatchingFindingIds | demo/backend/findings_tracker.py:69-82 | The search by the inverted index returns the rows the index leads to, and on a valid tracker exactly what a search of all active and remediated rows would. |
| FindingRules.InGroupExactly | demo/backend/findings_tracker.py:167-196 | A row matches a triage group if and only if it is of the occurrence of one of its issues and shares an identifier with it, or its package is the component, or it carries one of the group's identifiers. |
| FindingsTracker.FindingsTracker.MapTriagedGroups | demo/backend/findings_tracker.py:161-196 | Each group gains exactly the active rows that match one of its issues, its component or its identifiers, in any order of the groups; each row is told the last group that matches it and nothing else of it changes. |
| FindingsTracker.FindingsTracker.AddScanned | demo/backend/findings_tracker.py:248-280 | One scan result is merged, added or ignored as specified for whole rows, severity, description and CWEs included; the invariant is kept, and exactly an added row is new. |
| FindingsTracker.FindingsTracker.AddNewScanFindings | demo/backend/findings_tracker.py:244-290 | The same for a list of results: the rows are the folded ones, the new ids grow by exactly the ids that appeared, none disappears, groups stay. |
| FindingsTracker.FindingsTracker.MarkTaskInProgress | demo/backend/findings_tracker.py:198-214 | Exactly the flagged rows of the group start being remediated, under the task's id. |
| FindingsTracker.FindingsTracker.MarkGroupRemediated | demo/backend/findings_tracker.py:216-242 | Exactly the group's rows without a remaining identifier become remediated; the invariant is kept. |
| FindingsTracker.FindingsTracker.ReconcileGroups | demo/backend/findings_tracker.py:356-403 | The loops over groups and rows in any order give the declarative reconciliation, and the remediated dictionary holds exactly the remediated rows. |
| FindingsTracker.FindingsTracker.ReconcileFinalState | demo/backend/findings_tracker.py:356-423 | The whole reconciliation is that state with the final scan's new results added; the new ids grow by exactly the ids that appeared; groups stay. |
| IssueComponents.HalvingKeepsRoots | src/remediation_engine/orchestration/issue_identity.py:95-99 | Path halving moves no root. |
| IssueComponents.Find | src/remediation_engine/orchestration/issue_identity.py:95-99 | The walk with path halving returns the root, moves none, and points every node at one of its former ancestors. |
| IssueComponents.Union | src/remediation_engine/orchestration/issue_identity.py:101-105 | Joining two linked records merges their trees, splits none, and keeps every record connected to its parent. |
| IssueComponents.RootsAreComponents | src/remediation_engine/orchestration/issue_identity.py:107-116 | Once the tokens are joined, two records share a root if and only if they are connected through records of one occurrence with common identifiers. |
| IssueComponents.CanonicalIssueComponents | src/remediation_engine/orchestration/issue_identity.py:76-121 | The union-find returns the connected components: each record in exactly one, two together if and only if connected, in source order within a component, components in order of their first record. |
| EventLog.ReplayOverlap | demo/frontend/src/App.tsx:116-124 | A log absorbs any suffix of its own history: rows, contents and order stay. |
| EventLog.SnapshotReplay | demo/frontend/src/App.tsx:106-124 | A snapshot taken after k events, followed by the history from any point at or before k, is exactly the final log. |
| EventLog.RunSession.EmitConsole | demo/backend/engine_bridge.py:243-286 | Appends a row, or replaces the row with that id in place under its first timestamp, and queues the same event. |
| QueueReaders.SyncedStep | demo/backend/main.py:234-268 | With one reader every step (emit, other queue items, connect, deliver, lose with the connection) keeps the queue a suffix of the history and the browser one replay of the queue away from the log. |
| QueueReaders.ClientConverges | demo/backend/main.py:234-268 | In every run with one reader, however often it reconnects and whatever is lost in between, a connected browser that has caught up has the backend's rows in the backend's order. |
| QueueReaders.TwoReadersDiverge | demo/backend/main.py:244 | With two or more readers there is a run that drains the queue and leaves a connected reader without the event. |
| QueueReaders.ConvergesExactly | demo/backend/main.py:234-268 | In every run of n readers of the one queue a drained queue means that every connected reader shows the log, if and only if n is at most 1. |
| ParentChains.FindOnChain | demo/backend/engine_bridge.py:440-451 | The cycle-safe walk returns the nearest node of a set on the parent chain, and none exactly when the chain has none. |
| ParentChains.ChainEnds | demo/backend/engine_bridge.py:444-450 | A chain ends without an entry, without a parent or at an empty parent id, and goes on to any other parent. |
| SpanRecorder.Recorder.HandleSpanStart | demo/backend/engine_bridge.py:453-527 | A tool span shows a running row exactly when no active tool lies on its parent chain; sandbox, nested and node spans are recorded without one; running rows and active visible tools stay in one-to-one correspondence, no node open twice, if and only if no active visible tool's run id is recorded over, and then the new state is one a run reaches. |
| SpanRules.NodeNameExactly | demo/backend/engine_bridge.py:162-190 | A span opens a graph node if and only if that node is not open and is the span's own name, the node its name stands for, or, for other names, the node its metadata names. |
| SpanRules.AliasesExactly | demo/backend/engine_bridge.py:168-177 | A name stands for a node when it runs it directly or from the orchestrator; the two triage nodes have names of their own. |
| SpanRules.NamesTell | demo/backend/engine_bridge.py:467-476 | Sandbox spans are told by their name, tools by type or prefix, and a tool is shown without the prefix. |
| SpanRules.ToolRowShows | demo/backend/engine_bridge.py:489-501 | A tool's row shows its name, arguments and task. |
| SpanRecorder.Recorder.CompleteToolSpan | demo/backend/engine_bridge.py:529-571 | Exactly the tool's own running row turns into its outcome, in place and under its timestamp. |
| SpanRecorder.Recorder.HandleSpanEnd | demo/backend/engine_bridge.py:573-609 | A visible tool's row gets its one outcome, nested and sandbox spans vanish silently, nodes and triage steps leave their closing row, an unknown run id changes nothing; the correspondence is kept. |
| SpanRecorder.Recorder.FinishIncompleteToolSpans | demo/backend/engine_bridge.py:611-619 | Every row that was running ends as incomplete with the sweep's text, no other row changes, no visible tool is active and only node and deterministic spans are open; the new state is one a run reaches. |
| SpanRuns.OutcomeFinal | demo/backend/engine_bridge.py:453-619 | Over every run of the handlers every row keeps its place and id, and a row that is not running never changes again. |
| SpanRuns.ExactlyOneOutcome | demo/backend/engine_bridge.py:453-619 | Over every run that ends without an active visible tool, as the final sweep leaves it, every tool's row has a terminal status that it got at exactly one step and kept. |
| SpanRuns.ReachesSane | demo/backend/engine_bridge.py:453-619 | In every state a run of the handlers reaches, running rows and active visible tools correspond one to one, no node is open twice, and a tool's row is running or terminal. |
| SpanRules.ReusedRunIdOrphansRow | demo/backend/engine_bridge.py:502-509 | Recording over an active tool's span leaves its row running with no span to finish it. |
| SpanRules.QuietReuseExactly | demo/backend/engine_bridge.py:467-486 | A sandbox, nested, node or triage span may open under any run id, used or not, if and only if the id is not that of an active visible tool. |
| SpanRules.ToolReuseExactly | demo/backend/engine_bridge.py:487-509 | The same for a visible tool and its new row. |
| MavenScope.BuildReactor | src/remediation_engine/orchestration/_tool_support.py:743-773 | The loop records exactly the module edges, the parents, both kinds of upward edges and the metadata errors of the manifests. |
| MavenScope.Ancestors | src/remediation_engine/orchestration/_tool_support.py:776-784 | The upward worklist ends, on cyclic graphs too, with exactly the reachable nodes. |
| MavenScope.RootsOf | src/remediation_engine/orchestration/_tool_support.py:785-787 | The roots of a target are its reachable nodes with nothing above them, or the target itself when all lie on cycles. |
| MavenScope.Authorize | src/remediation_engine/orchestration/_tool_support.py:796-818 | The downward worklist ends with exactly the POMs reachable by module and parent edges, and fails if and only if one of those is missing or has bad metadata. |
| MavenScope.ResolveScope | src/remediation_engine/orchestration/_tool_support.py:743-829 | Resolution succeeds if and only if there is a scope: one root above every target, whose reachable POMs are all usable and contain targets and owners; it returns that least closed set. |
| MavenScope.TargetsInside | src/remediation_engine/orchestration/_tool_support.py:824-828 | When declared parents list their modules, the root reaches every target, so the last containment test cannot fail on targets. |
| Graphs.ReachLeast | src/remediation_engine/orchestration/_tool_support.py:797-818 | The reachable set is least: it lies in every closed set with the root. |
| DescendantSpans.SortedStable | src/remediation_engine/evals/trajectories.py:741 | The sort by sequence keeps every span and the recorded order of equal sequence numbers. |
| DescendantSpans.ParentsOfLast | src/remediation_engine/evals/trajectories.py:739 | The parent of a repeated id is that of the last recorded span with it. |
| DescendantSpans.Descendants | src/remediation_engine/evals/trajectories.py:729-750 | Returns, in ascending sequence order and with unique ids each span once, the spans whose parent chain meets the root before it comes back to the span, for repeated ids, missing parents and cycles. |
| DescendantSpans.DescendantsExactly | src/remediation_engine/evals/trajectories.py:729-750 | With unique ids these are exactly the spans other than the root from which the root is reachable by parent links. |
| TaskLineage.ExpandTargets | src/remediation_engine/evals/run_evidence.py:971-981 | The loop ends with the least set that holds the targets and every child of a member, equal to the tasks whose parent chain meets a target, in any iteration order and with cycles. |
| BatchSampler.ChooseNext | examples/juice_shop/run_batch.py:120-122 | The product rule that makes every floor division of the loop exact. |
| BatchSampler.MaxCombinations | examples/juice_shop/run_batch.py:119-122 | The running quotient is n choose k. |
| BatchSampler.BatchesAre | examples/juice_shop/run_batch.py:126 | The batches that can be drawn are exactly the sub-multisets of size k of the pool. |
| BatchSampler.BatchCount | examples/juice_shop/run_batch.py:119-123 | There are n choose k of them for distinct packages, and never more. |
| BatchSampler.SampleBatches | examples/juice_shop/run_batch.py:112-131 | For any stream of draws: the two errors in exactly their cases; otherwise distinct batches of the pool, min(num_batches, n choose k) of them when the loop ends, as the value of the run on that stream. |
| BatchSampler.UnseenBatch | examples/juice_shop/run_batch.py:125-129 | While the loop runs on distinct packages an unseen batch is still there to be drawn. |
| BatchSampler.CanFinish | examples/juice_shop/run_batch.py:119-129 | Some draws finish the run if and only if the pool has as many different batches as the target counts; otherwise every stream leaves it running. |
| BatchSampler.StrictlyFewer | examples/juice_shop/run_batch.py:119-126 | With a repeated name there are strictly fewer than n choose k batches, for every k between nothing and the whole pool. |
| BatchSampler.FinishesExactly | examples/juice_shop/run_batch.py:112-131 | Draws that finish the run exist for every number of batches if and only if the names are distinct, or a batch takes nothing or the whole pool. |
| BatchSampler.RepeatedNames | examples/juice_shop/run_batch.py:119-129 | For two equal names and two batches of one, every stream of draws leaves the loop running. |

## Left out

- MavenParser.Parse: models ASCII trimming and lower-casing; a character outside ASCII whose lower-case form is a letter or which Python strips as a blank is not covered.
- MavenSelection.SelectMavenVersion: the `except ValueError` in the fold is not modelled, because eligible versions are valid; `select_version` and PEP 440 versions are not part of this model.
- SupervisorTasks.TaskQueue.CommitTaskTransition: `task_id` and fields that neither the state rules nor a snapshot look at are not updatable; log output is left out.
- SupervisorValidator.Projection.Validate: events carry code, task and attempt ids, not the action and the text; of the texts of errors only their kind and task are kept; the digest is an arbitrary function.
- SupervisorBarrier.ReconcileBeforeTeardown: the constant fields of the returned patch and the state revision are not part of this model; absent and null lists of earlier reports are one empty list.
- FindingsTracker.FindingsTracker.Replace: rows are values in the dictionaries; that `new_findings_by_id` and the dashboard updates share row objects with them is not modelled, only which ids are new.
- FindingsTracker.FindingsTracker.constructor: `normalize_findings` and `finding_occurrence_key` are inputs, a row's occurrence key is fixed; identifier lists are sets, so the sorted order of aliases and CWEs is not modelled; case folding is ASCII.
- FindingsTracker.FindingsTracker.MapTriagedGroups: the identifiers and occurrence of an issue are inputs; dashboard updates, summaries and severity sorting are left out.
- FindingsTracker.FindingsTracker.ReconcileFinalState: the passed groups and the newly detected results are inputs instead of being read from the raw state; `process_node_state_update` is not part of this model.
- IssueComponents.CanonicalIssueComponents: a record's occurrence key and identifier tokens are inputs, and a component lists positions instead of records.
- EventLog.RunSession.EmitConsole: one atomic step, as the lock makes it; new ids are assumed unused and times are parameters; duration and the data payload of an event are left out.
- QueueReaders.ClientConverges: the end of the stream, status and dashboard events and what React renders are not modelled.
- SpanRecorder.Recorder.HandleSpanStart: argument and label formatting are inputs; what follows after an active tool's run id was recorded over is not stated.
- SpanRecorder.Recorder.HandleSpanEnd: whether an output failed, the outcome text and a node's key result are inputs; dashboard updates of a node are left out.
- MavenScope.ResolveScope: POM parsing, path resolution and the checks of targets before the graph is built are inputs (`manifests`, resolved parents and module lines, unparsable POMs); error texts are one failure; the sorted result is a set.
- TaskLineage.ExpandTargets: how the first targets are chosen by package name is an input; `_latest_qa_attempts_by_task` is not part of this model, a single-pass maximum.
- BatchSampler.SampleBatches: the random generator is an arbitrary stream of draws, and a sorted batch is the multiset of its names; that a stream ends with probability one is not stated.
- Files, Docker, SQLite, HTTP, git and model calls, settings, report formatting and the language model's decisions are not part of this model.
