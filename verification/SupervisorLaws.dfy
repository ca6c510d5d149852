/** What the validator guarantees
    (src/remediation_engine/orchestration/_supervisor_execution.py:290-623). */
module SupervisorLaws {
  import opened Wrappers
  import Text
  import opened SupervisorTasks
  import opened SupervisorValidator
  import S = Sweeps

  // ---------------------------------------------------------------- one task

  ghost predicate Supported(id: string, t: Task, snapshots: Snapshots) {
    && t.attempt.Some? && t.attempt.value in snapshots
    && OwnIdentity(id, t, snapshots[t.attempt.value])
    && snapshots[t.attempt.value].revision == t.revision
  }

  /** The task loop never changes a status or a lineage; a non-terminal task keeps its revision and
      attempt, and all of itself unless a snapshot with its own identity and revision supports it;
      a terminal task ends without attempt and version. */
  lemma TaskLoopKeeps(id: string, t: Task, snapshots: Snapshots, digest: string -> string)
    ensures CheckTask(id, t, snapshots, digest).value.Some?
    ensures var after := CheckTask(id, t, snapshots, digest).value.value;
            && after.status == t.status && after.taskId == t.taskId && after.parentTaskId == t.parentTaskId
            && (!IsTerminal(t.status) ==> after.revision == t.revision && after.attempt == t.attempt)
            && (!IsTerminal(t.status) && !Supported(id, t, snapshots) ==> after == t)
            && (IsTerminal(t.status) ==> IsClean(after) && (IsClean(t) ==> after == t))
            && (IsTerminal(t.status) && !IsClean(t) ==>
                  after == t.(attempt := None, input := t.input.(selectedVersion := None), revision := t.revision + 1))
            && after.input.strategy == t.input.strategy && after.input.exhausted == t.input.exhausted
            && after.retryCount == t.retryCount
  {
  }

  // Every committed field but the digest.
  predicate CarriesSnapshot(t: Task, s: Snapshot) {
    && t.input.strategyStage == s.strategyStage && t.input.noFixStage == s.noFixStage && t.input.qaPolicy == s.qaPolicy
    && t.input.selectedVersion == s.selectedVersion && t.input.packageName == s.packageName
    && t.input.dependencyType == s.dependencyType && t.input.parentMinimum == s.parentMinimum
    && t.input.instruction == s.instruction && t.planIssueIds == s.planIssueIds
  }

  /** A supported task leaves the loop with its snapshot's committed fields. */
  lemma SupportedIsRepaired(id: string, t: Task, snapshots: Snapshots, digest: string -> string)
    requires !IsTerminal(t.status) && HasAttempt(t) && Supported(id, t, snapshots)
    ensures CarriesSnapshot(CheckTask(id, t, snapshots, digest).value.value, snapshots[t.attempt.value])
  {
  }

  /** A second look at a task changes nothing, and it reports again only what a repair cannot cure:
      the same event, about the same attempt, as the first look. */
  lemma TaskLoopTwice(id: string, t: Task, snapshots: Snapshots, digest: string -> string)
    ensures var first := CheckTask(id, t, snapshots, digest);
            var second := CheckTask(id, first.value.value, snapshots, digest);
            && second.value == first.value
            && (forall e :: e in second.events ==> e in first.events)
            && (forall e :: e in second.errors ==> e in first.errors)
            && (second.events != [] <==>
                  !IsTerminal(t.status) && HasAttempt(t) && t.attempt.value in snapshots &&
                  (Supported(id, t, snapshots) ==>
                     !(snapshots[t.attempt.value].digest == digest(snapshots[t.attempt.value].instruction)
                       && NodeFits(snapshots[t.attempt.value].dispatchNode, t.input.strategy))))
  {
    TaskLoopKeeps(id, t, snapshots, digest);
    if !IsTerminal(t.status) && HasAttempt(t) && Supported(id, t, snapshots) {
      SupportedIsRepaired(id, t, snapshots, digest);
    }
  }

  // ---------------------------------------------------------------- what the loops report

  // The snapshot a live task refers to, if it is there.
  function Referred(t: Task, snapshots: Snapshots): Option<Snapshot> {
    if !IsTerminal(t.status) && HasAttempt(t) && t.attempt.value in snapshots then Some(snapshots[t.attempt.value]) else None
  }

  /** What the task loop says about one task: each error and each event exactly in its case, about this
      task and its attempt. */
  lemma TaskReports(id: string, t: Task, snapshots: Snapshots, digest: string -> string)
    ensures var o, s := CheckTask(id, t, snapshots, digest), Referred(t, snapshots);
            var foreign := s.Some? && !(s.value.attemptId == t.attempt.value && s.value.taskId == id == t.taskId);
            var stale := s.Some? && !foreign && s.value.revision != t.revision;
            var differs := s.Some? && !foreign && !stale && !(CarriesSnapshot(t, s.value)
                             && s.value.digest == digest(t.input.instruction) && NodeFits(s.value.dispatchNode, t.input.strategy));
            && (forall e :: e in o.errors <==>
                  || (e == MissingSnapshot(id) && !IsTerminal(t.status) && HasAttempt(t) && s.None?)
                  || (e == ForeignIdentity && foreign) || (e == RevisionDiffers && stale))
            && (forall e :: e in o.events <==>
                  || (e == StateEvent(TerminalFieldsNormalized, id, t.attempt, t.attempt) && IsTerminal(t.status) && !IsClean(t))
                  || (foreign && e == StateEvent(IdentityRejected, id, t.attempt, Some(s.value.attemptId)))
                  || (stale && e == StateEvent(RevisionRejected, id, t.attempt, Some(s.value.attemptId)))
                  || (differs && e == StateEvent(SnapshotRepaired, id, t.attempt, Some(s.value.attemptId))))
  {
  }

  /** A node fits a task when it is QA, or the worker of the task's strategy. */
  lemma NodeFitsTable(strategy: Strategy)
    ensures (set node | node in {UpdateSubagent, WorkaroundSubagent, QaCritic, OtherNode} && NodeFits(node, strategy)) ==
              {QaCritic, if strategy.VersionBump? then UpdateSubagent else WorkaroundSubagent}
  {
  }

  /** Why a plan is dropped, and that nothing is reported for a kept one or one without a task. */
  lemma PlanReports(id: string, plan: Plan, queue: Queue)
    ensures var o := CheckPlan(id, plan, queue);
            && o.errors == []
            && (o.events == [] <==> id !in queue || o.value.Some?)
            && (o.events != [] ==>
                  o.events == [StateEvent(
                    if IsTerminal(queue[id].status) then TerminalPlanCleared
                    else if plan.selectedVersion.None? || queue[id].input.exhausted then InvalidPlanCleared
                    else PlanContradiction, id, queue[id].attempt, None)])
  {
  }

  /** What the target loop says: the first thing wrong with a target, in this order, and for a target that
      is otherwise ready any disagreement with its snapshot and an exhausted path. */
  lemma ActiveReports(id: string, queue: Queue, c: Context)
    ensures var o := ActiveCheck(c, queue)(id);
            if id !in queue then o.events == [] && o.errors == [] else
              var t := queue[id];
              if IsTerminal(t.status) then o.errors == [TerminalActive(id)] && o.events == [StateEvent(TerminalTaskActive, id, t.attempt, None)]
              else if t.attempt.None? then o.errors == [NoAttempt(id)] && o.events == [StateEvent(ActiveWithoutAttempt, id, None, None)]
              else if t.attempt.value !in c.snapshots then o.errors == [ActiveMissingSnapshot(id)] && o.events == []
              else
                var s := c.snapshots[t.attempt.value];
                if c.next.UpdateSubagent? && s.dispatchNode.UpdateSubagent? && !Authorized(t, s) then
                  o.errors == [CandidateUnauthorized] && o.events == [StateEvent(UpdateWithoutCandidate, id, t.attempt, t.attempt)]
                else if t.input.qaPolicy.None? || s.qaPolicy.None? then
                  o.errors == [QaPolicyMissing(id)] && o.events == [StateEvent(MissingQaPolicy, id, t.attempt, t.attempt)]
                else
                  && (Disagrees(id) in o.errors <==> !SameCommitted(t, s, c.digest))
                  && (ExhaustedUpdate(id) in o.errors <==> c.next.UpdateSubagent? && t.input.exhausted)
                  && (forall e :: e in o.errors ==> e in {Disagrees(id), ExhaustedUpdate(id)})
                  && o.events == if SameCommitted(t, s, c.digest) then [] else [StateEvent(SnapshotContradiction, id, t.attempt, t.attempt)]
  {
  }

  // The fields the target loop compares.
  predicate SameCommitted(t: Task, s: Snapshot, digest: string -> string) {
    && t.revision == s.revision && t.planIssueIds == s.planIssueIds && s.digest == digest(t.input.instruction)
    && t.input.(strategyStage := s.strategyStage, noFixStage := s.noFixStage, qaPolicy := s.qaPolicy,
                selectedVersion := s.selectedVersion, instruction := s.instruction) == t.input
  }

  /** What the diagnostics loop says. */
  lemma DiagnosticsReports(id: string, d: Diagnostics, queue: Queue, c: Context)
    ensures var o := DiagnosticsCheck(c, queue)(id, d);
            if id !in queue then o.events == [] && o.errors == [] else
              var t := queue[id];
              && o.events == (if d.selectedVersion == t.input.selectedVersion then []
                              else [StateEvent(DiagnosticsRepaired, id, t.attempt, d.committedAttempt)])
              && o.errors == if c.next.UpdateSubagent? && WasAttempted(t, d, MavenMode(t, c.snapshots)) then [AlreadyAttempted(id)] else []
  {
  }

  // ---------------------------------------------------------------- when two versions count as one

  // The same text, once a run of v and V is dropped from each front.
  ghost predicate SameButV(a: string, b: string) {
    exists k, l :: 0 <= k <= |a| && 0 <= l <= |b| && OnlyV(a[..k]) && OnlyV(b[..l]) && a[k..] == b[l..]
  }

  predicate OnlyV(s: string) {
    forall i :: 0 <= i < |s| ==> s[i] == 'v' || s[i] == 'V'
  }

  lemma {:induction false} StripLeadingVMeaning(s: string) returns (k: nat)
    ensures k <= |s| && OnlyV(s[..k]) && StripLeadingV(s) == s[k..]
    ensures k < |s| ==> s[k] != 'v' && s[k] != 'V'
  {
    if s != "" && (s[0] == 'v' || s[0] == 'V') {
      var rest := StripLeadingVMeaning(s[1..]);
      k := rest + 1;
      assert s[..k] == [s[0]] + s[1..][..rest] && s[k..] == s[1..][rest..];
    } else {
      k := 0;
      assert s[0..] == s;
    }
  }

  lemma {:induction false} StripLeadingVDrops(s: string, k: nat)
    requires k <= |s| && OnlyV(s[..k])
    ensures StripLeadingV(s) == StripLeadingV(s[k..])
  {
    if k == 0 {
      assert s[0..] == s;
    } else {
      assert s[0] == s[..k][0];
      assert s[..k] == [s[0]] + s[1..][..k - 1];
      StripLeadingVDrops(s[1..], k - 1);
      assert s[1..][k - 1..] == s[k..];
    }
  }

  lemma SameButVExactly(a: string, b: string)
    ensures StripLeadingV(a) == StripLeadingV(b) <==> SameButV(a, b)
  {
    var k := StripLeadingVMeaning(a);
    var l := StripLeadingVMeaning(b);
    if StripLeadingV(a) == StripLeadingV(b) { assert a[k..] == b[l..]; }
    if m, n :| 0 <= m <= |a| && 0 <= n <= |b| && OnlyV(a[..m]) && OnlyV(b[..n]) && a[m..] == b[n..] {
      StripLeadingVDrops(a, m);
      StripLeadingVDrops(b, n);
    }
  }

  // Two versions count as one: equal trimmed texts, for other than Maven whatever v's they begin with.
  ghost predicate SameNormal(v: string, w: string, maven: bool) {
    if maven then Text.Strip(v) == Text.Strip(w) else SameButV(Text.Strip(v), Text.Strip(w))
  }

  lemma NormalExactly(v: string, w: string, maven: bool)
    ensures NormalVersion(v, maven) == NormalVersion(w, maven) <==> SameNormal(v, w, maven)
  {
    SameButVExactly(Text.Strip(v), Text.Strip(w));
  }

  /** A version is authorized exactly when it is not empty and counts as one with some non-blank allowed
      version. */
  lemma AuthorizedExactly(t: Task, s: Snapshot)
    ensures Authorized(t, s) <==>
              && t.input.selectedVersion.Some? && t.input.selectedVersion.value != ""
              && exists v :: v in s.allowedVersions && Text.Strip(v) != "" && SameNormal(v, t.input.selectedVersion.value, s.maven)
  {
    if t.input.selectedVersion.Some? {
      forall v ensures NormalVersion(v, s.maven) == NormalVersion(t.input.selectedVersion.value, s.maven) <==>
                         SameNormal(v, t.input.selectedVersion.value, s.maven) {
        NormalExactly(v, t.input.selectedVersion.value, s.maven);
      }
    }
  }

  // The same for texts with the case ignored.
  ghost predicate SameIgnoringCase(v: string, w: string, maven: bool) {
    if maven then Text.Lower(Text.Strip(v)) == Text.Lower(Text.Strip(w))
    else SameButV(Text.Lower(Text.Strip(v)), Text.Lower(Text.Strip(w)))
  }

  lemma {:induction false} LowerStripsV(s: string)
    ensures Text.Lower(StripLeadingV(s)) == StripLeadingV(Text.Lower(s))
  {
    if s != "" {
      var c := Text.LowerChar(s[0]);
      assert Text.Lower(s)[0] == c && Text.Lower(s)[1..] == Text.Lower(s[1..]);
      assert c in "vV" <==> s[0] in "vV";
      LowerStripsV(s[1..]);
    }
  }

  lemma IgnoringCaseExactly(v: string, w: string, maven: bool)
    ensures LowerVersion(v, maven) == LowerVersion(w, maven) <==> SameIgnoringCase(v, w, maven)
  {
    LowerStripsV(Text.Strip(v));
    LowerStripsV(Text.Strip(w));
    SameButVExactly(Text.Lower(Text.Strip(v)), Text.Lower(Text.Strip(w)));
  }

  /** A version was attempted exactly when it is not empty and counts, case ignored, as one with some
      non-empty attempted version. */
  lemma AttemptedExactly(t: Task, d: Diagnostics, maven: bool)
    ensures WasAttempted(t, d, maven) <==>
              && t.input.selectedVersion.Some? && t.input.selectedVersion.value != ""
              && exists v :: v in d.attemptedVersions && v != "" && SameIgnoringCase(t.input.selectedVersion.value, v, maven)
  {
    if t.input.selectedVersion.Some? {
      forall v ensures LowerVersion(t.input.selectedVersion.value, maven) == LowerVersion(v, maven) <==>
                         SameIgnoringCase(t.input.selectedVersion.value, v, maven) {
        IgnoringCaseExactly(t.input.selectedVersion.value, v, maven);
      }
    }
  }

  // ---------------------------------------------------------------- the whole pass

  lemma SweptTwice<V, E, R>(m: map<string, V>, check: (string, V) -> S.Outcome<V, E, R>)
    requires forall id :: id in m && check(id, m[id]).value.Some? ==>
               check(id, check(id, m[id]).value.value).value == check(id, m[id]).value
    ensures var once := S.Swept(m, m.Keys, check); S.Swept(once, once.Keys, check) == once
  {
  }

  lemma CheckedTasksTwice(c: Context, queue: Queue)
    ensures CheckedTasks(c, CheckedTasks(c, queue)) == CheckedTasks(c, queue)
  {
    forall id | id in queue
      ensures TaskCheck(c)(id, TaskCheck(c)(id, queue[id]).value.value).value == TaskCheck(c)(id, queue[id]).value
      ensures TaskCheck(c)(id, queue[id]).value.Some?
    {
      TaskLoopKeeps(id, queue[id], c.snapshots, c.digest);
      TaskLoopTwice(id, queue[id], c.snapshots, c.digest);
    }
    SweptTwice(queue, TaskCheck(c));
  }

  lemma PlansTwice(plans: map<string, Plan>, queue: Queue)
    ensures var once := S.Swept(plans, plans.Keys, PlanCheck(queue)); S.Swept(once, once.Keys, PlanCheck(queue)) == once
  {
    forall id | id in plans && PlanCheck(queue)(id, plans[id]).value.Some?
      ensures PlanCheck(queue)(id, plans[id]).value == Some(plans[id])
    {
    }
    SweptTwice(plans, PlanCheck(queue));
  }

  /** The validator is a projection: a second pass, whatever targets and node it is given, leaves
      tasks, plans and diagnostics as the first did. */
  lemma ValidatedTwice(c: Context, again: Context, st: State)
    requires again.snapshots == c.snapshots && again.digest == c.digest
    ensures Validated(again, Validated(c, st)) == Validated(c, st)
  {
    var once := Validated(c, st);
    assert forall id, t :: TaskCheck(again)(id, t) == TaskCheck(c)(id, t);
    assert CheckedTasks(again, once.tasks) == CheckedTasks(c, once.tasks);
    CheckedTasksTwice(c, st.tasks);
    PlansTwice(st.plans, once.tasks);
    DiagnosticsTwice(c, again, st.diagnostics, once.tasks);
  }

  lemma DiagnosticsTwice(c: Context, again: Context, ds: map<string, Diagnostics>, queue: Queue)
    ensures var once := S.Swept(ds, ds.Keys, DiagnosticsCheck(c, queue));
            S.Swept(once, once.Keys, DiagnosticsCheck(again, queue)) == once
  {
    var once := S.Swept(ds, ds.Keys, DiagnosticsCheck(c, queue));
    forall id | id in ds
      ensures id in once && DiagnosticsCheck(again, queue)(id, once[id]).value == Some(once[id])
    {
    }
  }

  /** No status changes; the queue keeps its tasks. */
  lemma ValidatedKeeps(c: Context, st: State, id: string)
    requires id in st.tasks
    ensures Validated(c, st).tasks.Keys == st.tasks.Keys
    ensures Validated(c, st).tasks[id] == CheckTask(id, st.tasks[id], c.snapshots, c.digest).value.value
    ensures Validated(c, st).tasks[id].status == st.tasks[id].status
  {
    forall other | other in st.tasks ensures TaskCheck(c)(other, st.tasks[other]).value.Some? {
      TaskLoopKeeps(other, st.tasks[other], c.snapshots, c.digest);
    }
    TaskLoopKeeps(id, st.tasks[id], c.snapshots, c.digest);
  }

  // A retry that could be dispatched as it was planned, at this revision or the one before.
  ghost predicate Current(plan: Plan, t: Task) {
    && t.revision - 1 <= plan.sourceRevision <= t.revision
    && plan.selectedVersion.Some? && plan.selectedVersion == t.input.selectedVersion
    && plan.strategyStage == t.input.strategyStage && plan.instruction == t.input.instruction
    && !plan.exhausted && !t.input.exhausted
  }

  /** A plan survives a pass, unchanged, exactly when its task is queued and live after the task loop
      and an update retry is current for it. */
  lemma PlanKeptExactly(c: Context, st: State, id: string)
    ensures var after := Validated(c, st);
            && (id in after.plans <==>
                  && id in st.plans && id in after.tasks && !IsTerminal(after.tasks[id].status)
                  && (st.plans[id].action.RetryUpdate? ==> Current(st.plans[id], after.tasks[id])))
            && (id in after.plans ==> after.plans[id] == st.plans[id])
  {
    var tasks := CheckedTasks(c, st.tasks);
    if id in st.plans {
      PlanPasses(id, st.plans[id], tasks);
      assert PlanCheck(tasks)(id, st.plans[id]) == CheckPlan(id, st.plans[id], tasks);
    }
  }

  lemma PlanPasses(id: string, plan: Plan, queue: Queue)
    ensures CheckPlan(id, plan, queue).value ==
              if id in queue && !IsTerminal(queue[id].status) && (plan.action.RetryUpdate? ==> Current(plan, queue[id]))
              then Some(plan) else None
  {
  }

  /** The diagnostics of a queued task show its selected version after a pass, and nothing else of
      them changes. */
  lemma DiagnosticsProjected(c: Context, st: State, id: string)
    ensures var after := Validated(c, st);
            && after.diagnostics.Keys == st.diagnostics.Keys
            && (id in st.diagnostics && id in after.tasks ==>
                  after.diagnostics[id].selectedVersion == after.tasks[id].input.selectedVersion)
            && (id in st.diagnostics ==>
                  after.diagnostics[id] == st.diagnostics[id].(selectedVersion := after.diagnostics[id].selectedVersion))
  {
    var tasks := CheckedTasks(c, st.tasks);
    forall other | other in st.diagnostics
      ensures DiagnosticsCheck(c, tasks)(other, st.diagnostics[other]).value.Some?
    {
    }
  }

  // ---------------------------------------------------------------- when a dispatch is clean

  // The task loop finds nothing wrong.
  ghost predicate Sound(id: string, t: Task, snapshots: Snapshots) {
    !IsTerminal(t.status) && HasAttempt(t) ==> Supported(id, t, snapshots)
  }

  // The target loop finds nothing wrong.
  ghost predicate Dispatchable(t: Task, c: Context) {
    && !IsTerminal(t.status)
    && t.attempt.Some? && t.attempt.value in c.snapshots
    && var s := c.snapshots[t.attempt.value];
       && Agrees(t, s, c.digest)
       && t.input.qaPolicy.Some? && s.qaPolicy.Some?
       && (c.next.UpdateSubagent? ==> !t.input.exhausted)
       && (c.next.UpdateSubagent? && s.dispatchNode.UpdateSubagent? ==> Authorized(t, s))
  }

  lemma TaskErrors(id: string, t: Task, c: Context)
    ensures TaskCheck(c)(id, t).errors == [] <==> Sound(id, t, c.snapshots)
  {
  }

  lemma ActiveErrors(id: string, queue: Queue, c: Context)
    ensures ActiveCheck(c, queue)(id).errors == [] <==> (id in queue ==> Dispatchable(queue[id], c))
  {
  }

  lemma {:induction false} NoErrors<V, E, R>(order: seq<string>, m: map<string, V>, check: (string, V) -> S.Outcome<V, E, R>)
    ensures S.Errors(order, m, check) == [] <==> forall id :: id in order && id in m ==> check(id, m[id]).errors == []
  {
    if order != [] {
      NoErrors(order[..|order| - 1], m, check);
      assert order == order[..|order| - 1] + [order[|order| - 1]];
    }
  }

  lemma {:induction false} NoListErrors<E, R>(ids: seq<string>, check: string -> S.Outcome<(), E, R>)
    ensures S.ListErrors(ids, check) == [] <==> forall id :: id in ids ==> check(id).errors == []
  {
    if ids != [] {
      NoListErrors(ids[..|ids| - 1], check);
      assert ids == ids[..|ids| - 1] + [ids[|ids| - 1]];
    }
  }

  ghost predicate Untried(id: string, d: Diagnostics, queue: Queue, c: Context) {
    id in queue && c.next.UpdateSubagent? ==> !WasAttempted(queue[id], d, MavenMode(queue[id], c.snapshots))
  }

  lemma NoTaskErrors(c: Context, queue: Queue, order: seq<string>)
    requires S.Lists(order, queue)
    ensures S.Errors(order, queue, TaskCheck(c)) == [] <==> forall id :: id in queue ==> Sound(id, queue[id], c.snapshots)
  {
    NoErrors(order, queue, TaskCheck(c));
    forall id | id in queue ensures TaskCheck(c)(id, queue[id]).errors == [] <==> Sound(id, queue[id], c.snapshots) {
      TaskErrors(id, queue[id], c);
    }
  }

  lemma NoActiveErrors(c: Context, queue: Queue)
    ensures S.ListErrors(c.active, ActiveCheck(c, queue)) == [] <==>
              forall id :: id in c.active && id in queue ==> Dispatchable(queue[id], c)
  {
    NoListErrors(c.active, ActiveCheck(c, queue));
    forall id | id in c.active
      ensures ActiveCheck(c, queue)(id).errors == [] <==> (id in queue ==> Dispatchable(queue[id], c))
    {
      ActiveErrors(id, queue, c);
    }
  }

  lemma NoDiagnosticsErrors(c: Context, queue: Queue, ds: map<string, Diagnostics>, order: seq<string>)
    requires S.Lists(order, ds)
    ensures S.Errors(order, ds, DiagnosticsCheck(c, queue)) == [] <==> forall id :: id in ds ==> Untried(id, ds[id], queue, c)
  {
    NoErrors(order, ds, DiagnosticsCheck(c, queue));
    forall id | id in ds
      ensures DiagnosticsCheck(c, queue)(id, ds[id]).errors == [] <==> Untried(id, ds[id], queue, c)
    {
    }
  }

  lemma NoPlanErrors(queue: Queue, plans: map<string, Plan>, order: seq<string>)
    ensures S.Errors(order, plans, PlanCheck(queue)) == []
  {
    NoErrors(order, plans, PlanCheck(queue));
  }

  /** A pass reports no error exactly when every task with a live attempt is supported by its
      snapshot, every target in the queue is dispatchable after repair, and no selected version has
      been attempted before. */
  lemma NoErrorsExactly(c: Context, st: State, o: Orders)
    requires Enumerates(o, st)
    ensures var tasks := Validated(c, st).tasks;
            AllErrors(c, st, o) == [] <==>
              && (forall id :: id in st.tasks ==> Sound(id, st.tasks[id], c.snapshots))
              && (forall id :: id in c.active && id in tasks ==> Dispatchable(tasks[id], c))
              && (forall id :: id in st.diagnostics ==> Untried(id, st.diagnostics[id], tasks, c))
  {
    var tasks := CheckedTasks(c, st.tasks);
    NoTaskErrors(c, st.tasks, o.tasks);
    NoPlanErrors(tasks, st.plans, o.plans);
    NoActiveErrors(c, tasks);
    NoDiagnosticsErrors(c, tasks, st.diagnostics, o.diagnostics);
  }

  /** After a pass without errors every target in the queue is live, agrees with its snapshot on
      revision, policy, instruction and digest, and has an authorized, untried version for an update;
      if its attempt id is not empty it owns that snapshot and carries all its committed fields. */
  lemma CleanDispatch(c: Context, st: State, o: Orders, id: string)
    requires Enumerates(o, st) && AllErrors(c, st, o) == []
    requires id in c.active && id in st.tasks
    ensures id in Validated(c, st).tasks
    ensures var t := Validated(c, st).tasks[id];
            && Dispatchable(t, c)
            && (HasAttempt(t) ==> Supported(id, t, c.snapshots) && CarriesSnapshot(t, c.snapshots[t.attempt.value]))
            && (c.next.UpdateSubagent? && id in st.diagnostics ==>
                  !WasAttempted(t, st.diagnostics[id], MavenMode(t, c.snapshots)))
  {
    NoErrorsExactly(c, st, o);
    ValidatedKeeps(c, st, id);
    var before := st.tasks[id];
    TaskLoopKeeps(id, before, c.snapshots, c.digest);
    if HasAttempt(before) {
      SupportedIsRepaired(id, before, c.snapshots, c.digest);
    }
    assert id in st.diagnostics ==> Untried(id, st.diagnostics[id], Validated(c, st).tasks, c);
  }

  /** After every pass without errors to update_subagent, a target on an update snapshot has a version that
      counts as one with some allowed version, and as none of those attempted. */
  lemma CleanUpdate(c: Context, st: State, o: Orders, id: string)
    requires Enumerates(o, st) && AllErrors(c, st, o) == [] && id in c.active && id in st.tasks && c.next.UpdateSubagent?
    ensures id in Validated(c, st).tasks && Validated(c, st).tasks[id].attempt.Some?
    ensures var t := Validated(c, st).tasks[id];
            && t.attempt.value in c.snapshots
            && (c.snapshots[t.attempt.value].dispatchNode.UpdateSubagent? ==>
                  && t.input.selectedVersion.Some?
                  && exists v :: v in c.snapshots[t.attempt.value].allowedVersions && Text.Strip(v) != ""
                       && SameNormal(v, t.input.selectedVersion.value, c.snapshots[t.attempt.value].maven))
            && (id in st.diagnostics && t.input.selectedVersion.Some? && t.input.selectedVersion.value != "" ==>
                  forall v :: v in st.diagnostics[id].attemptedVersions && v != "" ==>
                    !SameIgnoringCase(t.input.selectedVersion.value, v, c.snapshots[t.attempt.value].maven))
  {
    CleanDispatch(c, st, o, id);
    var t := Validated(c, st).tasks[id];
    AuthorizedExactly(t, c.snapshots[t.attempt.value]);
    if id in st.diagnostics { AttemptedExactly(t, st.diagnostics[id], MavenMode(t, c.snapshots)); }
  }

  // ---------------------------------------------------------------- who owns the snapshot

  ghost predicate CleanPass(c: Context, st: State, o: Orders, id: string) {
    Enumerates(o, st) && AllErrors(c, st, o) == [] && id in c.active && id in st.tasks
  }

  // After every pass without errors that hands targets to a node, each target in the queue owns its snapshot.
  ghost predicate OwnedAtNode(snapshots: Snapshots, digest: string -> string, next: Node) {
    forall c: Context, st: State, o: Orders, id: string | CleanPass(c, st, o, id) ::
      c.snapshots == snapshots && c.digest == digest && c.next == next ==> Owned(c, st, id)
  }

  // The target, as the pass leaves it, has a snapshot with its own identity and revision.
  ghost predicate Owned(c: Context, st: State, id: string) {
    id in Validated(c, st).tasks && Supported(id, Validated(c, st).tasks[id], c.snapshots)
  }

  // A snapshot some task can agree with and be dispatched on.
  ghost predicate Usable(s: Snapshot, digest: string -> string, next: Node) {
    && s.qaPolicy.Some? && s.digest == digest(s.instruction)
    && (next.UpdateSubagent? && s.dispatchNode.UpdateSubagent? ==>
          && s.selectedVersion.Some? && s.selectedVersion.value != ""
          && NormalVersion(s.selectedVersion.value, s.maven) in AllowedVersions(s))
  }

  // A task of another name with an empty attempt id and the fields of a snapshot.
  function Stranger(s: Snapshot): Task {
    Task(s.taskId + "x", s.revision, Some(""), None, Pending,
         Input(s.strategyStage, s.selectedVersion, false, s.instruction, VersionBump, s.noFixStage, s.qaPolicy,
               s.packageName, s.dependencyType, s.parentMinimum),
         s.planIssueIds, 0)
  }

  /** An empty attempt id skips the identity check of the task loop and passes the target loop: with a
      usable snapshot filed under it, a pass without errors lets a task run on a foreign snapshot. */
  lemma EmptyAttemptEscapes(snapshots: Snapshots, digest: string -> string, next: Node)
    requires "" in snapshots && Usable(snapshots[""], digest, next)
    ensures var t := Stranger(snapshots[""]);
            var c, st := Context(snapshots, [t.taskId], next, digest), State(map[t.taskId := t], map[], map[]);
            && Enumerates(Orders([t.taskId], [], []), st) && AllErrors(c, st, Orders([t.taskId], [], [])) == []
            && Validated(c, st).tasks[t.taskId] == t && !Supported(t.taskId, t, snapshots)
  {
    var t := Stranger(snapshots[""]);
    var c, st, o := Context(snapshots, [t.taskId], next, digest), State(map[t.taskId := t], map[], map[]), Orders([t.taskId], [], []);
    assert |t.taskId| == |snapshots[""].taskId| + 1;
    ValidatedKeeps(c, st, t.taskId);
    StrangerPasses(snapshots, digest, next);
    NoErrorsExactly(c, st, o);
  }

  lemma StrangerPasses(snapshots: Snapshots, digest: string -> string, next: Node)
    requires "" in snapshots && Usable(snapshots[""], digest, next)
    ensures var t := Stranger(snapshots[""]);
            && Dispatchable(t, Context(snapshots, [t.taskId], next, digest))
            && CheckTask(t.taskId, t, snapshots, digest).value.value == t
  {
  }

  /** After a pass without errors targets own their snapshots, whatever the state, if and only if no
      usable snapshot is filed under the empty attempt id. */
  lemma OwnedExactly(snapshots: Snapshots, digest: string -> string, next: Node)
    ensures OwnedAtNode(snapshots, digest, next) <==> !("" in snapshots && Usable(snapshots[""], digest, next))
  {
    if "" in snapshots && Usable(snapshots[""], digest, next) {
      NotOwned(snapshots, digest, next);
    } else {
      forall c: Context, st: State, o: Orders, id: string
        | CleanPass(c, st, o, id) && c.snapshots == snapshots && c.digest == digest && c.next == next
        ensures Owned(c, st, id)
      {
        CleanOwner(c, st, o, id);
      }
    }
  }

  lemma NotOwned(snapshots: Snapshots, digest: string -> string, next: Node)
    requires "" in snapshots && Usable(snapshots[""], digest, next)
    ensures !OwnedAtNode(snapshots, digest, next)
  {
    EmptyAttemptEscapes(snapshots, digest, next);
    var t := Stranger(snapshots[""]);
    var c, st, o := Context(snapshots, [t.taskId], next, digest), State(map[t.taskId := t], map[], map[]), Orders([t.taskId], [], []);
    assert CleanPass(c, st, o, t.taskId) && !Owned(c, st, t.taskId);
  }

  lemma CleanOwner(c: Context, st: State, o: Orders, id: string)
    requires CleanPass(c, st, o, id)
    requires !("" in c.snapshots && Usable(c.snapshots[""], c.digest, c.next))
    ensures Owned(c, st, id)
  {
    CleanDispatch(c, st, o, id);
    var t := Validated(c, st).tasks[id];
    assert !HasAttempt(t) ==> t.attempt == Some("");
  }

  /** So with snapshots filed under real, non-empty attempt ids every target of a clean pass owns its
      snapshot and carries all its committed fields. */
  lemma RealIdsOwned(c: Context, st: State, o: Orders, id: string)
    requires CleanPass(c, st, o, id) && "" !in c.snapshots
    ensures Owned(c, st, id)
    ensures var t := Validated(c, st).tasks[id];
            Dispatchable(t, c) && CarriesSnapshot(t, c.snapshots[t.attempt.value])
  {
    CleanOwner(c, st, o, id);
    CleanDispatch(c, st, o, id);
    assert HasAttempt(Validated(c, st).tasks[id]);
  }

  // The same for every node at once.
  lemma OwnedAtAllNodes(snapshots: Snapshots, digest: string -> string)
    ensures (forall next :: OwnedAtNode(snapshots, digest, next)) <==>
              !("" in snapshots && snapshots[""].qaPolicy.Some? && snapshots[""].digest == digest(snapshots[""].instruction))
  {
    forall next ensures OwnedAtNode(snapshots, digest, next) <==> !("" in snapshots && Usable(snapshots[""], digest, next)) {
      OwnedExactly(snapshots, digest, next);
    }
    if "" in snapshots && snapshots[""].qaPolicy.Some? && snapshots[""].digest == digest(snapshots[""].instruction) {
      assert Usable(snapshots[""], digest, QaCritic);
      assert !OwnedAtNode(snapshots, digest, QaCritic);
    }
  }

  // ---------------------------------------------------------------- which node a target runs on

  // The snapshot the pass hands the target over with.
  ghost function Handed(c: Context, st: State, id: string): Option<Snapshot> {
    var tasks := Validated(c, st).tasks;
    if id in tasks && tasks[id].attempt.Some? && tasks[id].attempt.value in c.snapshots
    then Some(c.snapshots[tasks[id].attempt.value]) else None
  }

  // Every target of every pass without errors runs on a snapshot made for one of some nodes.
  ghost predicate HandedOnlyTo(snapshots: Snapshots, digest: string -> string, next: Node, nodes: set<Node>) {
    forall c: Context, st: State, o: Orders, id: string | CleanPass(c, st, o, id) ::
      c.snapshots == snapshots && c.digest == digest && c.next == next ==>
        Handed(c, st, id).Some? && Handed(c, st, id).value.dispatchNode in nodes
  }

  // A snapshot under a key that some pass without errors can hand over.
  ghost predicate CanBeHanded(snapshots: Snapshots, key: string, digest: string -> string, next: Node) {
    && key in snapshots && Usable(snapshots[key], digest, next)
    && (key == "" || snapshots[key].attemptId == key)
  }

  // A live task with a snapshot's own name and fields.
  function Owner(key: string, s: Snapshot, strategy: Strategy): Task {
    Task(s.taskId, s.revision, Some(key), None, Pending,
         Input(s.strategyStage, s.selectedVersion, false, s.instruction, strategy, s.noFixStage, s.qaPolicy,
               s.packageName, s.dependencyType, s.parentMinimum),
         s.planIssueIds, 0)
  }

  lemma OwnerPasses(snapshots: Snapshots, key: string, strategy: Strategy, digest: string -> string, next: Node)
    requires CanBeHanded(snapshots, key, digest, next)
    ensures var t := Owner(key, snapshots[key], strategy);
            && Dispatchable(t, Context(snapshots, [t.taskId], next, digest)) && Sound(t.taskId, t, snapshots)
            && CheckTask(t.taskId, t, snapshots, digest).value.value == t
  {
  }

  lemma OwnerClean(snapshots: Snapshots, key: string, strategy: Strategy, digest: string -> string, next: Node)
    requires CanBeHanded(snapshots, key, digest, next)
    ensures var t := Owner(key, snapshots[key], strategy);
            var c, st := Context(snapshots, [t.taskId], next, digest), State(map[t.taskId := t], map[], map[]);
            && CleanPass(c, st, Orders([t.taskId], [], []), t.taskId) && Validated(c, st).tasks[t.taskId] == t
            && Handed(c, st, t.taskId) == Some(snapshots[key])
  {
    var t := Owner(key, snapshots[key], strategy);
    var c, st, o := Context(snapshots, [t.taskId], next, digest), State(map[t.taskId := t], map[], map[]), Orders([t.taskId], [], []);
    ValidatedKeeps(c, st, t.taskId);
    OwnerPasses(snapshots, key, strategy, digest, next);
    NoErrorsExactly(c, st, o);
  }

  // What a pass without errors hands over could be handed over.
  lemma HandedCanBe(c: Context, st: State, o: Orders, id: string)
    requires CleanPass(c, st, o, id)
    ensures Handed(c, st, id).Some? && CanBeHanded(c.snapshots, Validated(c, st).tasks[id].attempt.value, c.digest, c.next)
  {
    CleanDispatch(c, st, o, id);
  }

  lemma HandedHere(snapshots: Snapshots, key: string, digest: string -> string, next: Node, nodes: set<Node>)
    requires HandedOnlyTo(snapshots, digest, next, nodes) && CanBeHanded(snapshots, key, digest, next)
    ensures snapshots[key].dispatchNode in nodes
  {
    OwnerClean(snapshots, key, VersionBump, digest, next);
    var t := Owner(key, snapshots[key], VersionBump);
    var c, st, o := Context(snapshots, [t.taskId], next, digest), State(map[t.taskId := t], map[], map[]), Orders([t.taskId], [], []);
    assert CleanPass(c, st, o, t.taskId);
  }

  lemma HandedNowhereElse(snapshots: Snapshots, digest: string -> string, next: Node, nodes: set<Node>)
    requires forall key :: CanBeHanded(snapshots, key, digest, next) ==> snapshots[key].dispatchNode in nodes
    ensures HandedOnlyTo(snapshots, digest, next, nodes)
  {
    forall c: Context, st: State, o: Orders, id: string
      | CleanPass(c, st, o, id) && c.snapshots == snapshots && c.digest == digest && c.next == next
      ensures Handed(c, st, id).Some? && Handed(c, st, id).value.dispatchNode in nodes
    {
      HandedCanBe(c, st, o, id);
    }
  }

  /** Targets of passes without errors run only on snapshots made for some nodes if and only if no usable
      snapshot under its own id, or under the empty one, is made for another node. For updates alone this
      says when no target skips the authorization test. */
  lemma HandedOnlyToExactly(snapshots: Snapshots, digest: string -> string, next: Node, nodes: set<Node>)
    ensures HandedOnlyTo(snapshots, digest, next, nodes) <==>
              forall key :: CanBeHanded(snapshots, key, digest, next) ==> snapshots[key].dispatchNode in nodes
  {
    if HandedOnlyTo(snapshots, digest, next, nodes) {
      forall key | CanBeHanded(snapshots, key, digest, next) ensures snapshots[key].dispatchNode in nodes {
        HandedHere(snapshots, key, digest, next, nodes);
      }
    }
    if forall key :: CanBeHanded(snapshots, key, digest, next) ==> snapshots[key].dispatchNode in nodes {
      HandedNowhereElse(snapshots, digest, next, nodes);
    }
  }

  /** A pass without errors hands a target over on a node that does not fit its strategy exactly when a
      look at the target, as the pass left it, still reports an event; the event is what a caller can
      check. */
  lemma NodeFitsExactly(c: Context, st: State, o: Orders, id: string)
    requires CleanPass(c, st, o, id)
    ensures Handed(c, st, id).Some?
    ensures var t := Validated(c, st).tasks[id];
            HasAttempt(t) ==> (NodeFits(Handed(c, st, id).value.dispatchNode, t.input.strategy) <==>
                                 CheckTask(id, t, c.snapshots, c.digest).events == [])
  {
    CleanDispatch(c, st, o, id);
  }

  // ---------------------------------------------------------------- what a revision stamps

  /** An accepted or rejected commit that leaves the revision leaves every snapshot as good a match as
      before if and only if it leaves the plan's issue ids, the one compared field it does not stamp. */
  lemma RevisionStampsExactly(task: Task, u: Updates, flags: Flags, digest: string -> string)
    requires Committed(task, u, flags).revision == task.revision
    ensures (forall s :: SnapshotMatches(Committed(task, u, flags), s, digest) <==> SnapshotMatches(task, s, digest)) <==>
              Rejected(task, u, flags) || Put(u.planIssueIds, task.planIssueIds) == task.planIssueIds
  {
    var after := Committed(task, u, flags);
    CommitLaws(task, u, flags);
    assert after.input == task.input;
    var i := task.input;
    var own := Snapshot("", "", task.revision, i.strategyStage, i.noFixStage, i.qaPolicy, i.selectedVersion, [], i.packageName,
                        i.dependencyType, i.parentMinimum, task.planIssueIds, i.instruction, digest(i.instruction), QaCritic, false);
    assert SnapshotMatches(task, own, digest);
    assert SnapshotMatches(after, own, digest) <==> after.planIssueIds == task.planIssueIds;
  }
}
