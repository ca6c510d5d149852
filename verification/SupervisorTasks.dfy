/** Supervisor tasks, their lifecycle and the committed transitions
    (src/remediation_engine/contracts/decision_codes.py:42-78,
    src/remediation_engine/orchestration/_supervisor_execution.py:163-287). */
module SupervisorTasks {
  import opened Wrappers

  datatype Status = Pending | OptimisticallyFixed | QaPassed | NeedsRetry | Unfixable | Inconclusive | Pivoted

  datatype Strategy = VersionBump | CodeWorkaround

  const VALID_TRANSITIONS := {
    (Pending, OptimisticallyFixed), (Pending, Pivoted), (Pending, NeedsRetry), (Pending, Unfixable), (Pending, Inconclusive),
    (OptimisticallyFixed, QaPassed), (OptimisticallyFixed, NeedsRetry), (OptimisticallyFixed, Inconclusive),
    (OptimisticallyFixed, Pending), (OptimisticallyFixed, Unfixable),
    (NeedsRetry, OptimisticallyFixed), (NeedsRetry, Pivoted), (NeedsRetry, Unfixable), (NeedsRetry, Inconclusive)
  }

  predicate ValidateTransition(current: Status, target: Status) {
    (current, target) in VALID_TRANSITIONS
  }

  predicate IsTerminal(s: Status) {
    s.QaPassed? || s.Unfixable? || s.Inconclusive? || s.Pivoted?
  }

  /** The table's terminal statuses are exactly those with no way out. */
  lemma TerminalExactly(s: Status)
    ensures IsTerminal(s) <==> forall t :: !ValidateTransition(s, t)
  {
    if !IsTerminal(s) {
      assert ValidateTransition(s, Inconclusive);
    }
  }

  /** The table in words: every live status may turn into every other, except that only a fixed task
      passes QA, a fixed one is not pivoted, and a retry does not go back to pending. */
  lemma TransitionsExactly(s: Status, t: Status)
    ensures ValidateTransition(s, t) <==>
              && s in {Pending, OptimisticallyFixed, NeedsRetry} && s != t
              && !(s != OptimisticallyFixed && t == QaPassed) && !(s == OptimisticallyFixed && t == Pivoted)
              && !(s == NeedsRetry && t == Pending)
  {
  }

  // The task fields a worker acts on.
  datatype Input = Input(strategyStage: string, selectedVersion: Option<string>, exhausted: bool, instruction: string,
                         strategy: Strategy, noFixStage: Option<string>, qaPolicy: Option<string>,
                         packageName: Option<string>, dependencyType: Option<string>, parentMinimum: Option<string>)

  datatype Task = Task(taskId: string, revision: nat, attempt: Option<string>, parentTaskId: Option<string>,
                       status: Status, input: Input, planIssueIds: seq<string>, retryCount: nat)

  type Queue = map<string, Task>

  // ---------------------------------------------------------------- one transition

  datatype Field<T> = Keep | Set(value: T)

  function Put<T>(f: Field<T>, current: T): T {
    match f
    case Keep => current
    case Set(v) => v
  }

  // The status a caller passes: a member of the enumeration, or something it does not know.
  datatype StatusArg = Known(status: Status) | Unknown

  datatype Updates = Updates(status: Field<StatusArg>, revision: Field<nat>, attempt: Field<Option<string>>,
                             strategyStage: Field<string>, selectedVersion: Field<Option<string>>, exhausted: Field<bool>,
                             instruction: Field<string>, strategy: Field<Strategy>, noFixStage: Field<Option<string>>,
                             qaPolicy: Field<Option<string>>, packageName: Field<Option<string>>,
                             dependencyType: Field<Option<string>>, parentMinimum: Field<Option<string>>,
                             planIssueIds: Field<seq<string>>, parentTaskId: Field<Option<string>>, retryCount: Field<nat>)

  datatype Flags = Flags(closeAttempt: bool, clearSelectedVersion: bool, breakingChangePivot: bool, verifiedAbsentPass: bool)

  // A status change outside the table that one of the two named flags lets through.
  predicate NamedException(task: Task, target: Status, flags: Flags) {
    && target.QaPassed?
    && ((flags.verifiedAbsentPass && task.attempt.None? && (task.status.Pending? || task.status.NeedsRetry?))
        || (flags.breakingChangePivot && task.status.NeedsRetry?))
  }

  predicate Permitted(task: Task, target: Status, flags: Flags) {
    target == task.status || ValidateTransition(task.status, target) || NamedException(task, target, flags)
  }

  predicate Rejected(task: Task, u: Updates, flags: Flags) {
    u.status.Set? && (u.status.value.Unknown? || !Permitted(task, u.status.value.status, flags))
  }

  function NewInput(input: Input, u: Updates): Input {
    Input(Put(u.strategyStage, input.strategyStage), Put(u.selectedVersion, input.selectedVersion),
          Put(u.exhausted, input.exhausted), Put(u.instruction, input.instruction), Put(u.strategy, input.strategy),
          Put(u.noFixStage, input.noFixStage), Put(u.qaPolicy, input.qaPolicy), Put(u.packageName, input.packageName),
          Put(u.dependencyType, input.dependencyType), Put(u.parentMinimum, input.parentMinimum))
  }

  function NewStatus(task: Task, u: Updates): Status {
    if u.status.Set? && u.status.value.Known? then u.status.value.status else task.status
  }

  datatype Event = RejectedTransition(taskId: string, attempt: Option<string>, current: Status, requested: StatusArg)

  class TaskQueue {
    var tasks: Queue
    var events: seq<Event>

    constructor (tasks: Queue)
      ensures this.tasks == tasks && events == []
    {
      this.tasks, events := tasks, [];
    }

    /** Commits one transition: an unknown task or a rejected status changes no task; otherwise the
        task gets the requested fields, loses its attempt and version when it closes, and gains a
        revision exactly when its worker input changes or an attempt or version is withdrawn. */
    method CommitTaskTransition(taskId: string, updates: Updates, flags: Flags, record: bool) returns (r: Option<Task>)
      modifies this
      ensures taskId !in old(tasks) ==> r.None? && tasks == old(tasks) && events == old(events)
      ensures taskId in old(tasks) ==> tasks == old(tasks)[taskId := Committed(old(tasks)[taskId], updates, flags)]
                                       && r == Some(tasks[taskId])
      ensures taskId in old(tasks) && Rejected(old(tasks)[taskId], updates, flags) ==>
                events == old(events) + if record then [RejectedTransition(taskId, old(tasks)[taskId].attempt,
                                                          old(tasks)[taskId].status, updates.status.value)] else []
      ensures taskId in old(tasks) && !Rejected(old(tasks)[taskId], updates, flags) ==> events == old(events)
    {
      if taskId !in tasks {
        return None;
      }
      var task := tasks[taskId];
      if updates.status.Set? {
        var requested := updates.status.value;
        if requested.Unknown? || (requested.status != task.status && !ValidateTransition(task.status, requested.status)
                                  && !NamedException(task, requested.status, flags)) {
          if record {
            events := events + [RejectedTransition(taskId, task.attempt, task.status, requested)];
          }
          assert tasks[taskId := task] == tasks;
          return Some(task);
        }
      }
      var closeAttempt, clearSelectedVersion := flags.closeAttempt, flags.clearSelectedVersion;
      if updates.status.Set? && IsTerminal(updates.status.value.status) {
        closeAttempt, clearSelectedVersion := true, true;
      }
      var committed := task.(status := NewStatus(task, updates), input := NewInput(task.input, updates),
                             attempt := Put(updates.attempt, task.attempt),
                             planIssueIds := Put(updates.planIssueIds, task.planIssueIds),
                             parentTaskId := Put(updates.parentTaskId, task.parentTaskId),
                             retryCount := Put(updates.retryCount, task.retryCount));
      var inputChanged := committed.input != task.input || Put(updates.revision, task.revision) != task.revision;
      if closeAttempt {
        committed := committed.(attempt := None);
        inputChanged := inputChanged || task.attempt.Some?;
      }
      if clearSelectedVersion {
        committed := committed.(input := committed.input.(selectedVersion := None));
        inputChanged := inputChanged || task.input.selectedVersion.Some?;
      }
      if inputChanged {
        committed := committed.(revision := task.revision + 1);
      }
      tasks := tasks[taskId := committed];
      return Some(committed);
    }
  }

  // ---------------------------------------------------------------- what a transition leaves

  predicate Closes(u: Updates, flags: Flags) {
    flags.closeAttempt || (u.status.Set? && u.status.value.Known? && IsTerminal(u.status.value.status))
  }

  predicate Clears(u: Updates, flags: Flags) {
    flags.clearSelectedVersion || (u.status.Set? && u.status.value.Known? && IsTerminal(u.status.value.status))
  }

  // The committed task.
  function Committed(task: Task, u: Updates, flags: Flags): Task {
    if Rejected(task, u, flags) then task else
      var input := NewInput(task.input, u);
      var bumped := input != task.input || Put(u.revision, task.revision) != task.revision
                    || (Closes(u, flags) && task.attempt.Some?)
                    || (Clears(u, flags) && task.input.selectedVersion.Some?);
      Task(task.taskId, if bumped then task.revision + 1 else task.revision,
           if Closes(u, flags) then None else Put(u.attempt, task.attempt),
           Put(u.parentTaskId, task.parentTaskId), NewStatus(task, u),
           if Clears(u, flags) then input.(selectedVersion := None) else input,
           Put(u.planIssueIds, task.planIssueIds), Put(u.retryCount, task.retryCount))
  }

  // A task at two moments with any commits between them.
  ghost predicate Evolves(before: Task, after: Task) {
    && before.revision <= after.revision
    && (after.revision == before.revision ==> after.input == before.input)
    && (IsTerminal(before.status) ==> after.status == before.status)
  }

  /** One commit: the revision moves by 0 or 1, an unchanged revision means an unchanged worker
      input, a terminal status stays, a status change is in the table or one of the named exceptions,
      and a terminal status leaves no attempt and no version. */
  lemma CommitLaws(task: Task, u: Updates, flags: Flags)
    ensures var after := Committed(task, u, flags);
            && Evolves(task, after) && after.revision <= task.revision + 1
            && (after.status != task.status ==>
                  ValidateTransition(task.status, after.status) || NamedException(task, after.status, flags))
            && (Rejected(task, u, flags) ==> after == task)
            && (u.status.Set? && !Rejected(task, u, flags) && IsTerminal(after.status) ==>
                  after.attempt.None? && after.input.selectedVersion.None?)
            && (!Rejected(task, u, flags) && !Closes(u, flags) && !Clears(u, flags) ==>
                  && after.input == NewInput(task.input, u) && after.attempt == Put(u.attempt, task.attempt)
                  && (after.revision == task.revision <==>
                        after.input == task.input && Put(u.revision, task.revision) == task.revision))
            && (flags.closeAttempt && !Rejected(task, u, flags) && task.attempt.Some? ==>
                  after.attempt.None? && after.revision == task.revision + 1)
  {
  }

  /** A commit is refused exactly when it asks for an unknown status, or for a change outside the table
      that is neither a verified absence of the target, without an attempt, from pending or retry, nor a
      breaking-change pivot from retry, both to a passed QA. */
  lemma RejectedExactly(task: Task, u: Updates, flags: Flags)
    ensures Rejected(task, u, flags) <==>
              && u.status.Set?
              && (u.status.value.Known? ==>
                    var target := u.status.value.status;
                    && target != task.status && !ValidateTransition(task.status, target)
                    && !(target == QaPassed && flags.verifiedAbsentPass && task.attempt.None? && task.status in {Pending, NeedsRetry})
                    && !(target == QaPassed && flags.breakingChangePivot && task.status == NeedsRetry))
  {
  }

  // A set field has the set value, a kept one its old value.
  predicate Lands<T(==)>(f: Field<T>, before: T, after: T) {
    match f
    case Keep => after == before
    case Set(value) => after == value
  }

  /** An accepted commit does what it was asked: the status is the requested one, each field lands, and
      only closing withdraws the attempt and only clearing the version. */
  lemma CommitLands(task: Task, u: Updates, flags: Flags)
    requires !Rejected(task, u, flags)
    ensures var after := Committed(task, u, flags);
            var ends := u.status.Set? && IsTerminal(u.status.value.status);
            && after.status == (if u.status.Set? then u.status.value.status else task.status)
            && (if flags.closeAttempt || ends then after.attempt.None? else Lands(u.attempt, task.attempt, after.attempt))
            && (if flags.clearSelectedVersion || ends then after.input.selectedVersion.None?
                else Lands(u.selectedVersion, task.input.selectedVersion, after.input.selectedVersion))
            && Lands(u.strategyStage, task.input.strategyStage, after.input.strategyStage)
            && Lands(u.exhausted, task.input.exhausted, after.input.exhausted)
            && Lands(u.instruction, task.input.instruction, after.input.instruction)
            && Lands(u.strategy, task.input.strategy, after.input.strategy)
            && Lands(u.noFixStage, task.input.noFixStage, after.input.noFixStage)
            && Lands(u.qaPolicy, task.input.qaPolicy, after.input.qaPolicy)
            && Lands(u.packageName, task.input.packageName, after.input.packageName)
            && Lands(u.dependencyType, task.input.dependencyType, after.input.dependencyType)
            && Lands(u.parentMinimum, task.input.parentMinimum, after.input.parentMinimum)
            && Lands(u.planIssueIds, task.planIssueIds, after.planIssueIds)
            && Lands(u.parentTaskId, task.parentTaskId, after.parentTaskId)
            && Lands(u.retryCount, task.retryCount, after.retryCount)
            && after.taskId == task.taskId
  {
  }

  /** The revision moves exactly when some worker field is asked to change, or a closed attempt or a
      cleared version was there. */
  lemma RevisionMovesExactly(task: Task, u: Updates, flags: Flags)
    requires !Rejected(task, u, flags)
    ensures var after, i := Committed(task, u, flags), task.input;
            var ends := u.status.Set? && IsTerminal(u.status.value.status);
            after.revision == task.revision + (
              if Lands(u.revision, task.revision, task.revision) && Lands(u.strategyStage, i.strategyStage, i.strategyStage)
                 && Lands(u.selectedVersion, i.selectedVersion, i.selectedVersion) && Lands(u.exhausted, i.exhausted, i.exhausted)
                 && Lands(u.instruction, i.instruction, i.instruction) && Lands(u.strategy, i.strategy, i.strategy)
                 && Lands(u.noFixStage, i.noFixStage, i.noFixStage) && Lands(u.qaPolicy, i.qaPolicy, i.qaPolicy)
                 && Lands(u.packageName, i.packageName, i.packageName) && Lands(u.dependencyType, i.dependencyType, i.dependencyType)
                 && Lands(u.parentMinimum, i.parentMinimum, i.parentMinimum)
                 && !((flags.closeAttempt || ends) && task.attempt.Some?)
                 && !((flags.clearSelectedVersion || ends) && i.selectedVersion.Some?)
              then 0 else 1)
  {
  }

  // ---------------------------------------------------------------- runs

  datatype Commit = Commit(taskId: string, updates: Updates, flags: Flags)

  function AfterCommit(queue: Queue, c: Commit): Queue {
    if c.taskId in queue then queue[c.taskId := Committed(queue[c.taskId], c.updates, c.flags)] else queue
  }

  function AfterCommits(queue: Queue, commits: seq<Commit>): Queue {
    if commits == [] then queue
    else AfterCommit(AfterCommits(queue, commits[..|commits| - 1]), commits[|commits| - 1])
  }

  lemma EvolvesTransitive(a: Task, b: Task, c: Task)
    requires Evolves(a, b) && Evolves(b, c)
    ensures Evolves(a, c)
  {
  }

  /** Over any run of commits: no task appears or disappears, revisions never fall, two moments with
      the same revision have the same worker input, and terminal statuses are absorbing. */
  lemma {:induction false} RunLaws(queue: Queue, commits: seq<Commit>, i: nat, j: nat, id: string)
    requires i <= j <= |commits| && id in AfterCommits(queue, commits[..i])
    ensures AfterCommits(queue, commits[..j]).Keys == AfterCommits(queue, commits[..i]).Keys
    ensures Evolves(AfterCommits(queue, commits[..i])[id], AfterCommits(queue, commits[..j])[id])
    ensures AfterCommits(queue, commits[..j])[id].revision <= AfterCommits(queue, commits[..i])[id].revision + (j - i)
    decreases j
  {
    if i < j {
      RunLaws(queue, commits, i, j - 1, id);
      assert commits[..j][..j - 1] == commits[..j - 1];
      var mid, c := AfterCommits(queue, commits[..j - 1]), commits[j - 1];
      if c.taskId == id {
        CommitLaws(mid[id], c.updates, c.flags);
        EvolvesTransitive(AfterCommits(queue, commits[..i])[id], mid[id], AfterCommits(queue, commits[..j])[id]);
      }
    }
  }

  /** The revision does not stamp everything a snapshot is compared on: an update of the plan's issue
      ids alone goes through under it. */
  lemma PlanIssuesUnstamped(task: Task, u: Updates, flags: Flags, ids: seq<string>)
    requires u == Updates(Keep, Keep, Keep, Keep, Keep, Keep, Keep, Keep, Keep, Keep, Keep, Keep, Keep, Set(ids), Keep, Keep)
    requires !flags.closeAttempt && !flags.clearSelectedVersion && ids != task.planIssueIds
    ensures var after := Committed(task, u, flags);
            after.revision == task.revision && after.planIssueIds != task.planIssueIds
  {
    assert NewInput(task.input, u) == task.input;
  }
}
