/** The validator and repairer of the state handed to the next node
    (src/remediation_engine/orchestration/_supervisor_execution.py:290-623). */
module SupervisorValidator {
  import opened Wrappers
  import Text
  import opened SupervisorTasks
  import S = Sweeps

  datatype Node = UpdateSubagent | WorkaroundSubagent | QaCritic | OtherNode

  datatype Snapshot = Snapshot(attemptId: string, taskId: string, revision: nat, strategyStage: string,
                               noFixStage: Option<string>, qaPolicy: Option<string>, selectedVersion: Option<string>,
                               allowedVersions: seq<string>, packageName: Option<string>, dependencyType: Option<string>,
                               parentMinimum: Option<string>, planIssueIds: seq<string>, instruction: string,
                               digest: string, dispatchNode: Node, maven: bool)

  datatype PlanAction = RetryUpdate | PivotWorkaround

  datatype Plan = Plan(action: PlanAction, sourceRevision: nat, strategyStage: string, selectedVersion: Option<string>,
                       instruction: string, exhausted: bool)

  datatype Diagnostics = Diagnostics(committedAttempt: Option<string>, selectedVersion: Option<string>,
                                     attemptedVersions: seq<string>)

  type Snapshots = map<string, Snapshot>

  datatype Code =
    | TerminalFieldsNormalized | IdentityRejected | RevisionRejected | SnapshotRepaired
    | TerminalPlanCleared | InvalidPlanCleared | PlanContradiction
    | TerminalTaskActive | ActiveWithoutAttempt | UpdateWithoutCandidate | MissingQaPolicy | SnapshotContradiction
    | DiagnosticsRepaired | PivotParentRepaired

  datatype StateEvent = StateEvent(code: Code, taskId: string, expected: Option<string>, received: Option<string>)

  // The error texts; two of them do not name the task.
  datatype Error =
    | MissingSnapshot(taskId: string) | ForeignIdentity | RevisionDiffers
    | TerminalActive(taskId: string) | NoAttempt(taskId: string) | ActiveMissingSnapshot(taskId: string)
    | CandidateUnauthorized | QaPolicyMissing(taskId: string) | Disagrees(taskId: string)
    | ExhaustedUpdate(taskId: string) | AlreadyAttempted(taskId: string)

  type Outcome<T> = S.Outcome<T, StateEvent, Error>

  function Kept<T>(value: T, events: seq<StateEvent>, errors: seq<Error>): Outcome<T> {
    S.Outcome(Some(value), events, errors)
  }

  // ---------------------------------------------------------------- the task loop

  predicate NodeFits(node: Node, strategy: Strategy) {
    || (node.UpdateSubagent? && strategy.VersionBump?)
    || (node.WorkaroundSubagent? && strategy.CodeWorkaround?)
    || node.QaCritic?
  }

  // The committed fields of a task, taken from its snapshot.
  function RepairedInput(input: Input, s: Snapshot): Input {
    input.(strategyStage := s.strategyStage, noFixStage := s.noFixStage, qaPolicy := s.qaPolicy,
           selectedVersion := s.selectedVersion, packageName := s.packageName, dependencyType := s.dependencyType,
           parentMinimum := s.parentMinimum, instruction := s.instruction)
  }

  predicate SnapshotMatches(t: Task, s: Snapshot, digest: string -> string) {
    && s.strategyStage == t.input.strategyStage
    && s.noFixStage == t.input.noFixStage
    && s.qaPolicy == t.input.qaPolicy
    && s.selectedVersion == t.input.selectedVersion
    && s.packageName == t.input.packageName
    && s.dependencyType == t.input.dependencyType
    && s.parentMinimum == t.input.parentMinimum
    && s.planIssueIds == t.planIssueIds
    && s.instruction == t.input.instruction
    && s.digest == digest(t.input.instruction)
    && NodeFits(s.dispatchNode, t.input.strategy)
  }

  predicate OwnIdentity(id: string, t: Task, s: Snapshot) {
    t.attempt == Some(s.attemptId) && s.taskId == id && s.taskId == t.taskId
  }

  predicate HasAttempt(t: Task) {
    t.attempt.Some? && t.attempt.value != ""
  }

  predicate IsClean(t: Task) {
    t.attempt.None? && t.input.selectedVersion.None?
  }

  function CheckTask(id: string, t: Task, snapshots: Snapshots, digest: string -> string): Outcome<Task> {
    if IsTerminal(t.status) && !IsClean(t) then
      Kept(t.(attempt := None, input := t.input.(selectedVersion := None), revision := t.revision + 1),
              [StateEvent(TerminalFieldsNormalized, id, t.attempt, t.attempt)], [])
    else if !HasAttempt(t) then
      Kept(t, [], [])
    else if t.attempt.value !in snapshots then
      Kept(t, [], [MissingSnapshot(id)])
    else
      var s := snapshots[t.attempt.value];
      if !OwnIdentity(id, t, s) then
        Kept(t, [StateEvent(IdentityRejected, id, t.attempt, Some(s.attemptId))], [ForeignIdentity])
      else if s.revision != t.revision then
        Kept(t, [StateEvent(RevisionRejected, id, t.attempt, Some(s.attemptId))], [RevisionDiffers])
      else if SnapshotMatches(t, s, digest) then
        Kept(t, [], [])
      else
        Kept(t.(attempt := Some(s.attemptId), input := RepairedInput(t.input, s), planIssueIds := s.planIssueIds),
                [StateEvent(SnapshotRepaired, id, t.attempt, Some(s.attemptId))], [])
  }

  // ---------------------------------------------------------------- the plan loop

  function Max(a: int, b: int): int {
    if a > b then a else b
  }

  predicate PlanContradicts(plan: Plan, t: Task) {
    || plan.sourceRevision > t.revision
    || plan.sourceRevision < Max(0, t.revision - 1)
    || plan.strategyStage != t.input.strategyStage
    || plan.selectedVersion != t.input.selectedVersion
    || plan.instruction != t.input.instruction
    || plan.exhausted != t.input.exhausted
  }

  function CheckPlan(id: string, plan: Plan, queue: Queue): Outcome<Plan> {
    if id !in queue then S.Outcome(None, [], []) else
      var t := queue[id];
      if IsTerminal(t.status) then S.Outcome(None, [StateEvent(TerminalPlanCleared, id, t.attempt, None)], [])
      else if plan.action.RetryUpdate? && (plan.selectedVersion.None? || t.input.exhausted) then
        S.Outcome(None, [StateEvent(InvalidPlanCleared, id, t.attempt, None)], [])
      else if plan.action.RetryUpdate? && PlanContradicts(plan, t) then
        S.Outcome(None, [StateEvent(PlanContradiction, id, t.attempt, None)], [])
      else Kept(plan, [], [])
  }

  // ---------------------------------------------------------------- the active-target loop

  function StripLeadingV(s: string): string {
    if s != "" && s[0] in "vV" then StripLeadingV(s[1..]) else s
  }

  function NormalVersion(v: string, maven: bool): string {
    if maven then Text.Strip(v) else StripLeadingV(Text.Strip(v))
  }

  function AllowedVersions(s: Snapshot): set<string> {
    set v | v in s.allowedVersions && Text.Strip(v) != "" :: NormalVersion(v, s.maven)
  }

  predicate Authorized(t: Task, s: Snapshot) {
    && t.input.selectedVersion.Some? && t.input.selectedVersion.value != ""
    && NormalVersion(t.input.selectedVersion.value, s.maven) in AllowedVersions(s)
  }

  predicate Agrees(t: Task, s: Snapshot, digest: string -> string) {
    && s.revision == t.revision
    && s.strategyStage == t.input.strategyStage
    && s.noFixStage == t.input.noFixStage
    && s.qaPolicy == t.input.qaPolicy
    && s.selectedVersion == t.input.selectedVersion
    && s.planIssueIds == t.planIssueIds
    && s.instruction == t.input.instruction
    && s.digest == digest(t.input.instruction)
  }

  function CheckActive(id: string, queue: Queue, snapshots: Snapshots, next: Node, digest: string -> string): Outcome<()> {
    if id !in queue then Kept((), [], []) else
      var t := queue[id];
      if IsTerminal(t.status) then
        Kept((), [StateEvent(TerminalTaskActive, id, t.attempt, None)], [TerminalActive(id)])
      else if t.attempt.None? then
        Kept((), [StateEvent(ActiveWithoutAttempt, id, None, None)], [NoAttempt(id)])
      else if t.attempt.value !in snapshots then
        Kept((), [], [ActiveMissingSnapshot(id)])
      else
        var s := snapshots[t.attempt.value];
        if next.UpdateSubagent? && s.dispatchNode.UpdateSubagent? && !Authorized(t, s) then
          Kept((), [StateEvent(UpdateWithoutCandidate, id, t.attempt, t.attempt)], [CandidateUnauthorized])
        else if t.input.qaPolicy.None? || s.qaPolicy.None? then
          Kept((), [StateEvent(MissingQaPolicy, id, t.attempt, t.attempt)], [QaPolicyMissing(id)])
        else
          Kept((),
            if Agrees(t, s, digest) then [] else [StateEvent(SnapshotContradiction, id, t.attempt, t.attempt)],
            (if Agrees(t, s, digest) then [] else [Disagrees(id)])
            + if next.UpdateSubagent? && t.input.exhausted then [ExhaustedUpdate(id)] else [])
  }

  // ---------------------------------------------------------------- the diagnostics loop

  function LowerVersion(v: string, maven: bool): string {
    Text.Lower(NormalVersion(v, maven))
  }

  predicate WasAttempted(t: Task, d: Diagnostics, maven: bool) {
    && t.input.selectedVersion.Some? && t.input.selectedVersion.value != ""
    && exists v :: v in d.attemptedVersions && v != ""
         && LowerVersion(t.input.selectedVersion.value, maven) == LowerVersion(v, maven)
  }

  predicate MavenMode(t: Task, snapshots: Snapshots) {
    var key := if t.attempt.Some? then t.attempt.value else "";
    key in snapshots && snapshots[key].maven
  }

  function CheckDiagnostics(id: string, d: Diagnostics, queue: Queue, snapshots: Snapshots, next: Node): Outcome<Diagnostics> {
    if id !in queue then Kept(d, [], []) else
      var t := queue[id];
      var repaired := d.(selectedVersion := t.input.selectedVersion);
      Kept(repaired,
        if d.selectedVersion != t.input.selectedVersion
        then [StateEvent(DiagnosticsRepaired, id, t.attempt, d.committedAttempt)] else [],
        if next.UpdateSubagent? && WasAttempted(t, d, MavenMode(t, snapshots)) then [AlreadyAttempted(id)] else [])
  }

  // ---------------------------------------------------------------- the whole pass

  datatype State = State(tasks: Queue, plans: map<string, Plan>, diagnostics: map<string, Diagnostics>)

  /** What a pass is given besides the state: the snapshots, the targets it must find ready, the
      node they go to, and the digest of instructions. */
  datatype Context = Context(snapshots: Snapshots, active: seq<string>, next: Node, digest: string -> string)

  function TaskCheck(c: Context): (string, Task) -> Outcome<Task> {
    (id, t) => CheckTask(id, t, c.snapshots, c.digest)
  }

  function PlanCheck(queue: Queue): (string, Plan) -> Outcome<Plan> {
    (id, plan) => CheckPlan(id, plan, queue)
  }

  function ActiveCheck(c: Context, queue: Queue): string -> Outcome<()> {
    id => CheckActive(id, queue, c.snapshots, c.next, c.digest)
  }

  function DiagnosticsCheck(c: Context, queue: Queue): (string, Diagnostics) -> Outcome<Diagnostics> {
    (id, d) => CheckDiagnostics(id, d, queue, c.snapshots, c.next)
  }

  function CheckedTasks(c: Context, queue: Queue): Queue {
    S.Swept(queue, queue.Keys, TaskCheck(c))
  }

  // The state after validation.
  function Validated(c: Context, st: State): State {
    var tasks := CheckedTasks(c, st.tasks);
    State(tasks, S.Swept(st.plans, st.plans.Keys, PlanCheck(tasks)),
          S.Swept(st.diagnostics, st.diagnostics.Keys, DiagnosticsCheck(c, tasks)))
  }

  // Iteration orders of the three dictionaries.
  datatype Orders = Orders(tasks: seq<string>, plans: seq<string>, diagnostics: seq<string>)

  ghost predicate Enumerates(o: Orders, st: State) {
    S.Lists(o.tasks, st.tasks) && S.Lists(o.plans, st.plans) && S.Lists(o.diagnostics, st.diagnostics)
  }

  // Everything a pass reports, loop after loop.
  function AllEvents(c: Context, st: State, o: Orders): seq<StateEvent> {
    var tasks := CheckedTasks(c, st.tasks);
    S.Events(o.tasks, st.tasks, TaskCheck(c)) + S.Events(o.plans, st.plans, PlanCheck(tasks))
    + S.ListEvents(c.active, ActiveCheck(c, tasks)) + S.Events(o.diagnostics, st.diagnostics, DiagnosticsCheck(c, tasks))
  }

  function AllErrors(c: Context, st: State, o: Orders): seq<Error> {
    var tasks := CheckedTasks(c, st.tasks);
    S.Errors(o.tasks, st.tasks, TaskCheck(c)) + S.Errors(o.plans, st.plans, PlanCheck(tasks))
    + S.ListErrors(c.active, ActiveCheck(c, tasks)) + S.Errors(o.diagnostics, st.diagnostics, DiagnosticsCheck(c, tasks))
  }

  /** The three dictionaries the pass updates in place. */
  class Projection {
    var tasks: Queue
    var plans: map<string, Plan>
    var diagnostics: map<string, Diagnostics>

    constructor (st: State)
      ensures Current() == st
    {
      tasks, plans, diagnostics := st.tasks, st.plans, st.diagnostics;
    }

    function Current(): State
      reads this
    {
      State(tasks, plans, diagnostics)
    }

    /** One pass over the four loops, in place. The state it leaves does not depend on the
        iteration orders. */
    method Validate(c: Context, o: Orders) returns (events: seq<StateEvent>, errors: seq<Error>)
      requires Enumerates(o, Current())
      modifies this
      ensures Current() == Validated(c, old(Current()))
      ensures events == AllEvents(c, old(Current()), o) && errors == AllErrors(c, old(Current()), o)
    {
      var moreEvents, moreErrors;
      tasks, events, errors := S.Sweep(tasks, o.tasks, TaskCheck(c));
      plans, moreEvents, moreErrors := S.Sweep(plans, o.plans, PlanCheck(tasks));
      events, errors := events + moreEvents, errors + moreErrors;
      moreEvents, moreErrors := S.Visit(c.active, ActiveCheck(c, tasks));
      events, errors := events + moreEvents, errors + moreErrors;
      diagnostics, moreEvents, moreErrors := S.Sweep(diagnostics, o.diagnostics, DiagnosticsCheck(c, tasks));
      events, errors := events + moreEvents, errors + moreErrors;
    }
  }
}
