/** Runs of the span handlers on values: what every run keeps, and the one outcome of every tool row
    (demo/backend/engine_bridge.py:453-619). */
module SpanRuns {
  import opened Wrappers
  import opened EventLog
  import opened SpanRules

  // The console log and the open spans.
  datatype Board = Board(log: Log, active: Spans)

  const EMPTY := Board([], map[])

  /** What the handlers do: open a span that shows nothing, open a visible tool, add a row of another
      kind, close a span. */
  datatype Step =
    | Quiet(runId: string, span: Span)
    | Visible(runId: string, name: string, arguments: string, taskLabel: Option<string>, freshId: string, now: int)
    | Plain(row: Event)
    | End(runId: string, completion: Completion, outcome: string)

  // New row ids are unused, a node is not opened twice, and no active tool's run id is recorded over.
  predicate Allowed(b: Board, step: Step) {
    match step
    case Quiet(runId, span) =>
      !span.ToolSpan? && !TracksTool(b.active, runId) && (span.NodeSpan? ==> span.name !in ActiveNodeNames(b.active))
    case Visible(runId, _, _, _, freshId, _) => !TracksTool(b.active, runId) && IndexOf(b.log, freshId) == |b.log|
    case Plain(row) => IndexOf(b.log, row.id) == |b.log| && !row.status.Running? && !row.category.ToolCall?
    case End(runId, _, _) => runId in b.active
  }

  function After(b: Board, step: Step): Board {
    match step
    case Quiet(runId, span) => b.(active := b.active[runId := span])
    case Visible(runId, name, arguments, taskLabel, freshId, now) =>
      Board(Upsert(b.log, StartedRow(freshId, name, arguments, taskLabel, now)),
            b.active[runId := ToolSpan(name, freshId, arguments, taskLabel)])
    case Plain(row) => b.(log := Upsert(b.log, row))
    case End(runId, completion, outcome) =>
      Board(if TracksTool(b.active, runId) then Upsert(b.log, FinishedRow(b.log, b.active[runId], completion, outcome)) else b.log,
            Without(b.active, runId))
  }

  function AfterAll(b: Board, steps: seq<Step>): Board {
    if steps == [] then b else After(AfterAll(b, steps[..|steps| - 1]), steps[|steps| - 1])
  }

  ghost predicate IsRun(b: Board, steps: seq<Step>) {
    steps == [] || (IsRun(b, steps[..|steps| - 1]) && Allowed(AfterAll(b, steps[..|steps| - 1]), steps[|steps| - 1]))
  }

  // Some run leads from one board to the other.
  ghost predicate Reaches(b: Board, c: Board) {
    exists steps :: IsRun(b, steps) && AfterAll(b, steps) == c
  }

  lemma RunMore(b: Board, steps: seq<Step>, step: Step)
    requires IsRun(b, steps) && Allowed(AfterAll(b, steps), step)
    ensures IsRun(b, steps + [step]) && AfterAll(b, steps + [step]) == After(AfterAll(b, steps), step)
  {
    assert (steps + [step])[..|steps|] == steps;
  }

  lemma ReachesSelf(b: Board)
    ensures Reaches(b, b)
  {
    assert IsRun(b, []) && AfterAll(b, []) == b;
  }

  lemma ReachesStep(b: Board, c: Board, step: Step)
    requires Reaches(b, c) && Allowed(c, step)
    ensures Reaches(b, After(c, step))
  {
    var steps :| IsRun(b, steps) && AfterAll(b, steps) == c;
    RunMore(b, steps, step);
  }

  // ---------------------------------------------------------------- what every run keeps

  // A tool's row is running or has its outcome.
  ghost predicate OpenOrDone(log: Log) {
    forall i :: 0 <= i < |log| && log[i].category.ToolCall? ==> log[i].status.Running? || IsTerminal(log[i].status)
  }

  ghost predicate Sane(b: Board) {
    Paired(b.log, b.active) && OpenOrDone(b.log)
  }

  // Rows keep their kind; at most one is added, and a tool's row starts running.
  ghost predicate Extends(before: Log, after: Log) {
    && Progress(before, after) && |after| <= |before| + 1
    && (forall i :: 0 <= i < |before| ==> after[i].category == before[i].category)
    && (|after| > |before| && after[|before|].category.ToolCall? ==> after[|before|].status.Running?)
  }

  lemma ExtendsKeeps(before: Log, after: Log)
    requires OpenOrDone(before) && Extends(before, after)
    ensures OpenOrDone(after)
  {
    forall i | 0 <= i < |after| && after[i].category.ToolCall?
      ensures after[i].status.Running? || IsTerminal(after[i].status)
    {
      if i < |before| { assert after[i].category == before[i].category; }
    }
  }

  lemma AppendExtends(log: Log, e: Event)
    requires IndexOf(log, e.id) == |log| && (e.category.ToolCall? ==> e.status.Running?)
    ensures Extends(log, Upsert(log, e))
  {
    NewId(log, e);
  }

  // A closed span: a visible tool's running row turns into its outcome.
  lemma EndPaired(b: Board, runId: string, completion: Completion, outcome: string)
    requires Sane(b) && runId in b.active
    ensures var next := After(b, End(runId, completion, outcome));
            Paired(next.log, next.active) && Extends(b.log, next.log)
  {
    if TracksTool(b.active, runId) {
      var span := b.active[runId];
      RunningIndex(b.log, span.eventId);
      PairedComplete(b.log, b.active, runId, FinishedRow(b.log, span, completion, outcome));
      RunningKind(b.log, span.eventId);
    } else {
      PairedDropOther(b.log, b.active, runId);
    }
  }

  lemma RunningKind(log: Log, id: string)
    requires IsRunningRow(log, id) && UniqueIds(log)
    ensures IndexOf(log, id) < |log| && log[IndexOf(log, id)].category.ToolCall?
  {
    var i :| 0 <= i < |log| && log[i].id == id && log[i].status.Running? && log[i].category.ToolCall?;
  }

  lemma StepSane(b: Board, step: Step)
    requires Sane(b) && Allowed(b, step)
    ensures Sane(After(b, step)) && Extends(b.log, After(b, step).log)
  {
    match step
    case Quiet(runId, span) =>
      PairedStartOther(b.log, b.active, runId, span);
    case Visible(runId, name, arguments, taskLabel, freshId, now) =>
      var row := StartedRow(freshId, name, arguments, taskLabel, now);
      PairedStartTool(b.log, b.active, runId, row, ToolSpan(name, freshId, arguments, taskLabel));
      AppendExtends(b.log, row);
    case Plain(row) =>
      PairedAppendPlain(b.log, b.active, row);
      AppendExtends(b.log, row);
    case End(runId, completion, outcome) =>
      EndPaired(b, runId, completion, outcome);
    ExtendsKeeps(b.log, After(b, step).log);
  }

  lemma {:induction false} RunSane(steps: seq<Step>)
    requires IsRun(EMPTY, steps)
    ensures Sane(AfterAll(EMPTY, steps))
  {
    if steps != [] {
      RunSane(steps[..|steps| - 1]);
      StepSane(AfterAll(EMPTY, steps[..|steps| - 1]), steps[|steps| - 1]);
    }
  }

  /** In every board a run reaches, running rows and active visible tools correspond one to one. */
  lemma ReachesSane(b: Board)
    requires Reaches(EMPTY, b)
    ensures Sane(b)
  {
    var steps :| IsRun(EMPTY, steps) && AfterAll(EMPTY, steps) == b;
    RunSane(steps);
  }

  // ---------------------------------------------------------------- one outcome

  ghost function LogAt(steps: seq<Step>, m: nat): Log
    requires m <= |steps|
  {
    AfterAll(EMPTY, steps[..m]).log
  }

  // The step at which a row gets its outcome.
  ghost predicate Turns(steps: seq<Step>, k: nat, i: nat) {
    && k < |steps| && i < |LogAt(steps, k)| && i < |LogAt(steps, k + 1)|
    && LogAt(steps, k)[i].status.Running? && IsTerminal(LogAt(steps, k + 1)[i].status)
  }

  lemma {:induction false} PrefixRun(steps: seq<Step>, m: nat)
    requires IsRun(EMPTY, steps) && m <= |steps|
    ensures IsRun(EMPTY, steps[..m])
    decreases |steps|
  {
    if m == |steps| {
      assert steps[..m] == steps;
    } else {
      PrefixRun(steps[..|steps| - 1], m);
      assert steps[..|steps| - 1][..m] == steps[..m];
    }
  }

  lemma LogStep(steps: seq<Step>, m: nat)
    requires IsRun(EMPTY, steps) && m < |steps|
    ensures OpenOrDone(LogAt(steps, m)) && Extends(LogAt(steps, m), LogAt(steps, m + 1))
  {
    PrefixRun(steps, m + 1);
    PrefixRun(steps, m);
    assert steps[..m + 1][..m] == steps[..m];
    RunSane(steps[..m]);
    StepSane(AfterAll(EMPTY, steps[..m]), steps[m]);
  }

  /** Over every run of the handlers each row keeps its place and id, and once it is not running it never
      changes again. */
  lemma {:induction false} OutcomeFinal(steps: seq<Step>, a: nat, b: nat, i: nat)
    requires IsRun(EMPTY, steps) && a <= b <= |steps| && i < |LogAt(steps, a)|
    ensures i < |LogAt(steps, b)| && LogAt(steps, b)[i].id == LogAt(steps, a)[i].id
    ensures !LogAt(steps, a)[i].status.Running? ==> LogAt(steps, b)[i] == LogAt(steps, a)[i]
    decreases b
  {
    if a < b {
      OutcomeFinal(steps, a, b - 1, i);
      LogStep(steps, b - 1);
    }
  }

  // A tool's row with an outcome got it at some step.
  lemma {:induction false} TurnExists(steps: seq<Step>, m: nat, i: nat) returns (k: nat)
    requires IsRun(EMPTY, steps) && m <= |steps| && i < |LogAt(steps, m)|
    requires LogAt(steps, m)[i].category.ToolCall? && IsTerminal(LogAt(steps, m)[i].status)
    ensures k < m && Turns(steps, k, i)
    decreases m
  {
    assert m > 0 by { assert steps[..0] == []; }
    LogStep(steps, m - 1);
    if LogAt(steps, m - 1)[i].status.Running? {
      k := m - 1;
    } else {
      k := TurnExists(steps, m - 1, i);
    }
  }

  lemma TurnUnique(steps: seq<Step>, k: nat, m: nat, i: nat)
    requires IsRun(EMPTY, steps) && Turns(steps, k, i) && Turns(steps, m, i)
    ensures k == m
  {
    if k < m { OutcomeFinal(steps, k + 1, m, i); }
    if m < k { OutcomeFinal(steps, m + 1, k, i); }
  }

  // A row got its outcome at this step, at no other, and has it still.
  ghost predicate OneOutcome(steps: seq<Step>, k: nat, i: nat) {
    && Turns(steps, k, i) && i < |LogAt(steps, |steps|)|
    && LogAt(steps, |steps|)[i] == LogAt(steps, k + 1)[i]
    && forall m: nat :: Turns(steps, m, i) ==> m == k
  }

  lemma OutcomeOnce(steps: seq<Step>, k: nat, i: nat)
    requires IsRun(EMPTY, steps) && Turns(steps, k, i)
    ensures OneOutcome(steps, k, i)
  {
    OutcomeFinal(steps, k + 1, |steps|, i);
    forall m: nat | Turns(steps, m, i) ensures m == k { TurnUnique(steps, k, m, i); }
  }

  lemma DoneAtEnd(steps: seq<Step>, i: nat)
    requires IsRun(EMPTY, steps) && ActiveTools(AfterAll(EMPTY, steps).active) == {}
    requires i < |LogAt(steps, |steps|)| && LogAt(steps, |steps|)[i].category.ToolCall?
    ensures IsTerminal(LogAt(steps, |steps|)[i].status)
  {
    assert steps[..|steps|] == steps;
    RunSane(steps);
    NoneRunning(AfterAll(EMPTY, steps), i);
  }

  /** Over every run of the handlers that ends without an active visible tool, as the final sweep leaves
      it, every tool's row has got exactly one outcome, at exactly one step, and kept it. */
  lemma ExactlyOneOutcome(steps: seq<Step>, i: nat)
    requires IsRun(EMPTY, steps) && ActiveTools(AfterAll(EMPTY, steps).active) == {}
    requires i < |LogAt(steps, |steps|)| && LogAt(steps, |steps|)[i].category.ToolCall?
    ensures IsTerminal(LogAt(steps, |steps|)[i].status) && exists k: nat :: OneOutcome(steps, k, i)
  {
    DoneAtEnd(steps, i);
    var k := TurnExists(steps, |steps|, i);
    OutcomeOnce(steps, k, i);
  }

  lemma NoneRunning(b: Board, i: nat)
    requires Sane(b) && ActiveTools(b.active) == {} && i < |b.log|
    ensures !b.log[i].status.Running?
  {
    if b.log[i].status.Running? { RunningHasTool(b, i); }
  }

  lemma RunningHasTool(b: Board, i: nat)
    requires Sane(b) && i < |b.log| && b.log[i].status.Running?
    ensures ActiveTools(b.active) != {}
  {
    var r :| r in b.active && b.active[r].ToolSpan? && b.active[r].eventId == b.log[i].id;
    assert r in ActiveTools(b.active);
  }
}
