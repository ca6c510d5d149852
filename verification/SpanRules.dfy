/** Tool spans and their console rows, on values: which rows belong to which spans, and when opening or
    closing a span keeps them together (demo/backend/engine_bridge.py:162-190, 440-619). */
module SpanRules {
  import opened Wrappers
  import opened EventLog

  datatype Span =
    | SandboxSpan(name: string)
    | NestedSpan(name: string, parentTool: string)
    | ToolSpan(name: string, eventId: string, arguments: string, taskLabel: Option<string>)
    | NodeSpan(name: string)
    | DetSpan(name: string)

  type Spans = map<string, Span>

  const GRAPH_NODES := {
    "initial_triage", "workspace_builder", "workspace_setup_scan", "supervisor", "update_subagent",
    "workaround_subagent", "qa_critic", "triage", "final_full_scan", "teardown", "report"
  }

  const NODE_ALIASES := map[
    "triage_node" := "initial_triage",
    "run_workspace_builder_node" := "workspace_builder",
    "run_workspace_setup_scan_node" := "workspace_setup_scan",
    "run_supervisor_node" := "supervisor",
    "run_update_subagent_from_orchestrator" := "update_subagent",
    "run_workaround_subagent_from_orchestrator" := "workaround_subagent",
    "run_qa_critic_from_orchestrator" := "qa_critic",
    "run_qa_critic_node" := "qa_critic",
    "post_qa_triage_node" := "triage",
    "run_final_full_scan_node" := "final_full_scan",
    "run_teardown_node" := "teardown",
    "run_report_node" := "report"
  ]

  // The node a span opens, unless that node is already open.
  function GraphNodeName(name: string, metadataNode: Option<string>, active: set<string>): (r: Option<string>)
    ensures r.Some? ==> r.value !in active
  {
    var candidate := if name in GRAPH_NODES then Some(name)
                     else if name in NODE_ALIASES then Some(NODE_ALIASES[name]) else None;
    if candidate.Some? then
      if candidate.value in active then None else candidate
    else if metadataNode.Some? && metadataNode.value in GRAPH_NODES && metadataNode.value !in active then metadataNode
    else None
  }

  /** A span opens a graph node exactly when that node is not open yet and is the span's own name, or the
      node its name stands for, or, for other names, the node its metadata names. */
  lemma NodeNameExactly(name: string, metadataNode: Option<string>, active: set<string>, node: string)
    ensures GraphNodeName(name, metadataNode, active) == Some(node) <==>
              && node !in active
              && (if name in GRAPH_NODES then node == name
                  else if name in NODE_ALIASES then node == NODE_ALIASES[name]
                  else metadataNode == Some(node) && node in GRAPH_NODES)
  {
  }

  // Nodes that run as run_X_node, and those the orchestrator runs as run_X_from_orchestrator.
  const RUN_NODES := {"workspace_builder", "workspace_setup_scan", "supervisor", "qa_critic", "final_full_scan", "teardown", "report"}
  const ORCHESTRATED_NODES := {"update_subagent", "workaround_subagent", "qa_critic"}

  /** A name stands for a node when it runs that node, directly or from the orchestrator; the two triage
      nodes have names of their own. */
  lemma AliasesExactly(name: string, node: string)
    ensures name in NODE_ALIASES && NODE_ALIASES[name] == node <==>
              || (node in RUN_NODES && name == "run_" + node + "_node")
              || (node in ORCHESTRATED_NODES && name == "run_" + node + "_from_orchestrator")
              || (node == "initial_triage" && name == "triage_node")
              || (node == "triage" && name == "post_qa_triage_node")
  {
    WorkspaceNames();
    SomeRunNames();
    OtherRunNames();
    UpdateName();
    WorkaroundName();
    CriticName();
  }

  lemma WorkspaceNames()
    ensures "run_" + "workspace_builder" + "_node" == "run_workspace_builder_node"
    ensures "run_" + "workspace_setup_scan" + "_node" == "run_workspace_setup_scan_node"
  {
  }

  lemma SomeRunNames()
    ensures "run_" + "supervisor" + "_node" == "run_supervisor_node"
    ensures "run_" + "qa_critic" + "_node" == "run_qa_critic_node"
  {
  }

  lemma OtherRunNames()
    ensures "run_" + "final_full_scan" + "_node" == "run_final_full_scan_node"
    ensures "run_" + "teardown" + "_node" == "run_teardown_node"
    ensures "run_" + "report" + "_node" == "run_report_node"
  {
  }

  lemma UpdateName()
    ensures "run_" + "update_subagent" + "_from_orchestrator" == "run_update_subagent_from_orchestrator"
  {
  }

  lemma WorkaroundName()
    ensures "run_" + "workaround_subagent" + "_from_orchestrator" == "run_workaround_subagent_from_orchestrator"
  {
  }

  lemma CriticName()
    ensures "run_" + "qa_critic" + "_from_orchestrator" == "run_qa_critic_from_orchestrator"
  {
  }

  /** Every such name is that of a graph node, and is none itself. */
  lemma AliasesAreNodes(name: string)
    requires name in NODE_ALIASES
    ensures NODE_ALIASES[name] in GRAPH_NODES && name !in GRAPH_NODES
  {
  }

  predicate IsTriageStep(name: string) {
    name in {"triage.pipeline", "triage.grouping", "triage.reachability"}
  }

  /** The deterministic steps are the three of triage. */
  lemma TriageStepsExactly(name: string)
    ensures IsTriageStep(name) <==> exists step :: step in {"pipeline", "grouping", "reachability"} && name == "triage." + step
  {
    assert "triage.pipeline" == "triage." + "pipeline";
    assert "triage.grouping" == "triage." + "grouping";
    assert "triage.reachability" == "triage." + "reachability";
  }

  /** Spans of the sandbox and tool spans are told by their names, or their type; a tool is shown without
      the prefix. */
  lemma NamesTell(name: string, rest: string, toolType: bool)
    ensures IsSandbox("docker_sandbox") && IsSandbox("docker_sandbox." + rest)
    ensures IsSandbox(name) ==> name == "docker_sandbox" || exists r :: name == "docker_sandbox." + r
    ensures IsTool(name, true) && IsTool("tool." + rest, toolType) && ToolName("tool." + rest) == rest
    ensures IsTool(name, false) ==> name == "tool." + ToolName(name)
    ensures !IsTool(name, false) ==> ToolName(name) == name
  {
    assert ("tool." + rest)[5..] == rest;
    if IsSandbox(name) && name != "docker_sandbox" { assert name == "docker_sandbox." + name[15..]; }
  }

  function ActiveTools(active: Spans): set<string> {
    set r | r in active && active[r].ToolSpan?
  }

  function ActiveNodeNames(active: Spans): set<string> {
    set r | r in active && active[r].NodeSpan? :: active[r].name
  }

  predicate IsSandbox(name: string) {
    "docker_sandbox." <= name || name == "docker_sandbox"
  }

  predicate IsTool(name: string, toolType: bool) {
    toolType || "tool." <= name
  }

  function ToolName(name: string): string {
    if "tool." <= name then name[5..] else name
  }

  predicate IsTerminal(s: Status) {
    s.Success? || s.Error? || s.Incomplete?
  }

  // ---------------------------------------------------------------- rows and spans

  // The row of an active tool.
  ghost predicate IsRunningRow(log: Log, id: string) {
    exists i :: 0 <= i < |log| && log[i].id == id && log[i].status.Running? && log[i].category.ToolCall?
  }

  ghost predicate ToolsHaveRows(log: Log, active: Spans) {
    forall r :: r in active && active[r].ToolSpan? ==> IsRunningRow(log, active[r].eventId)
  }

  ghost predicate RowsHaveTools(log: Log, active: Spans) {
    forall i :: 0 <= i < |log| && log[i].status.Running? ==>
      exists r :: r in active && active[r].ToolSpan? && active[r].eventId == log[i].id
  }

  ghost predicate DistinctRows(active: Spans) {
    forall r, q :: r in active && q in active && active[r].ToolSpan? && active[q].ToolSpan? && r != q ==>
      active[r].eventId != active[q].eventId
  }

  ghost predicate DistinctNodes(active: Spans) {
    forall r, q :: r in active && q in active && active[r].NodeSpan? && active[q].NodeSpan? && r != q ==>
      active[r].name != active[q].name
  }

  /** Running rows and active visible tools correspond one to one, and no graph node is open
      twice. */
  ghost predicate Paired(log: Log, active: Spans) {
    && UniqueIds(log)
    && ToolsHaveRows(log, active) && RowsHaveTools(log, active)
    && DistinctRows(active) && DistinctNodes(active)
  }

  /** Rows are only added, except that a running row may turn into its terminal outcome; so a row
      gets at most one outcome and keeps its place, id and timestamp. */
  ghost predicate Progress(before: Log, after: Log) {
    && |before| <= |after|
    && forall i :: 0 <= i < |before| ==>
         after[i] == before[i]
         || (before[i].status.Running? && IsTerminal(after[i].status)
             && after[i].id == before[i].id && after[i].timestamp == before[i].timestamp)
  }

  lemma ProgressTransitive(a: Log, b: Log, c: Log)
    requires Progress(a, b) && Progress(b, c)
    ensures Progress(a, c)
    ensures forall i :: 0 <= i < |a| && IsTerminal(b[i].status) ==> c[i] == b[i]
  {
  }

  // Rows that were running are incomplete, with a text; all others are as they were.
  ghost predicate SweptRows(before: Log, after: Log, text: string) {
    && |after| == |before|
    && forall i :: 0 <= i < |before| ==>
         after[i] == before[i] || (before[i].status.Running? && after[i].status == Incomplete && after[i].outcome == Some(text)
                                   && after[i].id == before[i].id && after[i].timestamp == before[i].timestamp)
  }

  lemma SweptTransitive(a: Log, b: Log, c: Log, text: string)
    requires SweptRows(a, b, text) && SweptRows(b, c, text)
    ensures SweptRows(a, c, text)
  {
  }

  /** A tool's row shows its name, arguments and task. */
  lemma ToolRowShows(span: Span, status: Status, outcome: Option<string>)
    requires span.ToolSpan?
    ensures var row := ToolRow(span, status, outcome);
            && row.id == span.eventId && row.category == ToolCall && row.title == "Tool: " + span.name
            && row.details == "Args: " + span.arguments && row.taskLabel == span.taskLabel
            && row.status == status && row.outcome == outcome
  {
  }

  lemma NewId(log: Log, e: Event)
    requires IndexOf(log, e.id) == |log|
    ensures Upsert(log, e) == log + [e] && forall i :: 0 <= i < |log| ==> log[i].id != e.id
  {
  }

  lemma PairedAppendPlain(log: Log, active: Spans, e: Event)
    requires UniqueIds(log) && IndexOf(log, e.id) == |log| && !e.status.Running?
    ensures Paired(Upsert(log, e), active) <==> Paired(log, active)
    ensures UniqueIds(Upsert(log, e)) && Progress(log, Upsert(log, e))
  {
    NewId(log, e);
    UpsertUnique(log, e);
    forall id ensures IsRunningRow(log + [e], id) <==> IsRunningRow(log, id) {
      if IsRunningRow(log, id) { KeepsRunning(log, e, id); }
      if IsRunningRow(log + [e], id) {
        var i :| 0 <= i < |log + [e]| && (log + [e])[i].id == id && (log + [e])[i].status.Running? && (log + [e])[i].category.ToolCall?;
        assert log[i] == (log + [e])[i];
      }
    }
    RowsHaveToolsPlain(log, active, e);
  }

  lemma RowsHaveToolsPlain(log: Log, active: Spans, e: Event)
    requires !e.status.Running?
    ensures RowsHaveTools(log + [e], active) <==> RowsHaveTools(log, active)
  {
    var next := log + [e];
    assert next[|log|] == e && forall i :: 0 <= i < |log| ==> next[i] == log[i];
    if RowsHaveTools(next, active) {
      forall i | 0 <= i < |log| && log[i].status.Running?
        ensures exists r :: r in active && active[r].ToolSpan? && active[r].eventId == log[i].id
      {
        assert next[i] == log[i];
      }
    }
  }

  lemma KeepsRunning(log: Log, e: Event, id: string)
    requires IsRunningRow(log, id)
    ensures IsRunningRow(log + [e], id)
  {
    var i :| 0 <= i < |log| && log[i].id == id && log[i].status.Running? && log[i].category.ToolCall?;
    assert (log + [e])[i] == log[i];
  }

  // The run id is that of an active visible tool.
  predicate TracksTool(active: Spans, runId: string) {
    runId in active && active[runId].ToolSpan?
  }

  lemma RowsHaveToolsStart(log: Log, active: Spans, runId: string, e: Event, span: Span)
    requires RowsHaveTools(log, active) && !TracksTool(active, runId) && span.ToolSpan? && span.eventId == e.id
    ensures RowsHaveTools(log + [e], active[runId := span])
  {
    var next, spans := log + [e], active[runId := span];
    forall i | 0 <= i < |next| && next[i].status.Running?
      ensures exists r :: r in spans && spans[r].ToolSpan? && spans[r].eventId == next[i].id
    {
      if i < |log| {
        var r :| r in active && active[r].ToolSpan? && active[r].eventId == log[i].id;
        assert r in spans && spans[r] == active[r];
      } else {
        assert spans[runId] == span;
      }
    }
  }

  lemma ToolsHaveRowsStart(log: Log, active: Spans, runId: string, e: Event, span: Span)
    requires ToolsHaveRows(log, active) && DistinctRows(active) && !TracksTool(active, runId) && IndexOf(log, e.id) == |log|
    requires e.status.Running? && e.category.ToolCall? && span.ToolSpan? && span.eventId == e.id
    ensures ToolsHaveRows(log + [e], active[runId := span]) && DistinctRows(active[runId := span])
  {
    assert (log + [e])[|log|] == e;
    forall r | r in active && active[r].ToolSpan?
      ensures IsRunningRow(log + [e], active[r].eventId) && active[r].eventId != e.id
    {
      KeepsRunning(log, e, active[r].eventId);
    }
  }

  lemma PairedStartTool(log: Log, active: Spans, runId: string, e: Event, span: Span)
    requires Paired(log, active) && !TracksTool(active, runId) && IndexOf(log, e.id) == |log|
    requires e.status.Running? && e.category.ToolCall? && span.ToolSpan? && span.eventId == e.id
    ensures Paired(Upsert(log, e), active[runId := span]) && Progress(log, Upsert(log, e))
  {
    NewId(log, e);
    ToolsHaveRowsStart(log, active, runId, e, span);
    RowsHaveToolsStart(log, active, runId, e, span);
  }

  lemma PairedStartOther(log: Log, active: Spans, runId: string, span: Span)
    requires Paired(log, active) && !TracksTool(active, runId) && !span.ToolSpan?
    requires span.NodeSpan? ==> span.name !in ActiveNodeNames(active)
    ensures Paired(log, active[runId := span])
  {
    var spans := active[runId := span];
    forall i | 0 <= i < |log| && log[i].status.Running?
      ensures exists r :: r in spans && spans[r].ToolSpan? && spans[r].eventId == log[i].id
    {
      var r :| r in active && active[r].ToolSpan? && active[r].eventId == log[i].id;
      assert r in spans && spans[r] == active[r];
    }
  }

  function Without(active: Spans, runId: string): (r: Spans)
    ensures r.Keys == active.Keys - {runId} && forall q :: q in r ==> r[q] == active[q]
  {
    active - {runId}
  }

  lemma PairedDropOther(log: Log, active: Spans, runId: string)
    requires Paired(log, active) && runId in active && !active[runId].ToolSpan?
    ensures Paired(log, Without(active, runId))
  {
    var spans := Without(active, runId);
    forall i | 0 <= i < |log| && log[i].status.Running?
      ensures exists r :: r in spans && spans[r].ToolSpan? && spans[r].eventId == log[i].id
    {
      var r :| r in active && active[r].ToolSpan? && active[r].eventId == log[i].id;
      assert r in spans && spans[r] == active[r];
    }
  }

  lemma PairedComplete(log: Log, active: Spans, runId: string, e: Event)
    requires Paired(log, active) && runId in active && active[runId].ToolSpan? && e.id == active[runId].eventId
    requires IsTerminal(e.status) && IndexOf(log, e.id) < |log| && e.timestamp == log[IndexOf(log, e.id)].timestamp
    ensures Paired(Upsert(log, e), Without(active, runId)) && Progress(log, Upsert(log, e))
  {
    var next, spans, k := Upsert(log, e), Without(active, runId), IndexOf(log, e.id);
    UpsertUnique(log, e);
    assert log[k].status.Running? by {
      var i :| 0 <= i < |log| && log[i].id == e.id && log[i].status.Running?;
      assert i == k;
    }
    forall r | r in spans && spans[r].ToolSpan?
      ensures IsRunningRow(next, spans[r].eventId)
    {
      var i :| 0 <= i < |log| && log[i].id == spans[r].eventId && log[i].status.Running? && log[i].category.ToolCall?;
      assert i != k && next[i] == log[i];
    }
    forall i | 0 <= i < |next| && next[i].status.Running?
      ensures exists r :: r in spans && spans[r].ToolSpan? && spans[r].eventId == next[i].id
    {
      assert i != k && next[i] == log[i];
      var r :| r in active && active[r].ToolSpan? && active[r].eventId == log[i].id;
      assert r in spans && spans[r] == active[r];
    }
  }

  // ---------------------------------------------------------------- the recorder

  datatype Completion = Ended(outputsFailed: bool) | Raised(message: string) | NeverEnded

  function Outcome(c: Completion): Status {
    match c
    case NeverEnded => Incomplete
    case Raised(_) => Error
    case Ended(failed) => if failed then Error else Success
  }

  function ToolRow(span: Span, status: Status, outcome: Option<string>): Event
    requires span.ToolSpan?
  {
    Event(span.eventId, 0, ToolCall, "Tool: " + span.name, "Args: " + span.arguments, status, outcome, span.taskLabel)
  }

  function PlainRow(id: string, now: int, category: Category, title: string): Event {
    Event(id, now, category, title, "", NoStatus, None, None)
  }

  function StartedRow(id: string, name: string, arguments: string, taskLabel: Option<string>, now: int): Event {
    ToolRow(ToolSpan(name, id, arguments, taskLabel), Running, None).(timestamp := now)
  }

  // The row of a tool with its outcome, under its first timestamp.
  function FinishedRow(log: Log, span: Span, completion: Completion, outcome: string): Event
    requires span.ToolSpan?
  {
    var k := IndexOf(log, span.eventId);
    ToolRow(span, Outcome(completion), Some(outcome)).(timestamp := if k < |log| then log[k].timestamp else 0)
  }

  // The spans that the final sweep leaves open.
  predicate IsKept(span: Span) {
    span.NodeSpan? || span.DetSpan?
  }

  ghost function StillOpen(active: Spans, done: seq<string>): Spans {
    map r | r in active && (r !in done || IsKept(active[r])) :: active[r]
  }

  lemma StillOpenStep(active: Spans, order: seq<string>, n: nat)
    requires n < |order| && order[n] in active && forall i, j :: 0 <= i < j < |order| ==> order[i] != order[j]
    ensures var before, runId := StillOpen(active, order[..n]), order[n];
            && runId in before && before[runId] == active[runId]
            && StillOpen(active, order[..n + 1]) == if IsKept(active[runId]) then before else Without(before, runId)
  {
    assert order[..n + 1] == order[..n] + [order[n]];
  }

  lemma RunningIndex(log: Log, id: string)
    requires IsRunningRow(log, id) && UniqueIds(log)
    ensures IndexOf(log, id) < |log| && log[IndexOf(log, id)].status.Running?
  {
    var i :| 0 <= i < |log| && log[i].id == id && log[i].status.Running? && log[i].category.ToolCall?;
  }

  lemma SameIds(before: Log, after: Log, id: string)
    requires Progress(before, after) && |before| == |after| && IndexOf(before, id) == |before|
    ensures IndexOf(after, id) == |after|
  {
  }

  /** A run id reused while its tool is active orphans the tool's row: no span is left to give it an
      outcome. */
  lemma ReusedRunIdOrphansRow(log: Log, active: Spans, runId: string, span: Span, next: Log)
    requires Paired(log, active) && TracksTool(active, runId) && IsRunningRow(next, active[runId].eventId)
    requires span.ToolSpan? ==> span.eventId != active[runId].eventId
    ensures !RowsHaveTools(next, active[runId := span])
  {
    var spans, id := active[runId := span], active[runId].eventId;
    var i :| 0 <= i < |next| && next[i].id == id && next[i].status.Running? && next[i].category.ToolCall?;
    forall r | r in spans && spans[r].ToolSpan? ensures spans[r].eventId != next[i].id {
      if r != runId { assert active[r].eventId != active[runId].eventId; }
    }
  }

  /** A span without a row may open under any run id, used or not, if and only if the id is not that of
      an active visible tool. */
  lemma QuietReuseExactly(log: Log, active: Spans, runId: string, span: Span)
    requires Paired(log, active) && !span.ToolSpan?
    requires span.NodeSpan? ==> span.name !in ActiveNodeNames(active)
    ensures Paired(log, active[runId := span]) <==> !TracksTool(active, runId)
  {
    if TracksTool(active, runId) {
      ReusedRunIdOrphansRow(log, active, runId, span, log);
    } else {
      PairedStartOther(log, active, runId, span);
    }
  }

  /** The same for a visible tool and its new row. */
  lemma ToolReuseExactly(log: Log, active: Spans, runId: string, e: Event, span: Span)
    requires Paired(log, active) && IndexOf(log, e.id) == |log|
    requires e.status.Running? && e.category.ToolCall? && span.ToolSpan? && span.eventId == e.id
    ensures Paired(Upsert(log, e), active[runId := span]) <==> !TracksTool(active, runId)
    ensures UniqueIds(Upsert(log, e)) && Progress(log, Upsert(log, e))
  {
    NewId(log, e);
    UpsertUnique(log, e);
    if TracksTool(active, runId) {
      RunningIndex(log, active[runId].eventId);
      KeepsRunning(log, e, active[runId].eventId);
      ReusedRunIdOrphansRow(log, active, runId, span, log + [e]);
    } else {
      PairedStartTool(log, active, runId, e, span);
    }
  }
}
