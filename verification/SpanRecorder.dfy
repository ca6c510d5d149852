/** Tool spans and their console rows (demo/backend/engine_bridge.py:162-190, 440-619). */
module SpanRecorder {
  import opened Wrappers
  import opened EventLog
  import opened SpanRules
  import opened SpanRuns
  import Chains = ParentChains

  const NO_COMPLETION := "Tool span ended without a completion event."

  // What the end of a node or a triage step adds to the log.
  function ClosingRows(span: Span, raised: Option<string>, keyResult: Option<string>, freshId: string, now: int): seq<Event> {
    if raised.Some? then [PlainRow(freshId, now, KeyResult, "Failed: " + span.name)]
    else if span.DetSpan? then [PlainRow(freshId, now, DeterministicFn, "Completed: " + span.name)]
    else if keyResult.Some? then [PlainRow(freshId, now, KeyResult, keyResult.value)]
    else []
  }

  // At most one row of another kind more.
  lemma ReachesRows(b: Board, c: Board, log: Log, rows: seq<Event>, active: Spans)
    requires Reaches(b, Board(log, active)) && c == Board(log + rows, active) && |rows| <= 1
    requires rows != [] ==> Allowed(Board(log, active), Plain(rows[0]))
    ensures Reaches(b, c)
  {
    if rows == [] {
      assert log + rows == log;
    } else {
      NewId(log, rows[0]);
      assert rows == [rows[0]];
      ReachesStep(b, Board(log, active), Plain(rows[0]));
    }
  }

  // One step from a board, unless it records over an active tool.
  lemma MaybeStep(b: Board, runId: string, step: Step)
    requires !TracksTool(b.active, runId) ==> Allowed(b, step)
    ensures !TracksTool(b.active, runId) ==> Reaches(b, After(b, step))
  {
    ReachesSelf(b);
    if Allowed(b, step) { ReachesStep(b, b, step); }
  }

  lemma MaybeStepPlain(b: Board, runId: string, span: Span, row: Event)
    requires !TracksTool(b.active, runId) ==> Allowed(b, Quiet(runId, span))
    requires Allowed(b, Plain(row))
    ensures !TracksTool(b.active, runId) ==> Reaches(b, After(After(b, Quiet(runId, span)), Plain(row)))
  {
    MaybeStep(b, runId, Quiet(runId, span));
    if !TracksTool(b.active, runId) { ReachesStep(b, After(b, Quiet(runId, span)), Plain(row)); }
  }

  class Recorder {
    const session: RunSession
    var activeSpans: Spans

    ghost predicate Valid()
      reads this, session
    {
      Paired(session.logs, activeSpans)
    }

    ghost function Now(): Board
      reads this, session
    {
      Board(session.logs, activeSpans)
    }

    constructor (session: RunSession)
      requires session.logs == []
      ensures this.session == session && Now() == EMPTY && Valid()
    {
      this.session, activeSpans := session, map[];
    }

    // A span that shows no row. A reused id of an active visible tool breaks the pairing.
    method OpenQuietly(runId: string, span: Span)
      requires Valid() && !span.ToolSpan?
      requires span.NodeSpan? ==> span.name !in ActiveNodeNames(activeSpans)
      modifies this`activeSpans
      ensures activeSpans == old(activeSpans)[runId := span]
      ensures Valid() <==> !TracksTool(old(activeSpans), runId)
      ensures Now() == After(old(Now()), Quiet(runId, span))
    {
      QuietReuseExactly(session.logs, activeSpans, runId, span);
      activeSpans := activeSpans[runId := span];
    }

    // A visible tool span and its running row.
    method OpenTool(runId: string, name: string, arguments: string, taskLabel: Option<string>, freshId: string, now: int)
      requires Valid() && IndexOf(session.logs, freshId) == |session.logs|
      modifies this`activeSpans, session
      ensures Valid() <==> !TracksTool(old(activeSpans), runId)
      ensures UniqueIds(session.logs) && Progress(old(session.logs), session.logs)
      ensures activeSpans == old(activeSpans)[runId := ToolSpan(name, freshId, arguments, taskLabel)]
      ensures session.logs == old(session.logs) + [StartedRow(freshId, name, arguments, taskLabel, now)]
      ensures Now() == After(old(Now()), Visible(runId, name, arguments, taskLabel, freshId, now))
    {
      var span := ToolSpan(name, freshId, arguments, taskLabel);
      var row := StartedRow(freshId, name, arguments, taskLabel, now);
      ToolReuseExactly(session.logs, activeSpans, runId, row, span);
      NewId(session.logs, row);
      var event := session.EmitConsole(row, None, freshId);
      activeSpans := activeSpans[runId := ToolSpan(name, event.id, arguments, taskLabel)];
    }

    /** A tool span shows a running row exactly when no active tool lies on its parent chain. */
    method StartTool(runId: string, name: string, arguments: string, taskLabel: Option<string>, parent: Option<string>,
                     spans: map<string, Option<string>>, freshId: string, now: int)
      requires Valid() && IndexOf(session.logs, freshId) == |session.logs|
      modifies this`activeSpans, session
      ensures Valid() <==> !TracksTool(old(activeSpans), runId)
      ensures UniqueIds(session.logs) && Progress(old(session.logs), session.logs)
      ensures exists a :: Chains.FirstHit(spans, Chains.Link(parent), ActiveTools(old(activeSpans)), a) &&
                if a.Some? then activeSpans == old(activeSpans)[runId := NestedSpan(name, a.value)]
                                && session.logs == old(session.logs)
                else activeSpans == old(activeSpans)[runId := ToolSpan(name, freshId, arguments, taskLabel)]
                     && session.logs == old(session.logs) + [StartedRow(freshId, name, arguments, taskLabel, now)]
      ensures !TracksTool(old(activeSpans), runId) ==> Reaches(old(Now()), Now())
    {
      ghost var before := Now();
      ReachesSelf(before);
      var ancestor := Chains.FindOnChain(spans, parent, ActiveTools(activeSpans));
      if ancestor.Some? {
        OpenQuietly(runId, NestedSpan(name, ancestor.value));
        MaybeStep(before, runId, Quiet(runId, NestedSpan(name, ancestor.value)));
      } else {
        OpenTool(runId, name, arguments, taskLabel, freshId, now);
        MaybeStep(before, runId, Visible(runId, name, arguments, taskLabel, freshId, now));
      }
    }

    static ghost predicate OtherStarted(before: Spans, after: Spans, logs: Log, next: Log, runId: string, name: string,
                                        metadataNode: Option<string>, freshId: string, now: int)
    {
      var node := GraphNodeName(name, metadataNode, ActiveNodeNames(before));
      if node.Some? then after == before[runId := NodeSpan(node.value)] && next == logs
      else if IsTriageStep(name) then
        && after == before[runId := DetSpan(name)]
        && next == logs + [PlainRow(freshId, now, DeterministicFn, "Deterministic Execution: " + name)]
      else after == before && next == logs
    }

    // Graph nodes that are not open yet, and the deterministic triage steps.
    method StartOther(runId: string, name: string, metadataNode: Option<string>, freshId: string, now: int)
      requires Valid() && IndexOf(session.logs, freshId) == |session.logs|
      modifies this`activeSpans, session
      ensures Valid() <==> !TracksTool(old(activeSpans), runId) || activeSpans == old(activeSpans)
      ensures UniqueIds(session.logs) && Progress(old(session.logs), session.logs)
      ensures OtherStarted(old(activeSpans), activeSpans, old(session.logs), session.logs, runId, name, metadataNode, freshId, now)
      ensures !TracksTool(old(activeSpans), runId) ==> Reaches(old(Now()), Now())
    {
      ghost var before := Now();
      ReachesSelf(before);
      var node := GraphNodeName(name, metadataNode, ActiveNodeNames(activeSpans));
      if node.Some? {
        OpenQuietly(runId, NodeSpan(node.value));
        MaybeStep(before, runId, Quiet(runId, NodeSpan(node.value)));
        session.EmitOther();
      } else if IsTriageStep(name) {
        OpenQuietly(runId, DetSpan(name));
        MaybeStep(before, runId, Quiet(runId, DetSpan(name)));
        EmitPlain(DeterministicFn, "Deterministic Execution: " + name, freshId, now);
        MaybeStepPlain(before, runId, DetSpan(name), PlainRow(freshId, now, DeterministicFn, "Deterministic Execution: " + name));
      }
    }

    /** Opens a span; sandbox spans and spans below an active tool show nothing. A span that is recorded
        under the run id of an active visible tool, and nothing else, breaks the pairing. */
    method HandleSpanStart(runId: string, name: string, toolType: bool, arguments: string, taskLabel: Option<string>,
                           metadataNode: Option<string>, parentRunId: Option<string>,
                           spans: map<string, Option<string>>, freshId: string, now: int)
      requires Valid() && IndexOf(session.logs, freshId) == |session.logs|
      modifies this`activeSpans, session
      ensures Valid() <==> !TracksTool(old(activeSpans), runId) || activeSpans == old(activeSpans)
      ensures UniqueIds(session.logs) && Progress(old(session.logs), session.logs)
      ensures !IsSandbox(name) && !IsTool(name, toolType) ==>
                OtherStarted(old(activeSpans), activeSpans, old(session.logs), session.logs, runId, name, metadataNode, freshId, now)
      ensures IsSandbox(name) ==> activeSpans == old(activeSpans)[runId := SandboxSpan(name)] && session.logs == old(session.logs)
      ensures !IsSandbox(name) && IsTool(name, toolType) ==>
                exists a :: Chains.FirstHit(spans, StartOf(runId, parentRunId, spans), ActiveTools(old(activeSpans)), a) &&
                  if a.Some? then activeSpans == old(activeSpans)[runId := NestedSpan(ToolName(name), a.value)]
                                  && session.logs == old(session.logs)
                  else activeSpans == old(activeSpans)[runId := ToolSpan(ToolName(name), freshId, arguments, taskLabel)]
                       && session.logs == old(session.logs) + [StartedRow(freshId, ToolName(name), arguments, taskLabel, now)]
      ensures !TracksTool(old(activeSpans), runId) ==> Reaches(old(Now()), Now())
    {
      var parent := parentRunId;
      if parent.None? && runId in spans && Chains.Link(spans[runId]).Some? {
        parent := spans[runId];
      }
      if IsSandbox(name) {
        ghost var before := Now();
        OpenQuietly(runId, SandboxSpan(name));
        MaybeStep(before, runId, Quiet(runId, SandboxSpan(name)));
      } else if IsTool(name, toolType) {
        StartTool(runId, ToolName(name), arguments, taskLabel, parent, spans, freshId, now);
      } else {
        StartOther(runId, name, metadataNode, freshId, now);
      }
    }

    // Where the ancestor walk starts: the given parent, or the recorded one.
    static function StartOf(runId: string, parentRunId: Option<string>, spans: map<string, Option<string>>):
      Option<string>
    {
      if parentRunId.None? && runId in spans then Chains.Link(spans[runId]) else Chains.Link(parentRunId)
    }

    method EmitPlain(category: Category, title: string, freshId: string, now: int)
      requires UniqueIds(session.logs) && IndexOf(session.logs, freshId) == |session.logs|
      modifies session
      ensures Valid() <==> old(Valid())
      ensures UniqueIds(session.logs) && Progress(old(session.logs), session.logs)
      ensures session.logs == old(session.logs) + [PlainRow(freshId, now, category, title)]
      ensures Now() == After(old(Now()), Plain(PlainRow(freshId, now, category, title)))
    {
      var row := PlainRow(freshId, now, category, title);
      PairedAppendPlain(session.logs, activeSpans, row);
      NewId(session.logs, row);
      var event := session.EmitConsole(row, None, freshId);
    }

    // Gives the row of a tool its terminal outcome.
    method CompleteToolSpan(runId: string, completion: Completion, outcome: string, freshId: string)
      requires Valid() && runId in activeSpans && activeSpans[runId].ToolSpan?
      requires IndexOf(session.logs, freshId) == |session.logs|
      modifies this`activeSpans, session
      ensures Valid() && Progress(old(session.logs), session.logs)
      ensures activeSpans == Without(old(activeSpans), runId)
      ensures var k := IndexOf(old(session.logs), old(activeSpans)[runId].eventId);
              k < |old(session.logs)| && old(session.logs)[k].status == Running
              && session.logs == old(session.logs)[k := ToolRow(old(activeSpans)[runId], Outcome(completion), Some(outcome))
                                                          .(timestamp := old(session.logs)[k].timestamp)]
      ensures Now() == After(old(Now()), End(runId, completion, outcome))
    {
      var span := activeSpans[runId];
      var row := ToolRow(span, Outcome(completion), Some(outcome));
      RunningIndex(session.logs, span.eventId);
      ghost var k := IndexOf(session.logs, span.eventId);
      PairedComplete(session.logs, activeSpans, runId, row.(timestamp := session.logs[k].timestamp));
      activeSpans := Without(activeSpans, runId);
      assert session.Stamped(row, Some(span.eventId), freshId) == row.(timestamp := session.logs[k].timestamp);
      var event := session.EmitConsole(row, Some(span.eventId), freshId);
    }

    /** Closes a span: a visible tool's row gets its one outcome, nested and sandbox spans vanish
        silently, nodes and triage steps leave a closing row, an unknown run id changes nothing. */
    method HandleSpanEnd(runId: string, raised: Option<string>, outputsFailed: bool, outcome: string,
                         keyResult: Option<string>, freshId: string, now: int)
      requires Valid() && IndexOf(session.logs, freshId) == |session.logs|
      modifies this`activeSpans, session
      ensures Valid() && Progress(old(session.logs), session.logs)
      ensures activeSpans == Without(old(activeSpans), runId)
      ensures runId !in old(activeSpans) ==> session.logs == old(session.logs)
      ensures runId in old(activeSpans) && (old(activeSpans)[runId].NestedSpan? || old(activeSpans)[runId].SandboxSpan?) ==>
                session.logs == old(session.logs)
      ensures runId in old(activeSpans) && old(activeSpans)[runId].ToolSpan? ==>
                exists k :: 0 <= k < |old(session.logs)| == |session.logs|
                  && old(session.logs)[k].id == old(activeSpans)[runId].eventId
                  && session.logs[k].status == (if raised.Some? || outputsFailed then Error else Success)
                  && session.logs[k].outcome == Some(outcome)
                  && session.logs == old(session.logs)[k := session.logs[k]]
      ensures runId in old(activeSpans) && IsKept(old(activeSpans)[runId]) ==>
                session.logs == old(session.logs) + ClosingRows(old(activeSpans)[runId], raised, keyResult, freshId, now)
      ensures Reaches(old(Now()), Now())
    {
      ghost var before := Now();
      ReachesSelf(before);
      if runId !in activeSpans {
        return;
      }
      var span := activeSpans[runId];
      if span.ToolSpan? {
        var completion := if raised.Some? then Raised(raised.value) else Ended(outputsFailed);
        CompleteToolSpan(runId, completion, outcome, freshId);
        ReachesStep(before, before, End(runId, completion, outcome));
        return;
      }
      DropSpan(runId);
      ReachesStep(before, before, End(runId, NeverEnded, ""));
      if span.NestedSpan? || span.SandboxSpan? {
        return;
      }
      CloseKept(span, raised, keyResult, freshId, now);
      ReachesRows(before, Now(), old(session.logs), ClosingRows(span, raised, keyResult, freshId, now), Without(old(activeSpans), runId));
    }

    // A span without a row vanishes.
    method DropSpan(runId: string)
      requires Valid() && runId in activeSpans && !activeSpans[runId].ToolSpan?
      modifies this`activeSpans
      ensures Valid() && activeSpans == Without(old(activeSpans), runId)
      ensures Now() == After(old(Now()), End(runId, NeverEnded, ""))
    {
      PairedDropOther(session.logs, activeSpans, runId);
      activeSpans := Without(activeSpans, runId);
    }

    // The closing row of a node or a triage step.
    method CloseKept(span: Span, raised: Option<string>, keyResult: Option<string>, freshId: string, now: int)
      requires Valid() && IsKept(span) && IndexOf(session.logs, freshId) == |session.logs|
      modifies session
      ensures Valid() && Progress(old(session.logs), session.logs)
      ensures session.logs == old(session.logs) + ClosingRows(span, raised, keyResult, freshId, now)
    {
      if raised.Some? {
        EmitPlain(KeyResult, "Failed: " + span.name, freshId, now);
      } else if span.NodeSpan? {
        if keyResult.Some? {
          EmitPlain(KeyResult, keyResult.value, freshId, now);
        }
      } else {
        EmitPlain(DeterministicFn, "Completed: " + span.name, freshId, now);
      }
    }

    // One span of the final sweep.
    method FinishSpan(runId: string, freshId: string)
      requires Valid() && runId in activeSpans && IndexOf(session.logs, freshId) == |session.logs|
      modifies this`activeSpans, session
      ensures Valid() && Progress(old(session.logs), session.logs) && IndexOf(session.logs, freshId) == |session.logs|
      ensures activeSpans == if IsKept(old(activeSpans)[runId]) then old(activeSpans) else Without(old(activeSpans), runId)
      ensures SweptRows(old(session.logs), session.logs, NO_COMPLETION)
      ensures IsKept(old(activeSpans)[runId]) ==> Now() == old(Now())
      ensures !IsKept(old(activeSpans)[runId]) ==> Now() == After(old(Now()), End(runId, NeverEnded, NO_COMPLETION))
    {
      var span := activeSpans[runId];
      if span.ToolSpan? {
        ghost var before := session.logs;
        CompleteToolSpan(runId, NeverEnded, NO_COMPLETION, freshId);
        SameIds(before, session.logs, freshId);
      } else if span.NestedSpan? || span.SandboxSpan? {
        DropSpan(runId);
      }
    }

    /** Closes every remaining tool span: afterwards no row is running, and those that were are incomplete. */
    method FinishIncompleteToolSpans(order: seq<string>, freshId: string)
      requires Valid() && IndexOf(session.logs, freshId) == |session.logs|
      requires forall r :: r in order <==> r in activeSpans
      requires forall i, j :: 0 <= i < j < |order| ==> order[i] != order[j]
      modifies this`activeSpans, session
      ensures Valid() && Progress(old(session.logs), session.logs)
      ensures SweptRows(old(session.logs), session.logs, "Tool span ended without a completion event.")
      ensures forall i :: 0 <= i < |session.logs| ==> !session.logs[i].status.Running?
      ensures activeSpans == map r | r in old(activeSpans) && IsKept(old(activeSpans)[r]) :: old(activeSpans)[r]
      ensures Reaches(old(Now()), Now()) && ActiveTools(activeSpans) == {}
    {
      assert StillOpen(activeSpans, order[..0]) == activeSpans;
      ReachesSelf(Now());
      for n := 0 to |order|
        invariant Valid() && Progress(old(session.logs), session.logs) && IndexOf(session.logs, freshId) == |session.logs|
        invariant activeSpans == StillOpen(old(activeSpans), order[..n]) && Reaches(old(Now()), Now())
        invariant SweptRows(old(session.logs), session.logs, NO_COMPLETION)
      {
        StillOpenStep(old(activeSpans), order, n);
        ghost var before := Now();
        FinishSpan(order[n], freshId);
        ProgressTransitive(old(session.logs), before.log, session.logs);
        SweptTransitive(old(session.logs), before.log, session.logs, NO_COMPLETION);
        if !IsKept(before.active[order[n]]) { ReachesStep(old(Now()), before, End(order[n], NeverEnded, NO_COMPLETION)); }
      }
      assert order[..|order|] == order;
    }
  }
}
