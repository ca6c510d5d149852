/** The console log of a run: an upsert log, the replay of events on it, and the session that keeps it
    (demo/backend/engine_bridge.py:243-286, demo/frontend/src/App.tsx:106-124). */
module EventLog {
  import opened Wrappers

  datatype Category = NodeTransition | ToolCall | DeterministicFn | KeyResult

  datatype Status = NoStatus | Running | Success | Error | Incomplete

  datatype Event = Event(id: string, timestamp: int, category: Category, title: string, details: string,
                         status: Status, outcome: Option<string>, taskLabel: Option<string>)

  type Log = seq<Event>

  // Position of the row with an id, or the length.
  function IndexOf(log: Log, id: string): (i: nat)
    ensures i <= |log|
    ensures i < |log| ==> log[i].id == id
    ensures forall j :: 0 <= j < i ==> log[j].id != id
  {
    if log == [] || log[0].id == id then 0 else 1 + IndexOf(log[1..], id)
  }

  // Replace the row with the event's id, or append one.
  function Upsert(log: Log, e: Event): Log {
    var i := IndexOf(log, e.id);
    if i < |log| then log[i := e] else log + [e]
  }

  function Replay(log: Log, events: seq<Event>): Log {
    if events == [] then log else Upsert(Replay(log, events[..|events| - 1]), events[|events| - 1])
  }

  ghost predicate UniqueIds(log: Log) {
    forall i, j :: 0 <= i < j < |log| ==> log[i].id != log[j].id
  }

  lemma IndexFound(log: Log, id: string)
    ensures IndexOf(log, id) < |log| <==> HasId(log, id)
  {
    if IndexOf(log, id) < |log| { assert log[IndexOf(log, id)].id == id; }
  }

  ghost predicate HasId(log: Log, id: string) {
    exists i :: 0 <= i < |log| && log[i].id == id
  }

  lemma UpsertUnique(log: Log, e: Event)
    requires UniqueIds(log)
    ensures UniqueIds(Upsert(log, e))
    ensures forall id :: HasId(Upsert(log, e), id) <==> HasId(log, id) || id == e.id
  {
    var i, next := IndexOf(log, e.id), Upsert(log, e);
    assert next[i] == e;
    assert forall k :: 0 <= k < |log| && k != i ==> next[k] == log[k];
    forall id ensures HasId(next, id) <==> HasId(log, id) || id == e.id {
      if k :| 0 <= k < |log| && log[k].id == id {
        assert next[k].id == id;
      }
    }
  }

  lemma {:induction false} ReplayUnique(log: Log, events: seq<Event>)
    requires UniqueIds(log)
    ensures UniqueIds(Replay(log, events))
    ensures forall id :: HasId(log, id) ==> HasId(Replay(log, events), id)
    ensures forall e :: e in events ==> HasId(Replay(log, events), e.id)
  {
    if events != [] {
      var most, last := events[..|events| - 1], events[|events| - 1];
      assert events == most + [last];
      ReplayUnique(log, most);
      UpsertUnique(Replay(log, most), last);
    }
  }

  lemma {:induction false} ReplayAppend(log: Log, a: seq<Event>, b: seq<Event>)
    ensures Replay(log, a + b) == Replay(Replay(log, a), b)
  {
    if b == [] {
      assert a + b == a;
    } else {
      assert (a + b)[..|a + b| - 1] == a + b[..|b| - 1];
      ReplayAppend(log, a, b[..|b| - 1]);
    }
  }

  // The last event with an id, or a default.
  ghost function LastOf(events: seq<Event>, id: string, default: Event): Event {
    if events == [] then default
    else if events[|events| - 1].id == id then events[|events| - 1]
    else LastOf(events[..|events| - 1], id, default)
  }

  // Events about known rows change rows in place, each to its last event.
  lemma {:induction false} ReplayKnown(log: Log, events: seq<Event>)
    requires UniqueIds(log) && forall e :: e in events ==> HasId(log, e.id)
    ensures |Replay(log, events)| == |log|
    ensures forall i :: 0 <= i < |log| ==>
              Replay(log, events)[i] == LastOf(events, log[i].id, log[i]) && Replay(log, events)[i].id == log[i].id
  {
    if events != [] {
      var most, last := events[..|events| - 1], events[|events| - 1];
      assert events == most + [last];
      ReplayKnown(log, most);
      var mid := Replay(log, most);
      assert HasId(log, last.id);
      var k :| 0 <= k < |log| && log[k].id == last.id;
      assert mid[k].id == last.id;
    }
  }

  // Rows of a log are the last events of their ids in its history.
  lemma {:induction false} RowsAreLast(history: seq<Event>, i: nat, default: Event)
    requires i < |Replay([], history)|
    ensures Replay([], history)[i] == LastOf(history, Replay([], history)[i].id, default)
  {
    if history != [] {
      var most, last := history[..|history| - 1], history[|history| - 1];
      ReplayUnique([], most);
      UpsertUnique(Replay([], most), last);
      var row := Replay([], history)[i];
      if row.id != last.id {
        RowsAreLast(most, i, default);
      }
    }
  }

  lemma {:induction false} LastOfSuffix(history: seq<Event>, j: nat, id: string, row: Event)
    requires j <= |history| && row == LastOf(history, id, row)
    ensures LastOf(history[j..], id, row) == row
    decreases |history|
  {
    if j < |history| && history[|history| - 1].id != id {
      assert history[j..][..|history| - j - 1] == history[..|history| - 1][j..];
      LastOfSuffix(history[..|history| - 1], j, id, row);
    }
  }

  /** A log absorbs any suffix of its own history. */
  lemma {:induction false} ReplayOverlap(history: seq<Event>, j: nat)
    requires j <= |history|
    ensures Replay(Replay([], history), history[j..]) == Replay([], history)
  {
    var log := Replay([], history);
    ReplayUnique([], history);
    assert forall e :: e in history[j..] ==> e in history;
    ReplayKnown(log, history[j..]);
    forall i | 0 <= i < |log|
      ensures Replay(log, history[j..])[i] == log[i]
    {
      RowsAreLast(history, i, log[i]);
      LastOfSuffix(history, j, log[i].id, log[i]);
    }
  }

  lemma OverlapThen(a: seq<Event>, b: seq<Event>, j: nat)
    requires j <= |a|
    ensures Replay(Replay([], a), a[j..] + b) == Replay([], a + b)
  {
    ReplayAppend(Replay([], a), a[j..], b);
    ReplayOverlap(a, j);
    ReplayAppend([], a, b);
  }

  lemma CutAround(history: seq<Event>, j: nat, k: nat)
    requires j <= k <= |history|
    ensures history[j..] == history[..k][j..] + history[k..] && history == history[..k] + history[k..]
  {
  }

  /** A client that takes the log after k events as its snapshot and replays any suffix of the
      history that starts at or before the snapshot ends with exactly the final log. */
  lemma SnapshotReplay(history: seq<Event>, j: nat, k: nat)
    requires j <= k <= |history|
    ensures Replay(Replay([], history[..k]), history[j..]) == Replay([], history)
  {
    CutAround(history, j, k);
    OverlapThen(history[..k], history[k..], j);
  }

  // ---------------------------------------------------------------- the backend

  datatype QueueItem = ConsoleItem(event: Event) | OtherItem | Sentinel

  /** The session fields that the console uses. */
  class RunSession {
    var logs: Log
    var eventQueue: seq<QueueItem>

    constructor ()
      ensures logs == [] && eventQueue == []
    {
      logs, eventQueue := [], [];
    }

    // An empty id counts as none when no row has it.
    static predicate IsUnnamed(eventId: Option<string>) {
      eventId.None? || eventId.value == ""
    }

    function RowOf(eventId: Option<string>): (i: nat)
      reads this
      ensures i <= |logs|
    {
      if eventId.None? then |logs| else IndexOf(logs, eventId.value)
    }

    // The row an event is about to become.
    function Stamped(e: Event, eventId: Option<string>, freshId: string): Event
      reads this
    {
      var i := RowOf(eventId);
      if i < |logs| then e.(id := logs[i].id, timestamp := logs[i].timestamp)
      else e.(id := if IsUnnamed(eventId) then freshId else eventId.value)
    }

    /** Appends a row or replaces the row with the given id, in place and under its first
        timestamp, and queues the same event. The new id is unused, as a random one is. */
    method EmitConsole(draft: Event, eventId: Option<string>, freshId: string) returns (event: Event)
      requires UniqueIds(logs) && IndexOf(logs, freshId) == |logs|
      modifies this
      ensures event == old(Stamped(draft, eventId, freshId))
      ensures eventId.Some? && HasId(old(logs), eventId.value) ==>
                exists k :: 0 <= k < |old(logs)| && old(logs)[k].id == eventId.value
                  && event == draft.(id := eventId.value, timestamp := old(logs)[k].timestamp)
      ensures eventId.Some? && eventId.value != "" && !HasId(old(logs), eventId.value) ==> event == draft.(id := eventId.value)
      ensures eventId.None? || (eventId.value == "" && !HasId(old(logs), "")) ==> event == draft.(id := freshId)
      ensures logs == Upsert(old(logs), event) && eventQueue == old(eventQueue) + [ConsoleItem(event)]
      ensures UniqueIds(logs)
    {
      UpsertUnique(logs, Stamped(draft, eventId, freshId));
      if eventId.Some? { IndexFound(logs, eventId.value); }
      var existing := RowOf(eventId);
      if existing == |logs| {
        event := draft.(id := if IsUnnamed(eventId) then freshId else eventId.value);
        logs := logs + [event];
      } else {
        event := draft.(id := eventId.value, timestamp := logs[existing].timestamp);
        logs := logs[existing := event];
      }
      eventQueue := eventQueue + [ConsoleItem(event)];
    }

    method EmitOther()
      modifies this
      ensures logs == old(logs) && eventQueue == old(eventQueue) + [OtherItem]
    {
      eventQueue := eventQueue + [OtherItem];
    }
  }
}
