/** The log and its copies in browsers: a snapshot on connection, then events from one queue that
    overlaps the snapshot (demo/backend/main.py:234-268, demo/frontend/src/App.tsx:106-124). */
module QueueReaders {
  import opened Wrappers
  import opened EventLog

  /** The log, the queue, the copies of the connected readers, and all console events so far. */
  datatype System = System(log: Log, queue: seq<QueueItem>, clients: map<nat, Log>, history: seq<Event>)

  datatype Action = Emit(event: Event) | Signal(item: QueueItem) | Connect(reader: nat) | Deliver(reader: nat) | Drop(reader: nat)

  function ConsoleEvents(queue: seq<QueueItem>): seq<Event> {
    if queue == [] then [] else
      ConsoleEvents(queue[..|queue| - 1]) + match queue[|queue| - 1]
        case ConsoleItem(e) => [e]
        case _ => []
  }

  predicate Enabled(s: System, a: Action) {
    match a
    case Emit(_) => true
    case Signal(item) => !item.ConsoleItem?
    case Connect(_) => true
    case Deliver(r) => s.queue != [] && r in s.clients
    case Drop(_) => s.queue != []
  }

  // Connect takes the snapshot; Deliver hands a reader the next item of the one queue; Drop loses an
  // item with the connection of the reader that took it.
  function Next(s: System, a: Action): System
    requires Enabled(s, a)
  {
    match a
    case Emit(e) => s.(log := Upsert(s.log, e), queue := s.queue + [ConsoleItem(e)], history := s.history + [e])
    case Signal(item) => s.(queue := s.queue + [item])
    case Connect(r) => s.(clients := s.clients[r := s.log])
    case Deliver(r) =>
      var rest := s.(queue := s.queue[1..]);
      (match s.queue[0]
       case ConsoleItem(e) => rest.(clients := s.clients[r := Upsert(s.clients[r], e)])
       case _ => rest)
    case Drop(r) => s.(queue := s.queue[1..], clients := s.clients - {r})
  }

  // Only readers below n take part.
  predicate Within(a: Action, n: nat) {
    match a
    case Connect(r) => r < n
    case Deliver(r) => r < n
    case Drop(r) => r < n
    case _ => true
  }

  // The queued console events are the end of the history that produced the log.
  ghost predicate Tracked(log: Log, events: seq<Event>, history: seq<Event>) {
    log == Replay([], history) && |events| <= |history| && events == history[|history| - |events|..]
  }

  // What is still queued would bring the first reader up to date.
  ghost predicate CatchingUp(clients: map<nat, Log>, events: seq<Event>, log: Log) {
    0 in clients ==> Replay(clients[0], events) == log
  }

  ghost predicate Synced(s: System) {
    && s.clients.Keys <= {0}
    && Tracked(s.log, ConsoleEvents(s.queue), s.history) && CatchingUp(s.clients, ConsoleEvents(s.queue), s.log)
  }

  lemma {:induction false} ConsoleEventsAppend(a: seq<QueueItem>, b: seq<QueueItem>)
    ensures ConsoleEvents(a + b) == ConsoleEvents(a) + ConsoleEvents(b)
  {
    if b == [] {
      assert a + b == a;
    } else {
      assert (a + b)[..|a + b| - 1] == a + b[..|b| - 1];
      ConsoleEventsAppend(a, b[..|b| - 1]);
    }
  }

  lemma SyncedEmit(s: System, e: Event)
    requires Synced(s)
    ensures Synced(Next(s, Emit(e)))
  {
    var events, next := ConsoleEvents(s.queue), Next(s, Emit(e));
    ConsoleEventsAppend(s.queue, [ConsoleItem(e)]);
    assert ConsoleEvents([ConsoleItem(e)]) == [e];
    assert next.history[|next.history| - |events + [e]|..] == s.history[|s.history| - |events|..] + [e];
    OneMore([], s.history, e);
    if 0 in s.clients {
      OneMore(s.clients[0], events, e);
    }
  }

  lemma OneMore(log: Log, events: seq<Event>, e: Event)
    ensures Replay(log, events + [e]) == Upsert(Replay(log, events), e)
  {
    assert (events + [e])[..|events|] == events;
  }

  // The console event a queue begins with, if it does.
  function FirstEvent(queue: seq<QueueItem>): seq<Event>
    requires queue != []
  {
    match queue[0]
    case ConsoleItem(e) => [e]
    case _ => []
  }

  lemma PopEvents(queue: seq<QueueItem>)
    requires queue != []
    ensures ConsoleEvents(queue) == FirstEvent(queue) + ConsoleEvents(queue[1..])
  {
    assert queue == [queue[0]] + queue[1..];
    ConsoleEventsAppend([queue[0]], queue[1..]);
    assert ConsoleEvents([queue[0]]) == FirstEvent(queue);
  }

  lemma TrackedTail(log: Log, first: seq<Event>, rest: seq<Event>, history: seq<Event>)
    requires Tracked(log, first + rest, history)
    ensures Tracked(log, rest, history)
  {
    assert (first + rest)[|first|..] == rest;
  }

  lemma DeliverFirst(client: Log, e: Event, rest: seq<Event>)
    ensures Replay(Upsert(client, e), rest) == Replay(client, [e] + rest)
  {
    ReplayAppend(client, [e], rest);
    OneMore(client, [], e);
    assert [] + [e] == [e];
  }

  lemma PopTracked(s: System)
    requires Synced(s) && s.queue != []
    ensures Tracked(s.log, ConsoleEvents(s.queue[1..]), s.history)
  {
    PopEvents(s.queue);
    TrackedTail(s.log, FirstEvent(s.queue), ConsoleEvents(s.queue[1..]), s.history);
  }

  lemma SyncedDrop(s: System)
    requires Synced(s) && Enabled(s, Drop(0))
    ensures Synced(Next(s, Drop(0)))
  {
    PopTracked(s);
  }

  // What a reader has after the head of the queue is what the rest brings up to date.
  lemma CatchUpPop(client: Log, queue: seq<QueueItem>, log: Log)
    requires queue != [] && Replay(client, ConsoleEvents(queue)) == log
    ensures Replay(if queue[0].ConsoleItem? then Upsert(client, queue[0].event) else client, ConsoleEvents(queue[1..])) == log
  {
    PopEvents(queue);
    match queue[0]
    case ConsoleItem(e) => DeliverFirst(client, e, ConsoleEvents(queue[1..]));
    case _ => assert [] + ConsoleEvents(queue[1..]) == ConsoleEvents(queue[1..]);
  }

  lemma SyncedDeliver(s: System)
    requires Synced(s) && Enabled(s, Deliver(0))
    ensures Synced(Next(s, Deliver(0)))
  {
    PopTracked(s);
    CatchUpPop(s.clients[0], s.queue, s.log);
  }

  lemma SyncedSignal(s: System, item: QueueItem)
    requires Synced(s) && !item.ConsoleItem?
    ensures Synced(Next(s, Signal(item)))
  {
    ConsoleEventsAppend(s.queue, [item]);
    assert ConsoleEvents([item]) == [];
  }

  lemma SyncedConnect(s: System)
    requires Synced(s)
    ensures Synced(Next(s, Connect(0)))
  {
    ReplayOverlap(s.history, |s.history| - |ConsoleEvents(s.queue)|);
  }

  lemma SyncedReader(s: System, a: Action)
    requires Synced(s) && Enabled(s, a) && a in {Connect(0), Deliver(0), Drop(0)}
    ensures Synced(Next(s, a))
  {
    match a
    case Connect(_) => SyncedConnect(s);
    case Deliver(_) => SyncedDeliver(s);
    case Drop(_) => SyncedDrop(s);
  }

  lemma SyncedStep(s: System, a: Action)
    requires Synced(s) && Enabled(s, a) && Within(a, 1)
    ensures Synced(Next(s, a))
  {
    if a.Emit? { SyncedEmit(s, a.event); }
    else if a.Signal? { SyncedSignal(s, a.item); }
    else { SyncedReader(s, a); }
  }

  // Each action of a run of readers below n is enabled when its turn comes.
  ghost predicate RunBy(n: nat, s: System, actions: seq<Action>)
    decreases |actions|
  {
    actions == [] || (Enabled(s, actions[0]) && Within(actions[0], n) && RunBy(n, Next(s, actions[0]), actions[1..]))
  }

  ghost function RunOf(n: nat, s: System, actions: seq<Action>): System
    requires RunBy(n, s, actions)
    decreases |actions|
  {
    if actions == [] then s else RunOf(n, Next(s, actions[0]), actions[1..])
  }

  const INITIAL := System([], [], map[], [])

  lemma {:induction false} SyncedRun(n: nat, s: System, actions: seq<Action>)
    requires n <= 1 && Synced(s) && RunBy(n, s, actions)
    ensures Synced(RunOf(n, s, actions))
    decreases |actions|
  {
    if actions != [] {
      SyncedStep(s, actions[0]);
      SyncedRun(n, Next(s, actions[0]), actions[1..]);
    }
  }

  // Every connected reader shows the log.
  ghost predicate Converged(s: System) {
    forall r :: r in s.clients ==> s.clients[r] == s.log
  }

  // Whatever happened, once no console event is queued, every connected reader shows the log.
  ghost predicate Converges(n: nat) {
    forall actions | RunBy(n, INITIAL, actions) ::
      ConsoleEvents(RunOf(n, INITIAL, actions).queue) == [] ==> Converged(RunOf(n, INITIAL, actions))
  }

  /** With at most one reader of the queue, whenever a connected browser has caught up with it, however
      often it reconnected and whatever was lost in between, its rows are the backend's. */
  lemma ClientConverges(n: nat, actions: seq<Action>)
    requires n <= 1 && RunBy(n, INITIAL, actions)
    ensures var s := RunOf(n, INITIAL, actions); ConsoleEvents(s.queue) == [] ==> Converged(s)
  {
    SyncedRun(n, INITIAL, actions);
  }

  lemma RunNone(n: nat, s: System)
    ensures RunBy(n, s, []) && RunOf(n, s, []) == s
  {
  }

  // A run from its first action.
  lemma RunCons(n: nat, s: System, a: Action, rest: seq<Action>)
    requires Enabled(s, a) && Within(a, n) && RunBy(n, Next(s, a), rest)
    ensures RunBy(n, s, [a] + rest) && RunOf(n, s, [a] + rest) == RunOf(n, Next(s, a), rest)
  {
    assert ([a] + rest)[1..] == rest;
  }

  /** Two readers connect, one event comes, and the first reader takes it: the queue is drained and the
      second reader never sees the event. */
  lemma TwoReadersDiverge(n: nat, e: Event)
    requires n >= 2
    ensures var actions := [Connect(0)] + ([Connect(1)] + ([Emit(e)] + ([Deliver(0)] + [])));
            && RunBy(n, INITIAL, actions)
            && var s := RunOf(n, INITIAL, actions);
               s.queue == [] && s.log == [e] && s.clients == map[0 := [e], 1 := []]
  {
    var one, two := System([], [], map[0 := []], []), System([], [], map[0 := [], 1 := []], []);
    var sent, taken := System([e], [ConsoleItem(e)], map[0 := [], 1 := []], [e]), System([e], [], map[0 := [e], 1 := []], [e]);
    StepsTaken(e, one, two, sent, taken);
    RunNone(n, taken);
    RunCons(n, sent, Deliver(0), []);
    RunCons(n, two, Emit(e), [Deliver(0)] + []);
    RunCons(n, one, Connect(1), [Emit(e)] + ([Deliver(0)] + []));
    RunCons(n, INITIAL, Connect(0), [Connect(1)] + ([Emit(e)] + ([Deliver(0)] + [])));
  }

  // The four states of that run.
  lemma StepsTaken(e: Event, one: System, two: System, sent: System, taken: System)
    requires one == System([], [], map[0 := []], []) && two == System([], [], map[0 := [], 1 := []], [])
    requires sent == System([e], [ConsoleItem(e)], map[0 := [], 1 := []], [e]) && taken == System([e], [], map[0 := [e], 1 := []], [e])
    ensures Next(INITIAL, Connect(0)) == one && Next(one, Connect(1)) == two && Next(two, Emit(e)) == sent
    ensures Enabled(sent, Deliver(0)) && Next(sent, Deliver(0)) == taken
  {
    assert Upsert([], e) == [e];
    assert [ConsoleItem(e)][1..] == [];
  }

  /** The readers of one queue converge in every run if and only if there is at most one of them. */
  lemma ConvergesExactly(n: nat)
    ensures Converges(n) <==> n <= 1
  {
    if n <= 1 {
      forall actions | RunBy(n, INITIAL, actions)
        ensures ConsoleEvents(RunOf(n, INITIAL, actions).queue) == [] ==> Converged(RunOf(n, INITIAL, actions))
      {
        ClientConverges(n, actions);
      }
    } else {
      NotConverging(n, Event("", 0, KeyResult, "", "", NoStatus, None, None));
    }
  }

  lemma NotConverging(n: nat, e: Event)
    requires n >= 2
    ensures !Converges(n)
  {
    var actions := [Connect(0)] + ([Connect(1)] + ([Emit(e)] + ([Deliver(0)] + [])));
    TwoReadersDiverge(n, e);
    var s := RunOf(n, INITIAL, actions);
    assert 1 in s.clients && s.clients[1] != s.log;
    assert RunBy(n, INITIAL, actions) && !Converged(s) && ConsoleEvents(s.queue) == [];
  }
}
