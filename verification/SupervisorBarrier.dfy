/** The state barrier before teardown
    (src/remediation_engine/orchestration/_supervisor_execution.py:626-710,
    src/remediation_engine/orchestration/supervisor_routing.py:161-169). */
module SupervisorBarrier {
  import opened Wrappers
  import Text
  import opened SupervisorTasks
  import opened SupervisorValidator
  import opened SupervisorLaws
  import S = Sweeps

  // ---------------------------------------------------------------- parents of spawned tasks

  predicate IsChildOf(t: Task, parent: string) {
    parent != "" && t.parentTaskId == Some(parent)
  }

  function Parents(queue: Queue): set<string> {
    set id | id in queue && queue[id].parentTaskId.Some? && queue[id].parentTaskId.value != "" :: queue[id].parentTaskId.value
  }

  function PivotedTask(t: Task): Task {
    t.(status := Pivoted, attempt := None, input := t.input.(selectedVersion := None), revision := t.revision + 1)
  }

  predicate NeedsPivot(queue: Queue, id: string) {
    id in queue && !queue[id].status.Pivoted?
  }

  // Each parent of a task is pivoted, once.
  function PivotRepaired(queue: Queue, parents: set<string>): Queue {
    map id | id in queue :: if id in parents && NeedsPivot(queue, id) then PivotedTask(queue[id]) else queue[id]
  }

  // The attempt of the first listed child.
  function FirstChildAttempt(queue: Queue, order: seq<string>, parent: string): Option<string> {
    if order == [] then None
    else if order[0] in queue && IsChildOf(queue[order[0]], parent) then queue[order[0]].attempt
    else FirstChildAttempt(queue, order[1..], parent)
  }

  function PivotEvent(queue: Queue, order: seq<string>, parent: string): seq<StateEvent> {
    if NeedsPivot(queue, parent)
    then [StateEvent(PivotParentRepaired, parent, queue[parent].attempt, FirstChildAttempt(queue, order, parent))]
    else []
  }

  function PivotEvents(queue: Queue, order: seq<string>, parents: seq<string>): seq<StateEvent> {
    if parents == [] then [] else
      PivotEvents(queue, order, parents[..|parents| - 1]) + PivotEvent(queue, order, parents[|parents| - 1])
  }

  // ---------------------------------------------------------------- new events and errors

  type Key = (string, Option<string>, Code)

  function KeyOf(e: StateEvent): Key {
    (e.taskId, e.received, e.code)
  }

  function KeysOf(events: seq<StateEvent>): set<Key> {
    set e | e in events :: KeyOf(e)
  }

  function Dedupe(events: seq<StateEvent>): seq<StateEvent> {
    if events == [] then [] else
      var most, last := events[..|events| - 1], events[|events| - 1];
      Dedupe(most) + if KeyOf(last) in KeysOf(most) then [] else [last]
  }

  function Unseen(events: seq<StateEvent>, prior: set<Key>): seq<StateEvent> {
    if events == [] then [] else
      var last := events[|events| - 1];
      Unseen(events[..|events| - 1], prior) + if KeyOf(last) in prior then [] else [last]
  }

  function NewErrors(errors: seq<Error>, prior: seq<Error>): seq<Error> {
    if errors == [] then [] else
      var most, last := errors[..|errors| - 1], errors[|errors| - 1];
      NewErrors(most, prior) + if last in prior || last in most then [] else [last]
  }

  ghost predicate DistinctKeys(events: seq<StateEvent>) {
    forall i, j :: 0 <= i < j < |events| ==> KeyOf(events[i]) != KeyOf(events[j])
  }

  lemma KeysAppend(most: seq<StateEvent>, last: StateEvent)
    ensures KeysOf(most + [last]) == KeysOf(most) + {KeyOf(last)}
  {
    assert last in most + [last];
    assert forall e :: e in most ==> e in most + [last];
  }

  lemma DistinctAppend(kept: seq<StateEvent>, last: StateEvent)
    requires DistinctKeys(kept) && KeyOf(last) !in KeysOf(kept)
    ensures DistinctKeys(kept + [last])
  {
    assert forall i :: 0 <= i < |kept| ==> KeyOf(kept[i]) in KeysOf(kept);
  }

  lemma {:induction false} DedupeKeys(events: seq<StateEvent>)
    ensures KeysOf(Dedupe(events)) == KeysOf(events) && DistinctKeys(Dedupe(events))
  {
    if events != [] {
      var most, last := events[..|events| - 1], events[|events| - 1];
      DedupeKeys(most);
      KeysAppend(most, last);
      assert events == most + [last];
      if KeyOf(last) !in KeysOf(most) {
        KeysAppend(Dedupe(most), last);
        DistinctAppend(Dedupe(most), last);
      }
    }
  }

  lemma {:induction false} UnseenKeys(events: seq<StateEvent>, prior: set<Key>)
    ensures KeysOf(Unseen(events, prior)) == KeysOf(events) - prior
  {
    if events != [] {
      var most, last := events[..|events| - 1], events[|events| - 1];
      UnseenKeys(most, prior);
      KeysAppend(most, last);
      assert events == most + [last];
      if KeyOf(last) in prior {
        assert Unseen(events, prior) == Unseen(most, prior);
      } else {
        KeysAppend(Unseen(most, prior), last);
      }
      assert KeysOf(most) + {KeyOf(last)} - prior == (KeysOf(most) - prior) + ({KeyOf(last)} - prior);
    }
  }

  lemma {:induction false} NewErrorsAre(errors: seq<Error>, prior: seq<Error>)
    ensures forall e :: e in NewErrors(errors, prior) <==> e in errors && e !in prior
  {
    if errors != [] {
      var most, last := errors[..|errors| - 1], errors[|errors| - 1];
      NewErrorsAre(most, prior);
      assert errors == most + [last];
    }
  }

  // ---------------------------------------------------------------- the barrier

  datatype Report = Report(events: seq<StateEvent>, errors: seq<Error>)

  function Teardown(snapshots: Snapshots, digest: string -> string): Context {
    Context(snapshots, [], OtherNode, digest)
  }

  function Barred(st: State, snapshots: Snapshots, digest: string -> string): State {
    Validated(Teardown(snapshots, digest), st.(tasks := PivotRepaired(st.tasks, Parents(st.tasks))))
  }

  function RawEvents(st: State, o: Orders, snapshots: Snapshots, digest: string -> string): seq<StateEvent> {
    PivotEvents(st.tasks, o.tasks, Text.Sorted(Parents(st.tasks)))
    + AllEvents(Teardown(snapshots, digest), st.(tasks := PivotRepaired(st.tasks, Parents(st.tasks))), o)
  }

  function RawErrors(st: State, o: Orders, snapshots: Snapshots, digest: string -> string): seq<Error> {
    AllErrors(Teardown(snapshots, digest), st.(tasks := PivotRepaired(st.tasks, Parents(st.tasks))), o)
  }

  function NewReport(st: State, o: Orders, snapshots: Snapshots, digest: string -> string, prior: Report): Report {
    Report(Unseen(Dedupe(RawEvents(st, o, snapshots, digest)), KeysOf(prior.events)),
           NewErrors(RawErrors(st, o, snapshots, digest), prior.errors))
  }

  ghost predicate IsFirstChild(queue: Queue, order: seq<string>, parent: string, j: nat) {
    && j < |order| && order[j] in queue && IsChildOf(queue[order[j]], parent)
    && forall k :: 0 <= k < j && order[k] in queue ==> !IsChildOf(queue[order[k]], parent)
  }

  lemma {:induction false} FirstChildFound(queue: Queue, order: seq<string>, parent: string, j: nat)
    requires IsFirstChild(queue, order, parent, j)
    ensures FirstChildAttempt(queue, order, parent) == queue[order[j]].attempt
  {
    if j > 0 {
      assert forall k :: 0 <= k < |order| - 1 ==> order[1..][k] == order[k + 1];
      FirstChildFound(queue, order[1..], parent, j - 1);
    }
  }

  // The children listed under a parent begin with the first in queue order.
  ghost predicate Listed(queue: Queue, order: seq<string>, n: nat, parent: string, listed: seq<Task>) {
    listed != [] && exists j :: 0 <= j < n && IsFirstChild(queue, order, parent, j) && listed[0] == queue[order[j]]
  }

  // The children of each parent, in queue order.
  ghost predicate Grouped(queue: Queue, order: seq<string>, n: nat, children: map<string, seq<Task>>) {
    && n <= |order|
    && (forall j, p :: 0 <= j < n && order[j] in queue && IsChildOf(queue[order[j]], p) ==> p in children)
    && (forall p :: p in children ==> Listed(queue, order, n, p, children[p]))
  }

  lemma ListedLater(queue: Queue, order: seq<string>, n: nat, parent: string, listed: seq<Task>, more: seq<Task>)
    requires Listed(queue, order, n, parent, listed)
    ensures Listed(queue, order, n + 1, parent, listed + more)
  {
    var j :| 0 <= j < n && IsFirstChild(queue, order, parent, j) && listed[0] == queue[order[j]];
    assert (listed + more)[0] == listed[0];
  }

  lemma GroupedNext(queue: Queue, order: seq<string>, n: nat, children: map<string, seq<Task>>, grown: map<string, seq<Task>>)
    requires n < |order| && order[n] in queue && Grouped(queue, order, n, children)
    requires var task := queue[order[n]];
             grown == if task.parentTaskId.Some? && task.parentTaskId.value != ""
                      then children[task.parentTaskId.value := ChildrenSoFar(children, task.parentTaskId.value) + [task]]
                      else children
    ensures Grouped(queue, order, n + 1, grown)
  {
    forall p | p in grown ensures Listed(queue, order, n + 1, p, grown[p]) {
      if p in children {
        ListedLater(queue, order, n, p, children[p], if grown[p] == children[p] then [] else [queue[order[n]]]);
        assert children[p] + [] == children[p];
      } else {
        assert IsFirstChild(queue, order, p, n);
      }
    }
  }

  function ChildrenSoFar(children: map<string, seq<Task>>, parent: string): seq<Task> {
    if parent in children then children[parent] else []
  }

  method GroupChildren(queue: Queue, order: seq<string>) returns (children: map<string, seq<Task>>)
    requires S.Lists(order, queue)
    ensures Grouped(queue, order, |order|, children)
  {
    children := map[];
    for i := 0 to |order|
      invariant Grouped(queue, order, i, children)
    {
      var task := queue[order[i]];
      ghost var before := children;
      if task.parentTaskId.Some? && task.parentTaskId.value != "" {
        children := children[task.parentTaskId.value := ChildrenSoFar(children, task.parentTaskId.value) + [task]];
      }
      GroupedNext(queue, order, i, before, children);
    }
  }

  lemma GroupedParents(queue: Queue, order: seq<string>, children: map<string, seq<Task>>)
    requires S.Lists(order, queue) && Grouped(queue, order, |order|, children)
    ensures children.Keys == Parents(queue)
    ensures forall p :: p in children ==> children[p] != [] && children[p][0].attempt == FirstChildAttempt(queue, order, p)
  {
    forall p | p in Parents(queue) ensures p in children {
      var id :| id in queue && queue[id].parentTaskId == Some(p) && p != "";
      assert id in order && IsChildOf(queue[id], p);
    }
    forall p | p in children
      ensures p in Parents(queue) && children[p][0].attempt == FirstChildAttempt(queue, order, p)
    {
      assert Listed(queue, order, |order|, p, children[p]);
      var j :| 0 <= j < |order| && IsFirstChild(queue, order, p, j) && children[p][0] == queue[order[j]];
      FirstChildFound(queue, order, p, j);
      assert queue[order[j]].parentTaskId == Some(p);
    }
  }

  // The loop's step for one parent.
  method PivotParent(repaired: Queue, parent: string, childAttempt: Option<string>) returns (next: Queue, events: seq<StateEvent>)
    ensures next == if NeedsPivot(repaired, parent) then repaired[parent := PivotedTask(repaired[parent])] else repaired
    ensures events == if NeedsPivot(repaired, parent)
                      then [StateEvent(PivotParentRepaired, parent, repaired[parent].attempt, childAttempt)] else []
  {
    if parent !in repaired || repaired[parent].status.Pivoted? {
      return repaired, [];
    }
    var task := repaired[parent];
    return repaired[parent := PivotedTask(task)], [StateEvent(PivotParentRepaired, parent, task.attempt, childAttempt)];
  }

  // Parents in order of their ids.
  method PivotParents(queue: Queue, order: seq<string>) returns (repaired: Queue, events: seq<StateEvent>)
    requires S.Lists(order, queue)
    ensures repaired == PivotRepaired(queue, Parents(queue))
    ensures events == PivotEvents(queue, order, Text.Sorted(Parents(queue)))
  {
    var children := GroupChildren(queue, order);
    GroupedParents(queue, order, children);
    var sorted := Text.Sorted(children.Keys);
    repaired, events := PivotEach(queue, order, sorted, children);
    assert S.KeysOf(sorted) == Parents(queue);
  }

  ghost predicate FirstChildKnown(queue: Queue, order: seq<string>, children: map<string, seq<Task>>, parent: string) {
    && parent in children && children[parent] != []
    && children[parent][0].attempt == FirstChildAttempt(queue, order, parent)
  }

  method PivotEach(queue: Queue, ghost order: seq<string>, parents: seq<string>, children: map<string, seq<Task>>)
    returns (repaired: Queue, events: seq<StateEvent>)
    requires forall i, j :: 0 <= i < j < |parents| ==> parents[i] != parents[j]
    requires forall p :: p in parents ==> FirstChildKnown(queue, order, children, p)
    ensures repaired == PivotRepaired(queue, S.KeysOf(parents)) && events == PivotEvents(queue, order, parents)
  {
    repaired, events := queue, [];
    assert PivotRepaired(queue, {}) == queue;
    for i := 0 to |parents|
      invariant repaired == PivotRepaired(queue, S.KeysOf(parents[..i]))
      invariant events == PivotEvents(queue, order, parents[..i])
    {
      var parent := parents[i];
      PivotStep(queue, S.KeysOf(parents[..i]), parent);
      assert parents[..i + 1][..i] == parents[..i];
      assert S.KeysOf(parents[..i + 1]) == S.KeysOf(parents[..i]) + {parent};
      var more;
      assert FirstChildKnown(queue, order, children, parent);
      repaired, more := PivotParent(repaired, parent, children[parent][0].attempt);
      events := events + more;
    }
    assert parents[..|parents|] == parents;
  }

  lemma PivotStep(queue: Queue, done: set<string>, parent: string)
    requires parent !in done
    ensures var before := PivotRepaired(queue, done);
            && (parent in queue ==> parent in before && before[parent] == queue[parent])
            && (parent !in queue ==> parent !in before)
            && PivotRepaired(queue, done + {parent}) ==
                 if NeedsPivot(queue, parent) then before[parent := PivotedTask(queue[parent])] else before
  {
  }

  /** Applies the barrier to a copy of the state and reports what earlier reports do not contain. */
  method ReconcileBeforeTeardown(st: State, o: Orders, snapshots: Snapshots, digest: string -> string, prior: Report)
    returns (result: State, report: Report)
    requires Enumerates(o, st)
    ensures result == Barred(st, snapshots, digest) && report == NewReport(st, o, snapshots, digest, prior)
  {
    var tasks, pivotEvents := PivotParents(st.tasks, o.tasks);
    var copy := new Projection(st.(tasks := tasks));
    var events, errors := copy.Validate(Teardown(snapshots, digest), o);
    result := copy.Current();
    report := Report(Unseen(Dedupe(pivotEvents + events), KeysOf(prior.events)), NewErrors(errors, prior.errors));
  }

  // ---------------------------------------------------------------- what the barrier leaves

  lemma BarredTask(st: State, snapshots: Snapshots, digest: string -> string, id: string)
    requires id in st.tasks
    ensures var after := Barred(st, snapshots, digest).tasks;
            var pivoted := PivotRepaired(st.tasks, Parents(st.tasks))[id];
            && after.Keys == st.tasks.Keys
            && after[id] == CheckTask(id, pivoted, snapshots, digest).value.value
            && after[id].status == pivoted.status && after[id].parentTaskId == st.tasks[id].parentTaskId
            && (IsTerminal(after[id].status) ==> IsClean(after[id]))
  {
    var pivoted := PivotRepaired(st.tasks, Parents(st.tasks));
    ValidatedKeeps(Teardown(snapshots, digest), st.(tasks := pivoted), id);
    TaskLoopKeeps(id, pivoted[id], snapshots, digest);
  }

  lemma SameParents(a: Queue, b: Queue)
    requires a.Keys == b.Keys && forall id :: id in a ==> a[id].parentTaskId == b[id].parentTaskId
    ensures Parents(a) == Parents(b)
  {
  }

  lemma BarredParents(st: State, snapshots: Snapshots, digest: string -> string)
    ensures Barred(st, snapshots, digest).tasks.Keys == st.tasks.Keys
    ensures Parents(Barred(st, snapshots, digest).tasks) == Parents(st.tasks)
  {
    var after := Barred(st, snapshots, digest).tasks;
    forall id | id in st.tasks ensures after.Keys == st.tasks.Keys && after[id].parentTaskId == st.tasks[id].parentTaskId {
      BarredTask(st, snapshots, digest, id);
    }
    if st.tasks.Keys == {} {
      assert PivotRepaired(st.tasks, Parents(st.tasks)) == map[];
    }
    SameParents(after, st.tasks);
  }

  /** After the barrier every queued parent of a task is pivoted, no terminal task has an attempt, a
      selected version or a retry plan, and no plan is left without its task. */
  lemma BarrierHolds(st: State, snapshots: Snapshots, digest: string -> string, id: string)
    ensures var after := Barred(st, snapshots, digest);
            && (id in after.tasks && id in Parents(after.tasks) ==> after.tasks[id].status.Pivoted?)
            && (id in after.tasks && IsTerminal(after.tasks[id].status) ==> IsClean(after.tasks[id]) && id !in after.plans)
            && (id in after.plans ==> id in after.tasks)
  {
    BarredParents(st, snapshots, digest);
    if id in st.tasks {
      BarredTask(st, snapshots, digest, id);
    }
    var after := Barred(st, snapshots, digest);
    if id in after.plans {
      assert PlanCheck(after.tasks)(id, st.plans[id]).value.Some?;
    }
  }

  // Nothing is left to pivot.
  ghost predicate AllPivoted(queue: Queue) {
    forall id :: id in Parents(queue) ==> !NeedsPivot(queue, id)
  }

  lemma PivotNone(queue: Queue)
    requires AllPivoted(queue)
    ensures PivotRepaired(queue, Parents(queue)) == queue
  {
  }

  lemma BarredPivoted(st: State, snapshots: Snapshots, digest: string -> string)
    ensures AllPivoted(Barred(st, snapshots, digest).tasks)
  {
    var once := Barred(st, snapshots, digest);
    forall id | id in Parents(once.tasks) ensures !NeedsPivot(once.tasks, id) {
      BarrierHolds(st, snapshots, digest, id);
    }
  }

  /** The barrier is a projection on the state. */
  lemma BarredTwice(st: State, snapshots: Snapshots, digest: string -> string)
    ensures var once := Barred(st, snapshots, digest);
            && AllPivoted(once.tasks) && PivotRepaired(once.tasks, Parents(once.tasks)) == once.tasks
            && Barred(once, snapshots, digest) == once
  {
    var once := Barred(st, snapshots, digest);
    BarredPivoted(st, snapshots, digest);
    PivotNone(once.tasks);
    var c := Teardown(snapshots, digest);
    ValidatedTwice(c, c, st.(tasks := PivotRepaired(st.tasks, Parents(st.tasks))));
  }

  lemma {:induction false} NoPivotEvents(queue: Queue, order: seq<string>, parents: seq<string>)
    requires forall id :: id in parents ==> !NeedsPivot(queue, id)
    ensures PivotEvents(queue, order, parents) == []
  {
    if parents != [] {
      NoPivotEvents(queue, order, parents[..|parents| - 1]);
    }
  }

  // The task loop of a second pass repeats reports of the first.
  lemma TaskReportsRepeat(c: Context, queue: Queue, order: seq<string>, again: seq<string>)
    requires S.Lists(order, queue) && S.Lists(again, CheckedTasks(c, queue))
    ensures forall e :: e in S.Events(again, CheckedTasks(c, queue), TaskCheck(c)) ==> e in S.Events(order, queue, TaskCheck(c))
    ensures forall e :: e in S.Errors(again, CheckedTasks(c, queue), TaskCheck(c)) ==> e in S.Errors(order, queue, TaskCheck(c))
  {
    var after := CheckedTasks(c, queue);
    forall e | e in S.Events(again, after, TaskCheck(c)) ensures e in S.Events(order, queue, TaskCheck(c)) {
      S.EventFrom(again, after, TaskCheck(c), e);
      var id :| id in again && id in after && e in TaskCheck(c)(id, after[id]).events;
      TaskLoopTwice(id, queue[id], c.snapshots, c.digest);
      S.EventFrom(order, queue, TaskCheck(c), e);
      assert id in order && id in queue && e in TaskCheck(c)(id, queue[id]).events;
    }
    forall e | e in S.Errors(again, after, TaskCheck(c)) ensures e in S.Errors(order, queue, TaskCheck(c)) {
      S.ErrorFrom(again, after, TaskCheck(c), e);
      var id :| id in again && id in after && e in TaskCheck(c)(id, after[id]).errors;
      TaskLoopTwice(id, queue[id], c.snapshots, c.digest);
      S.ErrorFrom(order, queue, TaskCheck(c), e);
      assert id in order && id in queue && e in TaskCheck(c)(id, queue[id]).errors;
    }
  }

  lemma {:induction false} NoEvents<V, E, R>(order: seq<string>, m: map<string, V>, check: (string, V) -> S.Outcome<V, E, R>)
    requires forall id :: id in m ==> check(id, m[id]).events == []
    ensures S.Events(order, m, check) == []
  {
    if order != [] { NoEvents(order[..|order| - 1], m, check); }
  }

  lemma PlanReportsEmpty(tasks: Queue, plans: map<string, Plan>, order: seq<string>)
    requires forall id :: id in plans ==> PlanCheck(tasks)(id, plans[id]).value.Some?
    ensures S.Events(order, plans, PlanCheck(tasks)) == [] && S.Errors(order, plans, PlanCheck(tasks)) == []
  {
    NoEvents(order, plans, PlanCheck(tasks));
    NoPlanErrors(tasks, plans, order);
  }

  lemma DiagnosticsReportsEmpty(c: Context, tasks: Queue, diagnostics: map<string, Diagnostics>, order: seq<string>)
    requires forall id :: id in diagnostics ==> DiagnosticsCheck(c, tasks)(id, diagnostics[id]).value == Some(diagnostics[id])
    requires c.active == [] && !c.next.UpdateSubagent?
    ensures S.Events(order, diagnostics, DiagnosticsCheck(c, tasks)) == []
    ensures S.Errors(order, diagnostics, DiagnosticsCheck(c, tasks)) == []
  {
    NoEvents(order, diagnostics, DiagnosticsCheck(c, tasks));
    NoErrors(order, diagnostics, DiagnosticsCheck(c, tasks));
  }

  // The other loops of a second pass report nothing at teardown.
  lemma OtherReportsEmpty(c: Context, st: State, o: Orders)
    requires c.active == [] && !c.next.UpdateSubagent?
    ensures var once := Validated(c, st);
            var tasks := CheckedTasks(c, once.tasks);
            && S.Events(o.plans, once.plans, PlanCheck(tasks)) == []
            && S.Events(o.diagnostics, once.diagnostics, DiagnosticsCheck(c, tasks)) == []
            && S.Errors(o.plans, once.plans, PlanCheck(tasks)) == []
            && S.Errors(o.diagnostics, once.diagnostics, DiagnosticsCheck(c, tasks)) == []
  {
    var once := Validated(c, st);
    CheckedTasksTwice(c, st.tasks);
    KeptPassed(c, st);
    PlanReportsEmpty(once.tasks, once.plans, o.plans);
    DiagnosticsReportsEmpty(c, once.tasks, once.diagnostics, o.diagnostics);
  }

  // What a first pass kept, a second one accepts.
  lemma KeptPassed(c: Context, st: State)
    requires c.active == [] && !c.next.UpdateSubagent?
    ensures var once := Validated(c, st);
            && (forall id :: id in once.plans ==> PlanCheck(once.tasks)(id, once.plans[id]).value.Some?)
            && (forall id :: id in once.diagnostics ==>
                  DiagnosticsCheck(c, once.tasks)(id, once.diagnostics[id]).value == Some(once.diagnostics[id]))
  {
    var once := Validated(c, st);
    forall id | id in once.plans ensures PlanCheck(once.tasks)(id, once.plans[id]).value.Some? {
      assert PlanCheck(once.tasks)(id, st.plans[id]).value.Some?;
    }
    forall id | id in once.diagnostics
      ensures DiagnosticsCheck(c, once.tasks)(id, once.diagnostics[id]).value == Some(once.diagnostics[id])
    {
      assert DiagnosticsCheck(c, once.tasks)(id, st.diagnostics[id]).value.Some?;
    }
  }

  lemma RawReportsRepeat(st: State, o: Orders, again: Orders, snapshots: Snapshots, digest: string -> string)
    requires Enumerates(o, st) && Enumerates(again, Barred(st, snapshots, digest))
    ensures var once := Barred(st, snapshots, digest);
            && (forall e :: e in RawEvents(once, again, snapshots, digest) ==> e in RawEvents(st, o, snapshots, digest))
            && (forall e :: e in RawErrors(once, again, snapshots, digest) ==> e in RawErrors(st, o, snapshots, digest))
  {
    var c := Teardown(snapshots, digest);
    var first := st.(tasks := PivotRepaired(st.tasks, Parents(st.tasks)));
    var once := Barred(st, snapshots, digest);
    BarredTwice(st, snapshots, digest);
    NoPivotEvents(once.tasks, again.tasks, Text.Sorted(Parents(once.tasks)));
    TaskReportsRepeat(c, first.tasks, o.tasks, again.tasks);
    OtherReportsEmpty(c, first, again);
  }

  // Events whose keys were all reported are not reported again.
  lemma NothingNew(first: seq<StateEvent>, second: seq<StateEvent>, prior: seq<StateEvent>)
    requires forall e :: e in second ==> e in first
    ensures Unseen(Dedupe(second), KeysOf(prior + Unseen(Dedupe(first), KeysOf(prior)))) == []
  {
    var reported := Unseen(Dedupe(first), KeysOf(prior));
    var seen := KeysOf(prior + reported);
    DedupeKeys(first);
    DedupeKeys(second);
    UnseenKeys(Dedupe(first), KeysOf(prior));
    assert seen == KeysOf(prior) + KeysOf(reported);
    assert KeysOf(second) <= KeysOf(first);
    UnseenKeys(Dedupe(second), seen);
    NothingLeft(Unseen(Dedupe(second), seen));
  }

  lemma NoNewError(first: seq<Error>, second: seq<Error>, prior: seq<Error>)
    requires forall e :: e in second ==> e in first
    ensures NewErrors(second, prior + NewErrors(first, prior)) == []
  {
    var seen := prior + NewErrors(first, prior);
    NewErrorsAre(first, prior);
    NewErrorsAre(second, seen);
    MemberOrEmpty(NewErrors(second, seen));
  }

  /** The barrier converges: applied again to its own result, with its reports among the earlier ones
      and in any iteration order, it changes nothing and reports nothing new. */
  lemma BarrierConverges(st: State, o: Orders, again: Orders, snapshots: Snapshots, digest: string -> string, prior: Report)
    requires Enumerates(o, st) && Enumerates(again, Barred(st, snapshots, digest))
    ensures var once, report := Barred(st, snapshots, digest), NewReport(st, o, snapshots, digest, prior);
            && Barred(once, snapshots, digest) == once
            && NewReport(once, again, snapshots, digest, Report(prior.events + report.events, prior.errors + report.errors))
                 == Report([], [])
  {
    var once := Barred(st, snapshots, digest);
    BarredTwice(st, snapshots, digest);
    RawReportsRepeat(st, o, again, snapshots, digest);
    NothingNew(RawEvents(st, o, snapshots, digest), RawEvents(once, again, snapshots, digest), prior.events);
    NoNewError(RawErrors(st, o, snapshots, digest), RawErrors(once, again, snapshots, digest), prior.errors);
  }

  lemma MemberOrEmpty<T>(s: seq<T>)
    ensures s == [] || exists x :: x in s
  {
    if s != [] { assert s[0] in s; }
  }

  lemma NothingLeft(events: seq<StateEvent>)
    requires KeysOf(events) == {}
    ensures events == []
  {
    MemberOrEmpty(events);
    assert forall e :: e in events ==> KeyOf(e) in KeysOf(events);
  }

  // ---------------------------------------------------------------- what the barrier reports

  // Two events that count as one report: about one task, received attempt and code.
  predicate SameReport(e: StateEvent, f: StateEvent) {
    e.taskId == f.taskId && e.received == f.received && e.code == f.code
  }

  ghost predicate Reported(events: seq<StateEvent>, e: StateEvent) {
    exists f :: f in events && SameReport(e, f)
  }

  lemma ReportedExactly(events: seq<StateEvent>, e: StateEvent)
    ensures Reported(events, e) <==> KeyOf(e) in KeysOf(events)
  {
    if KeyOf(e) in KeysOf(events) {
      var f :| f in events && KeyOf(f) == KeyOf(e);
      assert SameReport(e, f);
    }
  }

  lemma {:induction false} UnseenFrom(events: seq<StateEvent>, prior: set<Key>)
    ensures forall e :: e in Unseen(events, prior) <==> e in events && KeyOf(e) !in prior
  {
    if events != [] {
      UnseenFrom(events[..|events| - 1], prior);
      assert events == events[..|events| - 1] + [events[|events| - 1]];
    }
  }

  lemma {:induction false} UnseenDistinct(events: seq<StateEvent>, prior: set<Key>)
    requires DistinctKeys(events)
    ensures DistinctKeys(Unseen(events, prior))
  {
    if events != [] {
      var most, last := events[..|events| - 1], events[|events| - 1];
      assert forall i :: 0 <= i < |most| ==> most[i] == events[i];
      UnseenDistinct(most, prior);
      if KeyOf(last) !in prior {
        UnseenFrom(most, prior);
        assert KeyOf(last) !in KeysOf(Unseen(most, prior));
        DistinctAppend(Unseen(most, prior), last);
      }
    }
  }

  // The first event of its task, attempt and code.
  ghost predicate FirstReport(events: seq<StateEvent>, i: nat) {
    i < |events| && forall k :: 0 <= k < i ==> !SameReport(events[k], events[i])
  }

  lemma FirstAppend(most: seq<StateEvent>, last: StateEvent)
    ensures forall i: nat :: i < |most| ==> (FirstReport(most + [last], i) <==> FirstReport(most, i))
    ensures FirstReport(most + [last], |most|) <==> KeyOf(last) !in KeysOf(most)
  {
    var events := most + [last];
    assert events[|most|] == last && forall k :: 0 <= k < |most| ==> events[k] == most[k];
    forall k | 0 <= k < |most| && SameReport(events[k], last) ensures KeyOf(last) in KeysOf(most) {
      assert most[k] in most && KeyOf(most[k]) == KeyOf(last);
    }
    if KeyOf(last) in KeysOf(most) {
      var f :| f in most && KeyOf(f) == KeyOf(last);
      var k :| 0 <= k < |most| && most[k] == f;
      assert SameReport(events[k], last);
    }
  }

  // Some first report is this event.
  ghost predicate IsFirst(events: seq<StateEvent>, e: StateEvent) {
    exists i: nat :: FirstReport(events, i) && events[i] == e
  }

  lemma IsFirstAppend(most: seq<StateEvent>, last: StateEvent, e: StateEvent)
    ensures IsFirst(most + [last], e) <==> IsFirst(most, e) || (e == last && KeyOf(last) !in KeysOf(most))
  {
    var events := most + [last];
    FirstAppend(most, last);
    if IsFirst(events, e) {
      var i: nat :| FirstReport(events, i) && events[i] == e;
      if i < |most| { assert FirstReport(most, i) && most[i] == e; }
    }
    if IsFirst(most, e) {
      var i: nat :| FirstReport(most, i) && most[i] == e;
      assert FirstReport(events, i) && events[i] == e;
    }
    if e == last && KeyOf(last) !in KeysOf(most) {
      assert FirstReport(events, |most|) && events[|most|] == e;
    }
  }

  lemma DedupeAppend(most: seq<StateEvent>, last: StateEvent, e: StateEvent)
    ensures e in Dedupe(most + [last]) <==> e in Dedupe(most) || (e == last && KeyOf(last) !in KeysOf(most))
  {
    assert (most + [last])[..|most|] == most;
  }

  /** Of events that count as one report the first is kept, and no other. */
  lemma {:induction false} DedupeExactly(events: seq<StateEvent>, e: StateEvent)
    ensures e in Dedupe(events) <==> IsFirst(events, e)
  {
    if events != [] {
      var most, last := events[..|events| - 1], events[|events| - 1];
      assert events == most + [last];
      DedupeExactly(most, e);
      DedupeAppend(most, last, e);
      IsFirstAppend(most, last, e);
    }
  }

  lemma {:induction false} DedupeFrom(events: seq<StateEvent>)
    ensures forall e :: e in Dedupe(events) ==> e in events
  {
    if events != [] {
      DedupeFrom(events[..|events| - 1]);
      assert events == events[..|events| - 1] + [events[|events| - 1]];
    }
  }

  /** The barrier reports every event the repairs and the validator raise that was not reported before,
      once: none is dropped for another task, attempt or code, none is invented, and no two reports,
      earlier ones included, agree on all three. */
  lemma ReportsExactly(st: State, o: Orders, snapshots: Snapshots, digest: string -> string, prior: Report)
    ensures var raw, report := RawEvents(st, o, snapshots, digest), NewReport(st, o, snapshots, digest, prior);
            && (forall e :: e in raw ==> Reported(prior.events + report.events, e))
            && (forall e :: e in report.events ==> e in raw && !Reported(prior.events, e))
            && (forall i, j :: 0 <= i < j < |report.events| ==> !SameReport(report.events[i], report.events[j]))
  {
    var raw, keys := RawEvents(st, o, snapshots, digest), KeysOf(prior.events);
    var unseen := Unseen(Dedupe(raw), keys);
    DedupeKeys(raw);
    DedupeFrom(raw);
    UnseenKeys(Dedupe(raw), keys);
    UnseenFrom(Dedupe(raw), keys);
    UnseenDistinct(Dedupe(raw), keys);
    KeysOfBoth(prior.events, unseen);
    forall e | e in raw ensures Reported(prior.events + unseen, e) { ReportedExactly(prior.events + unseen, e); }
    forall e | e in unseen ensures !Reported(prior.events, e) { ReportedExactly(prior.events, e); }
    forall i, j | 0 <= i < j < |unseen| ensures !SameReport(unseen[i], unseen[j]) { assert KeyOf(unseen[i]) != KeyOf(unseen[j]); }
  }

  lemma KeysOfBoth(a: seq<StateEvent>, b: seq<StateEvent>)
    ensures KeysOf(a + b) == KeysOf(a) + KeysOf(b)
  {
  }

  lemma {:induction false} NewErrorsDistinct(errors: seq<Error>, prior: seq<Error>)
    ensures forall i, j :: 0 <= i < j < |NewErrors(errors, prior)| ==> NewErrors(errors, prior)[i] != NewErrors(errors, prior)[j]
  {
    if errors != [] {
      var most := errors[..|errors| - 1];
      NewErrorsDistinct(most, prior);
      NewErrorsAre(most, prior);
      assert forall i :: 0 <= i < |NewErrors(most, prior)| ==> NewErrors(most, prior)[i] in NewErrors(most, prior);
    }
  }

  /** The barrier's errors are those of the validator that were not there before, each once. */
  lemma ErrorsExactly(st: State, o: Orders, snapshots: Snapshots, digest: string -> string, prior: Report)
    ensures var raw, report := RawErrors(st, o, snapshots, digest), NewReport(st, o, snapshots, digest, prior);
            && (forall e :: e in report.errors <==> e in raw && e !in prior.errors)
            && (forall i, j :: 0 <= i < j < |report.errors| ==> report.errors[i] != report.errors[j])
  {
    NewErrorsAre(RawErrors(st, o, snapshots, digest), prior.errors);
    NewErrorsDistinct(RawErrors(st, o, snapshots, digest), prior.errors);
  }

  // ---------------------------------------------------------------- what the repair changes

  // A task that some queued task names as its parent.
  ghost predicate HasChild(queue: Queue, id: string) {
    id != "" && exists child :: child in queue && queue[child].parentTaskId == Some(id)
  }

  /** The repair pivots exactly the queued tasks with a child that are not pivoted yet: each gains one
      revision, loses attempt and version, and keeps every other field; every other task is untouched. */
  lemma PivotedExactly(queue: Queue, id: string)
    requires id in queue
    ensures id in PivotRepaired(queue, Parents(queue))
    ensures var before, after := queue[id], PivotRepaired(queue, Parents(queue))[id];
            if HasChild(queue, id) && before.status != Pivoted then
              && after.status == Pivoted && after.attempt == None && after.input.selectedVersion == None
              && after.revision == before.revision + 1 && after.taskId == before.taskId
              && after.parentTaskId == before.parentTaskId && after.planIssueIds == before.planIssueIds
              && after.retryCount == before.retryCount && after.input == before.input.(selectedVersion := None)
            else after == before
  {
    assert id in Parents(queue) <==> HasChild(queue, id) by {
      if HasChild(queue, id) {
        var child :| child in queue && queue[child].parentTaskId == Some(id);
        assert queue[child].parentTaskId.value in Parents(queue);
      }
    }
  }

  lemma {:induction false} PivotEventFrom(queue: Queue, order: seq<string>, parents: seq<string>, e: StateEvent)
    ensures e in PivotEvents(queue, order, parents) <==>
              exists p :: p in parents && NeedsPivot(queue, p)
                && e == StateEvent(PivotParentRepaired, p, queue[p].attempt, FirstChildAttempt(queue, order, p))
  {
    if parents != [] {
      PivotEventFrom(queue, order, parents[..|parents| - 1], e);
      assert parents == parents[..|parents| - 1] + [parents[|parents| - 1]];
    }
  }

  /** There is one repair event for each pivoted task, naming it, the attempt it lost, and the attempt of
      its first child in queue order. */
  lemma PivotEventsExactly(queue: Queue, order: seq<string>, e: StateEvent)
    requires S.Lists(order, queue)
    ensures e in PivotEvents(queue, order, Text.Sorted(Parents(queue))) <==>
              && e.code == PivotParentRepaired && e.taskId in queue && HasChild(queue, e.taskId)
              && queue[e.taskId].status != Pivoted && e.expected == queue[e.taskId].attempt
              && exists j: nat :: IsFirstChild(queue, order, e.taskId, j) && e.received == queue[order[j]].attempt
  {
    PivotEventFrom(queue, order, Text.Sorted(Parents(queue)), e);
    if e.taskId in queue {
      assert e.taskId in Parents(queue) <==> HasChild(queue, e.taskId) by {
        if HasChild(queue, e.taskId) {
          var child :| child in queue && queue[child].parentTaskId == Some(e.taskId);
          assert queue[child].parentTaskId.value in Parents(queue);
        }
      }
      if HasChild(queue, e.taskId) {
        var child :| child in queue && queue[child].parentTaskId == Some(e.taskId);
        var n :| 0 <= n < |order| && order[n] == child;
        var j := FirstChildExists(queue, order, e.taskId, n);
        FirstChildFound(queue, order, e.taskId, j);
        forall i: nat | IsFirstChild(queue, order, e.taskId, i) ensures queue[order[i]].attempt == queue[order[j]].attempt {
          FirstChildFound(queue, order, e.taskId, i);
        }
      }
    }
  }

  lemma {:induction false} FirstChildExists(queue: Queue, order: seq<string>, parent: string, i: nat) returns (j: nat)
    requires S.Lists(order, queue) && i < |order| && parent != "" && queue[order[i]].parentTaskId == Some(parent)
    ensures IsFirstChild(queue, order, parent, j)
    decreases i
  {
    if k: nat :| k < i && queue[order[k]].parentTaskId == Some(parent) {
      j := FirstChildExists(queue, order, parent, k);
    } else {
      j := i;
    }
  }
}
