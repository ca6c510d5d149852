/** The target tasks of a judged run, grown to their descendants
    (src/remediation_engine/evals/run_evidence.py:963-981). */
module TaskLineage {
  import opened Wrappers
  import opened ParentChains

  // A queue entry that is not a mapping never joins the targets by its parent.
  datatype Task = Malformed | Task(parentTaskId: Option<string>)

  ghost predicate IsChildOf(queue: map<string, Task>, id: string, targets: set<string>) {
    id in queue && queue[id].Task? && queue[id].parentTaskId.Some? && queue[id].parentTaskId.value in targets
  }

  ghost predicate Closed(queue: map<string, Task>, targets: set<string>) {
    forall id :: IsChildOf(queue, id, targets) ==> id in targets
  }

  // The dictionary's iteration order: every key once.
  ghost predicate Enumerates(order: seq<string>, queue: map<string, Task>) {
    forall id :: id in order <==> id in queue
  }

  // The id's chain of parents, through well-formed entries, meets a seed after n links.
  ghost predicate DescendsFrom(queue: map<string, Task>, id: string, seeds: set<string>, n: nat)
    decreases n
  {
    if n == 0 then id in seeds
    else id in queue && queue[id].Task? && queue[id].parentTaskId.Some?
         && DescendsFrom(queue, queue[id].parentTaskId.value, seeds, n - 1)
  }

  ghost predicate Descends(queue: map<string, Task>, id: string, seeds: set<string>) {
    exists n: nat :: DescendsFrom(queue, id, seeds, n)
  }

  /** Grows the targets in place until nothing changes: the result is the least set that contains
      them and every child of a member, and it holds exactly their descendants, in any iteration
      order and with cyclic parents. */
  method ExpandTargets(queue: map<string, Task>, order: seq<string>, seeds: set<string>) returns (targets: set<string>)
    requires Enumerates(order, queue)
    ensures seeds <= targets && Closed(queue, targets)
    ensures forall t: set<string> :: seeds <= t && Closed(queue, t) ==> targets <= t
    ensures forall id :: id in targets <==> Descends(queue, id, seeds)
  {
    targets := seeds;
    assert forall id :: id in seeds ==> DescendsFrom(queue, id, seeds, 0);
    var expanded := true;
    while expanded
      invariant seeds <= targets
      invariant forall id :: id in targets ==> Descends(queue, id, seeds)
      invariant !expanded ==> Closed(queue, targets)
      decreases queue.Keys - targets, expanded
    {
      expanded := false;
      ghost var before := targets;
      for i := 0 to |order|
        invariant before <= targets && targets - before <= queue.Keys && (expanded <==> targets != before)
        invariant forall id :: id in targets ==> Descends(queue, id, seeds)
        invariant !expanded ==> forall j :: 0 <= j < i ==> IsChildOf(queue, order[j], targets) ==> order[j] in targets
      {
        var id := order[i];
        var task := queue[id];
        if task.Task? && id !in targets && task.parentTaskId.Some? && task.parentTaskId.value in targets {
          JoinsLineage(queue, id, seeds);
          targets := targets + {id};
          expanded := true;
        }
      }
      if !expanded {
        assert forall id :: IsChildOf(queue, id, targets) ==> id in order;
      }
    }
    forall id | Descends(queue, id, seeds)
      ensures id in targets
    {
      var n: nat :| DescendsFrom(queue, id, seeds, n);
      ClosedContains(queue, seeds, targets, id, n);
    }
    forall t: set<string> | seeds <= t && Closed(queue, t)
      ensures targets <= t
    {
      forall id | id in targets ensures id in t {
        var n: nat :| DescendsFrom(queue, id, seeds, n);
        ClosedContains(queue, seeds, t, id, n);
      }
    }
  }

  lemma JoinsLineage(queue: map<string, Task>, id: string, seeds: set<string>)
    requires id in queue && queue[id].Task? && queue[id].parentTaskId.Some?
    requires Descends(queue, queue[id].parentTaskId.value, seeds)
    ensures Descends(queue, id, seeds)
  {
    var n: nat :| DescendsFrom(queue, queue[id].parentTaskId.value, seeds, n);
    assert DescendsFrom(queue, id, seeds, n + 1);
  }

  lemma {:induction false} ClosedContains(queue: map<string, Task>, seeds: set<string>, t: set<string>, id: string, n: nat)
    requires seeds <= t && Closed(queue, t) && DescendsFrom(queue, id, seeds, n)
    ensures id in t
    decreases n
  {
    if n > 0 {
      ClosedContains(queue, seeds, t, queue[id].parentTaskId.value, n - 1);
      assert IsChildOf(queue, id, t);
    }
  }
}
