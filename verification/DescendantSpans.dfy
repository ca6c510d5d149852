/** Spans below a root in a recorded trajectory
    (src/remediation_engine/evals/trajectories.py:729-750). */
module DescendantSpans {
  import opened Wrappers
  import opened ParentChains

  datatype Span = Span(runId: string, parentRunId: Option<string>, sequence: int)

  // The dictionary comprehension: a later span with the same id wins.
  function ParentsOf(spans: seq<Span>): map<string, Option<string>> {
    if spans == [] then map[] else
      var last := spans[|spans| - 1];
      ParentsOf(spans[..|spans| - 1])[last.runId := last.parentRunId]
  }

  /** The parent of an id is that of the last recorded span with it. */
  lemma {:induction false} ParentsOfLast(spans: seq<Span>, i: nat)
    requires i < |spans| && forall j :: i < j < |spans| ==> spans[j].runId != spans[i].runId
    ensures spans[i].runId in ParentsOf(spans) && ParentsOf(spans)[spans[i].runId] == spans[i].parentRunId
  {
    if i < |spans| - 1 {
      assert spans[|spans| - 1].runId != spans[i].runId;
      ParentsOfLast(spans[..|spans| - 1], i);
    }
  }

  // Python's stable sort by sequence number.
  function Insert(x: Span, sorted: seq<Span>): seq<Span> {
    if sorted == [] || x.sequence <= sorted[0].sequence then [x] + sorted
    else [sorted[0]] + Insert(x, sorted[1..])
  }

  function Sorted(spans: seq<Span>): seq<Span> {
    if spans == [] then [] else Insert(spans[0], Sorted(spans[1..]))
  }

  ghost predicate Ascending(spans: seq<Span>) {
    forall i, j :: 0 <= i < j < |spans| ==> spans[i].sequence <= spans[j].sequence
  }

  ghost function WithSequence(spans: seq<Span>, k: int): seq<Span> {
    if spans == [] then []
    else (if spans[0].sequence == k then [spans[0]] else []) + WithSequence(spans[1..], k)
  }

  lemma {:induction false} InsertKeeps(x: Span, sorted: seq<Span>)
    ensures multiset(Insert(x, sorted)) == multiset{x} + multiset(sorted)
  {
    if !(sorted == [] || x.sequence <= sorted[0].sequence) {
      InsertKeeps(x, sorted[1..]);
      assert sorted == [sorted[0]] + sorted[1..];
    }
  }

  lemma {:induction false} InsertAscending(x: Span, sorted: seq<Span>)
    requires Ascending(sorted)
    ensures Ascending(Insert(x, sorted))
  {
    if !(sorted == [] || x.sequence <= sorted[0].sequence) {
      InsertAscending(x, sorted[1..]);
      InsertKeeps(x, sorted[1..]);
      var rest := Insert(x, sorted[1..]);
      forall i | 0 <= i < |rest| ensures sorted[0].sequence <= rest[i].sequence {
        assert rest[i] in multiset(rest);
        assert rest[i] == x || rest[i] in sorted[1..];
      }
    }
  }

  lemma WithSequenceCons(x: Span, rest: seq<Span>, k: int)
    ensures WithSequence([x] + rest, k) == (if x.sequence == k then [x] else []) + WithSequence(rest, k)
  {
    assert ([x] + rest)[1..] == rest;
  }

  lemma {:induction false} InsertBefore(x: Span, sorted: seq<Span>, k: int)
    requires Ascending(sorted)
    ensures WithSequence(Insert(x, sorted), k) == (if x.sequence == k then [x] else []) + WithSequence(sorted, k)
  {
    if sorted == [] || x.sequence <= sorted[0].sequence {
      assert ([x] + sorted)[1..] == sorted;
    } else {
      InsertBefore(x, sorted[1..], k);
      WithSequenceCons(sorted[0], Insert(x, sorted[1..]), k);
      WithSequenceCons(sorted[0], sorted[1..], k);
      assert [sorted[0]] + sorted[1..] == sorted;
    }
  }

  /** The sort is in sequence order, keeps every span, and keeps recorded order within a sequence
      number. */
  lemma {:induction false} SortedStable(spans: seq<Span>, k: int)
    ensures Ascending(Sorted(spans)) && multiset(Sorted(spans)) == multiset(spans)
    ensures WithSequence(Sorted(spans), k) == WithSequence(spans, k)
  {
    if spans != [] {
      SortedStable(spans[1..], k);
      InsertKeeps(spans[0], Sorted(spans[1..]));
      InsertAscending(spans[0], Sorted(spans[1..]));
      InsertBefore(spans[0], Sorted(spans[1..]), k);
      assert spans == [spans[0]] + spans[1..];
    }
  }

  // The parent chain of a span meets the root before it meets the span itself.
  ghost predicate BelowRoot(parents: map<string, Option<string>>, root: string, span: Span) {
    && Link(span.parentRunId).Some?
    && var start := Link(span.parentRunId).value;
       exists n: nat :: Up(parents, start, n) == Some(root)
         && forall i: nat :: i <= n ==> Up(parents, start, i) != Some(span.runId)
  }

  ghost function Select(parents: map<string, Option<string>>, root: string, spans: seq<Span>): seq<Span> {
    if spans == [] then [] else
      var last := spans[|spans| - 1];
      Select(parents, root, spans[..|spans| - 1]) + if BelowRoot(parents, root, last) then [last] else []
  }

  ghost predicate UniqueIds(spans: seq<Span>) {
    forall i, j :: 0 <= i < j < |spans| ==> spans[i].runId != spans[j].runId
  }

  lemma SelectNext(parents: map<string, Option<string>>, root: string, most: seq<Span>, last: Span)
    ensures Select(parents, root, most + [last]) == Select(parents, root, most) + if BelowRoot(parents, root, last) then [last] else []
  {
    assert (most + [last])[..|most|] == most;
  }

  // Selecting keeps the order and repeats nothing.
  lemma {:induction false} SelectKeeps(parents: map<string, Option<string>>, root: string, spans: seq<Span>)
    ensures Ascending(spans) ==> Ascending(Select(parents, root, spans))
    ensures UniqueIds(spans) ==> UniqueIds(Select(parents, root, spans))
  {
    if spans != [] {
      var most, last := spans[..|spans| - 1], spans[|spans| - 1];
      assert spans == most + [last];
      SelectKeeps(parents, root, most);
      SelectNext(parents, root, most, last);
      var kept := Select(parents, root, most);
      forall i | 0 <= i < |kept|
        ensures Ascending(spans) ==> kept[i].sequence <= last.sequence
        ensures UniqueIds(spans) ==> kept[i].runId != last.runId
      {
        SelectMembers(parents, root, most, kept[i]);
        var k :| 0 <= k < |most| && most[k] == kept[i];
        assert spans[k] == kept[i];
      }
    }
  }

  lemma UniqueCons(x: Span, rest: seq<Span>)
    ensures UniqueIds([x] + rest) <==> UniqueIds(rest) && forall y :: y in rest ==> y.runId != x.runId
  {
    var all := [x] + rest;
    assert all[0] == x && forall i :: 0 <= i < |rest| ==> all[i + 1] == rest[i];
  }

  lemma {:induction false} InsertMembers(x: Span, sorted: seq<Span>, y: Span)
    ensures y in Insert(x, sorted) <==> y == x || y in sorted
  {
    if !(sorted == [] || x.sequence <= sorted[0].sequence) {
      InsertMembers(x, sorted[1..], y);
      assert sorted == [sorted[0]] + sorted[1..];
    }
  }

  lemma {:induction false} InsertUnique(x: Span, sorted: seq<Span>)
    requires UniqueIds([x] + sorted)
    ensures UniqueIds(Insert(x, sorted))
  {
    UniqueCons(x, sorted);
    if !(sorted == [] || x.sequence <= sorted[0].sequence) {
      var rest := sorted[1..];
      assert sorted == [sorted[0]] + rest;
      UniqueCons(sorted[0], rest);
      UniqueCons(x, rest);
      InsertUnique(x, rest);
      forall y | y in Insert(x, rest) ensures y.runId != sorted[0].runId { InsertMembers(x, rest, y); }
      UniqueCons(sorted[0], Insert(x, rest));
    }
  }

  lemma {:induction false} SortedMembers(spans: seq<Span>, y: Span)
    ensures y in Sorted(spans) <==> y in spans
  {
    if spans != [] {
      SortedMembers(spans[1..], y);
      InsertMembers(spans[0], Sorted(spans[1..]), y);
      assert spans == [spans[0]] + spans[1..];
    }
  }

  lemma {:induction false} SortedUnique(spans: seq<Span>)
    requires UniqueIds(spans)
    ensures UniqueIds(Sorted(spans))
  {
    if spans != [] {
      assert spans == [spans[0]] + spans[1..];
      UniqueCons(spans[0], spans[1..]);
      SortedUnique(spans[1..]);
      forall y | y in Sorted(spans[1..]) ensures y.runId != spans[0].runId { SortedMembers(spans[1..], y); }
      UniqueCons(spans[0], Sorted(spans[1..]));
      InsertUnique(spans[0], Sorted(spans[1..]));
    }
  }

  lemma SelectedInOrder(spans: seq<Span>, root: string)
    ensures Ascending(Select(ParentsOf(spans), root, Sorted(spans)))
    ensures UniqueIds(spans) ==> UniqueIds(Select(ParentsOf(spans), root, Sorted(spans)))
  {
    SortedStable(spans, 0);
    if UniqueIds(spans) { SortedUnique(spans); }
    SelectKeeps(ParentsOf(spans), root, Sorted(spans));
  }

  // The inner loop, for one span.
  method ReachesRoot(parents: map<string, Option<string>>, root: string, span: Span) returns (found: bool)
    ensures found <==> BelowRoot(parents, root, span)
  {
    var current := Link(span.parentRunId);
    var seen := {span.runId};
    ghost var start, passed, k := current, {}, 0;
    ghost var universe := Nodes(parents, current);
    while current.Some? && current.value !in seen
      invariant Walked(parents, start, passed, current, k)
      invariant seen == passed + {span.runId} && root !in passed && span.runId !in passed
      invariant passed <= universe && (current.Some? ==> current.value in universe)
      decreases universe - passed
    {
      if current.value == root {
        return true;
      }
      WalkedStep(parents, start, passed, current, k);
      seen, passed := seen + {current.value}, passed + {current.value};
      current, k := Next(parents, current.value), k + 1;
    }
    if start.Some? {
      forall n: nat | Up(parents, start.value, n) == Some(root)
        ensures exists i: nat :: i <= n && Up(parents, start.value, i) == Some(span.runId)
      {
        if current.Some? && current.value == span.runId {
          assert Up(parents, start.value, k) == Some(span.runId);
        } else {
          WalkedAll(parents, start, passed, current, k, n);
        }
      }
    }
    return false;
  }

  /** Returns, in sequence order, the spans whose parent chain meets the root before coming back to
      the span, whatever ids repeat, are missing or form cycles. */
  method Descendants(spans: seq<Span>, root: string) returns (result: seq<Span>)
    ensures result == Select(ParentsOf(spans), root, Sorted(spans))
    ensures Ascending(result) && (UniqueIds(spans) ==> UniqueIds(result))
  {
    SelectedInOrder(spans, root);
    var parents, sorted := ParentsOf(spans), Sorted(spans);
    result := [];
    for i := 0 to |sorted|
      invariant result == Select(parents, root, sorted[..i])
    {
      assert sorted[..i + 1][..i] == sorted[..i];
      var found := ReachesRoot(parents, root, sorted[i]);
      if found {
        result := result + [sorted[i]];
      }
    }
    assert sorted[..|sorted|] == sorted;
  }

  lemma {:induction false} ParentsOfUnique(spans: seq<Span>, span: Span)
    requires UniqueIds(spans) && span in spans
    ensures span.runId in ParentsOf(spans) && ParentsOf(spans)[span.runId] == span.parentRunId
  {
    var last := spans[|spans| - 1];
    if span != last {
      assert span in spans[..|spans| - 1];
      ParentsOfUnique(spans[..|spans| - 1], span);
    }
  }

  lemma {:induction false} SelectMembers(parents: map<string, Option<string>>, root: string, spans: seq<Span>, x: Span)
    ensures x in Select(parents, root, spans) <==> x in spans && BelowRoot(parents, root, x)
  {
    if spans != [] {
      SelectMembers(parents, root, spans[..|spans| - 1], x);
      assert spans == spans[..|spans| - 1] + [spans[|spans| - 1]];
    }
  }

  // A chain from the span that comes back to it can be shortened.
  lemma {:induction false} ShortChain(parents: map<string, Option<string>>, root: string, span: Span, n: nat)
    requires span.runId in parents && parents[span.runId] == span.parentRunId && span.runId != root
    requires Up(parents, span.runId, n) == Some(root)
    ensures BelowRoot(parents, root, span)
    decreases n
  {
    var start := Link(span.parentRunId).value;
    assert Up(parents, start, n - 1) == Some(root);
    if i: nat :| i <= n - 1 && Up(parents, start, i) == Some(span.runId) {
      UpCompose(parents, start, i, n - 1 - i);
      ShortChain(parents, root, span, n - 1 - i);
    }
  }

  /** With unique ids the result holds exactly the spans other than the root from which the root is
      reachable by parent links. */
  lemma DescendantsExactly(spans: seq<Span>, root: string, span: Span)
    requires UniqueIds(spans)
    ensures span in Select(ParentsOf(spans), root, Sorted(spans)) <==>
              span in spans && span.runId != root && Reaches(ParentsOf(spans), span.runId, root)
  {
    var parents := ParentsOf(spans);
    SelectMembers(parents, root, Sorted(spans), span);
    SortedStable(spans, 0);
    assert span in spans <==> span in multiset(spans);
    assert span in Sorted(spans) <==> span in multiset(Sorted(spans));
    if span in spans {
      ParentsOfUnique(spans, span);
      if BelowRoot(parents, root, span) {
        var start := Link(span.parentRunId).value;
        var n: nat :| Up(parents, start, n) == Some(root) && forall i: nat :: i <= n ==> Up(parents, start, i) != Some(span.runId);
        assert Up(parents, span.runId, n + 1) == Some(root);
      } else if span.runId != root && Reaches(parents, span.runId, root) {
        var n: nat :| Up(parents, span.runId, n) == Some(root);
        ShortChain(parents, root, span, n);
      }
    }
  }
}
