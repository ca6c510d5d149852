/** Finite directed graphs as adjacency maps, and reachability in them. */
module Graphs {

  type Graph = map<string, set<string>>

  function Successors(g: Graph, x: string): set<string> {
    if x in g then g[x] else {}
  }

  // Every node that can occur on a path from a start.
  ghost function Universe(g: Graph, start: string): set<string> {
    {start} + (set x, y | x in g && y in g[x] :: y)
  }

  ghost predicate IsPath(g: Graph, p: seq<string>) {
    p != [] && forall i :: 0 <= i < |p| - 1 ==> p[i + 1] in Successors(g, p[i])
  }

  ghost predicate Reach(g: Graph, from: string, to: string) {
    exists p :: IsPath(g, p) && p[0] == from && p[|p| - 1] == to
  }

  ghost predicate ClosedUnder(g: Graph, nodes: set<string>) {
    forall x, y :: x in nodes && y in Successors(g, x) ==> y in nodes
  }

  lemma SameReach(g: Graph, h: Graph)
    requires forall x :: Successors(g, x) == Successors(h, x)
    ensures forall a, b :: Reach(g, a, b) <==> Reach(h, a, b)
  {
    forall p ensures IsPath(g, p) <==> IsPath(h, p) {
    }
  }

  lemma ReachSelf(g: Graph, x: string)
    ensures Reach(g, x, x)
  {
    assert IsPath(g, [x]) && [x][0] == x;
  }

  lemma ReachStep(g: Graph, from: string, mid: string, to: string)
    requires Reach(g, from, mid) && to in Successors(g, mid)
    ensures Reach(g, from, to)
  {
    var p :| IsPath(g, p) && p[0] == from && p[|p| - 1] == mid;
    var q := p + [to];
    assert IsPath(g, q) && q[0] == from && q[|q| - 1] == to;
  }

  /** Reachability is least: a closed set with the start contains every reachable node. */
  lemma ReachLeast(g: Graph, nodes: set<string>, from: string, to: string)
    requires from in nodes && ClosedUnder(g, nodes) && Reach(g, from, to)
    ensures to in nodes
  {
    var p :| IsPath(g, p) && p[0] == from && p[|p| - 1] == to;
    PathInside(g, nodes, p, |p| - 1);
  }

  // The reachable nodes as a set.
  lemma Reachable(g: Graph, from: string) returns (nodes: set<string>)
    ensures from in nodes && ClosedUnder(g, nodes)
    ensures forall x :: x in nodes <==> Reach(g, from, x)
  {
    var all := Universe(g, from);
    assert ClosedUnder(g, all);
    nodes := set x | x in all && Reach(g, from, x);
    ReachSelf(g, from);
    forall x | Reach(g, from, x) ensures x in nodes {
      ReachLeast(g, all, from, x);
    }
    forall x, y | x in nodes && y in Successors(g, x) ensures y in nodes {
      ReachStep(g, from, x, y);
    }
  }

  lemma {:induction false} PathInside(g: Graph, nodes: set<string>, p: seq<string>, i: nat)
    requires IsPath(g, p) && p[0] in nodes && ClosedUnder(g, nodes) && i < |p|
    ensures p[i] in nodes
  {
    if i > 0 {
      PathInside(g, nodes, p, i - 1);
      assert p[i - 1 + 1] in Successors(g, p[i - 1]);
    }
  }

  // A path whose every edge is reversed in another graph runs backwards there.
  lemma {:induction false} ReachReversed(g: Graph, h: Graph, p: seq<string>)
    requires IsPath(g, p)
    requires forall x, y :: y in Successors(g, x) ==> x in Successors(h, y)
    ensures Reach(h, p[|p| - 1], p[0])
    decreases |p|
  {
    if |p| == 1 {
      ReachSelf(h, p[0]);
    } else {
      assert IsPath(g, p[1..]) by {
        forall i | 0 <= i < |p[1..]| - 1 ensures p[1..][i + 1] in Successors(g, p[1..][i]) {
          assert p[i + 1 + 1] in Successors(g, p[i + 1]);
        }
      }
      ReachReversed(g, h, p[1..]);
      assert p[0 + 1] in Successors(g, p[0]);
      ReachStep(h, p[|p| - 1], p[1], p[0]);
    }
  }

  // The members of a set in some order.
  method Listed(s: set<string>) returns (r: seq<string>)
    ensures forall x :: x in r <==> x in s
  {
    r := [];
    var rest := s;
    while rest != {}
      invariant rest <= s && forall x :: x in r <==> x in s - rest
      decreases rest
    {
      var x :| x in rest;
      r, rest := r + [x], rest - {x};
    }
  }
}
