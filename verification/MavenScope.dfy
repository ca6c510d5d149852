/** The Maven files a repair may edit: the reactor graph, its root above the targets, and the
    closure below it (src/remediation_engine/orchestration/_tool_support.py:743-829). */
module MavenScope {
  import opened Wrappers
  import opened Graphs

  // A module line of a POM, resolved to an in-repository POM or rejected.
  datatype ModuleLine = Child(rel: string) | BadModule

  datatype Manifest = Manifest(parentRel: Option<string>, modules: seq<ModuleLine>)

  type Manifests = map<string, Manifest>

  // Reading stops at the first rejected line.
  function GoodModules(lines: seq<ModuleLine>): seq<ModuleLine> {
    if lines == [] || lines[0].BadModule? then [] else [lines[0]] + GoodModules(lines[1..])
  }

  function Rels(lines: seq<ModuleLine>): set<string> {
    set line | line in lines && line.Child? :: line.rel
  }

  lemma RelsAppend(lines: seq<ModuleLine>, child: string)
    ensures Rels(lines + [Child(child)]) == Rels(lines) + {child}
  {
    assert Child(child) in lines + [Child(child)];
  }

  function ChildrenOf(m: Manifest): set<string> {
    Rels(GoodModules(m.modules))
  }

  predicate HasBadModule(m: Manifest) {
    BadModule in m.modules
  }

  datatype Reactor = Reactor(moduleChildren: Graph, reverseEdges: Graph, parentOf: map<string, string>, errors: set<string>)

  // An edge up: to the declared parent, and to every POM that lists this one as a module.
  ghost predicate IsUpEdge(ms: Manifests, done: set<string>, child: string, parent: string)
    requires done <= ms.Keys
  {
    || (child in done && ms[child].parentRel == Some(parent))
    || (parent in done && child in ChildrenOf(ms[parent]))
  }

  ghost predicate RecordsModules(ms: Manifests, done: set<string>, g: Graph)
    requires done <= ms.Keys
  {
    forall x :: Successors(g, x) == if x in done then ChildrenOf(ms[x]) else {}
  }

  ghost predicate RecordsParents(ms: Manifests, done: set<string>, parentOf: map<string, string>)
    requires done <= ms.Keys
  {
    && (forall x :: x in parentOf <==> x in done && ms[x].parentRel.Some?)
    && (forall x :: x in parentOf ==> ms[x].parentRel == Some(parentOf[x]))
  }

  ghost predicate RecordsUp(ms: Manifests, done: set<string>, g: Graph)
    requires done <= ms.Keys
  {
    forall x, y :: y in Successors(g, x) <==> IsUpEdge(ms, done, x, y)
  }

  // What the graph-building loop has recorded for the manifests read so far.
  ghost predicate Records(ms: Manifests, done: set<string>, unparsed: set<string>, r: Reactor)
    requires done <= ms.Keys
  {
    && RecordsModules(ms, done, r.moduleChildren)
    && RecordsParents(ms, done, r.parentOf)
    && RecordsUp(ms, done, r.reverseEdges)
    && r.errors == unparsed + BadOnes(ms, done)
  }

  ghost function BadOnes(ms: Manifests, done: set<string>): set<string>
    requires done <= ms.Keys
  {
    set x | x in done && HasBadModule(ms[x])
  }

  function AddEdge(g: Graph, from: string, to: string): Graph {
    g[from := Successors(g, from) + {to}]
  }

  // The module lines of one manifest.
  method ReadModules(rel: string, lines: seq<ModuleLine>, edges: Graph)
    returns (children: set<string>, reverse: Graph, bad: bool)
    ensures children == Rels(GoodModules(lines)) && Reversed(edges, reverse, rel, children)
    ensures bad <==> BadModule in lines
  {
    children, reverse, bad := {}, edges, false;
    ghost var read := [];
    for i := 0 to |lines|
      invariant ReadSoFar(lines, i, read) && !bad
      invariant children == Rels(read) && Reversed(edges, reverse, rel, children)
    {
      ReadOn(lines, i, read);
      match lines[i]
      case BadModule =>
        bad := true;
        break;
      case Child(child) =>
        RelsAppend(read, child);
        ReversedStep(edges, reverse, rel, children, child);
        children := children + {child};
        reverse := AddEdge(reverse, child, rel);
        read := read + [Child(child)];
    }
    if !bad { ReadAll(lines, read); }
  }

  // The good lines among the first n, none of them rejected.
  ghost predicate ReadSoFar(lines: seq<ModuleLine>, n: nat, read: seq<ModuleLine>) {
    n <= |lines| && GoodModules(lines) == read + GoodModules(lines[n..]) && BadModule !in lines[..n]
  }

  lemma ReadOn(lines: seq<ModuleLine>, n: nat, read: seq<ModuleLine>)
    requires n < |lines| && ReadSoFar(lines, n, read)
    ensures lines[n].BadModule? ==> GoodModules(lines) == read && BadModule in lines
    ensures lines[n].Child? ==> ReadSoFar(lines, n + 1, read + [lines[n]])
  {
    GoodNext(lines[n..]);
    assert lines[n..][1..] == lines[n + 1..] && lines[..n + 1] == lines[..n] + [lines[n]];
    if lines[n].Child? {
      assert read + ([lines[n]] + GoodModules(lines[n + 1..])) == read + [lines[n]] + GoodModules(lines[n + 1..]);
    }
  }

  lemma ReadAll(lines: seq<ModuleLine>, read: seq<ModuleLine>)
    requires ReadSoFar(lines, |lines|, read)
    ensures GoodModules(lines) == read && BadModule !in lines
  {
    assert lines[..|lines|] == lines && lines[|lines|..] == [];
  }

  lemma GoodNext(lines: seq<ModuleLine>)
    requires lines != []
    ensures GoodModules(lines) == if lines[0].BadModule? then [] else [lines[0]] + GoodModules(lines[1..])
  {
  }

  // Edges from some children to one POM.
  ghost predicate Reversed(before: Graph, after: Graph, rel: string, children: set<string>) {
    forall x, y :: y in Successors(after, x) <==> y in Successors(before, x) || (y == rel && x in children)
  }

  lemma ReversedStep(before: Graph, after: Graph, rel: string, children: set<string>, child: string)
    requires Reversed(before, after, rel, children)
    ensures Reversed(before, AddEdge(after, child, rel), rel, children + {child})
  {
  }

  // The edges up from and to one manifest.
  method ReadUpEdges(ms: Manifests, rel: string, edges: Graph, ghost done: set<string>)
    returns (children: set<string>, reverse: Graph, bad: bool)
    requires rel in ms && done <= ms.Keys && RecordsUp(ms, done, edges)
    ensures children == ChildrenOf(ms[rel]) && (bad <==> HasBadModule(ms[rel]))
    ensures RecordsUp(ms, done + {rel}, reverse)
  {
    var m := ms[rel];
    var own := if m.parentRel.Some? then AddEdge(edges, rel, m.parentRel.value) else edges;
    children, reverse, bad := ReadModules(rel, m.modules, own);
    UpMore(ms, rel, done, edges, own, reverse);
  }

  lemma UpMore(ms: Manifests, rel: string, done: set<string>, edges: Graph, own: Graph, reverse: Graph)
    requires rel in ms && done <= ms.Keys && RecordsUp(ms, done, edges)
    requires own == if ms[rel].parentRel.Some? then AddEdge(edges, rel, ms[rel].parentRel.value) else edges
    requires Reversed(own, reverse, rel, ChildrenOf(ms[rel]))
    ensures RecordsUp(ms, done + {rel}, reverse)
  {
    assert forall x, y :: y in Successors(own, x) <==> y in Successors(edges, x) || (x == rel && ms[rel].parentRel == Some(y));
  }

  lemma RecordsMore(ms: Manifests, rel: string, done: set<string>, before: Reactor, moduleChildren: Graph, parentOf: map<string, string>)
    requires rel in ms && done <= ms.Keys
    requires RecordsModules(ms, done, before.moduleChildren) && RecordsParents(ms, done, before.parentOf)
    requires moduleChildren == if ChildrenOf(ms[rel]) != {} then before.moduleChildren[rel := ChildrenOf(ms[rel])] else before.moduleChildren
    requires parentOf == if ms[rel].parentRel.Some? then before.parentOf[rel := ms[rel].parentRel.value] else before.parentOf
    ensures RecordsModules(ms, done + {rel}, moduleChildren) && RecordsParents(ms, done + {rel}, parentOf)
  {
  }

  // One manifest joins the record.
  method ReadManifest(ms: Manifests, rel: string, before: Reactor, ghost done: set<string>, ghost unparsed: set<string>)
    returns (after: Reactor)
    requires rel in ms && done <= ms.Keys && Records(ms, done, unparsed, before)
    ensures Records(ms, done + {rel}, unparsed, after)
  {
    var parentRel := ms[rel].parentRel;
    var parentOf := if parentRel.Some? then before.parentOf[rel := parentRel.value] else before.parentOf;
    var children, reverseEdges, bad := ReadUpEdges(ms, rel, before.reverseEdges, done);
    var errors := if bad then before.errors + {rel} else before.errors;
    var moduleChildren := if children != {} then before.moduleChildren[rel := children] else before.moduleChildren;
    RecordsMore(ms, rel, done, before, moduleChildren, parentOf);
    after := Reactor(moduleChildren, reverseEdges, parentOf, errors);
    assert after.errors == unparsed + BadOnes(ms, done + {rel});
  }

  ghost function Entries(order: seq<string>): set<string> {
    set x | x in order
  }

  lemma EntriesNext(order: seq<string>, i: nat)
    requires i < |order|
    ensures Entries(order[..i + 1]) == Entries(order[..i]) + {order[i]}
  {
    assert order[..i + 1] == order[..i] + [order[i]];
  }

  method BuildReactor(ms: Manifests, order: seq<string>, unparsed: set<string>) returns (r: Reactor)
    requires forall x :: x in order <==> x in ms
    ensures Records(ms, ms.Keys, unparsed, r)
  {
    r := Reactor(map[], map[], map[], unparsed);
    assert Entries(order) == ms.Keys && order[..|order|] == order;
    for i := 0 to |order|
      invariant Entries(order[..i]) <= ms.Keys && Records(ms, Entries(order[..i]), unparsed, r)
    {
      EntriesNext(order, i);
      r := ReadManifest(ms, order[i], r, Entries(order[..i]), unparsed);
    }
  }

  // ---------------------------------------------------------------- the root

  /** The upward worklist finds exactly the reachable nodes, also around cycles. */
  method Ancestors(g: Graph, target: string) returns (ancestors: set<string>)
    ensures forall x :: x in ancestors <==> Reach(g, target, x)
  {
    ancestors := {target};
    var pending := [target];
    ReachSelf(g, target);
    while pending != []
      invariant target in ancestors && ancestors <= Universe(g, target)
      invariant forall x :: x in ancestors ==> Reach(g, target, x)
      invariant forall x :: x in pending ==> x in ancestors
      invariant forall x, y :: x in ancestors && x !in pending && y in Successors(g, x) ==> y in ancestors
      decreases Universe(g, target) - ancestors, |pending|
    {
      var child := pending[|pending| - 1];
      ghost var known, popped := ancestors, pending[..|pending| - 1];
      assert pending == popped + [child];
      pending := pending[..|pending| - 1];
      var parents := Listed(Successors(g, child));
      for i := 0 to |parents|
        invariant known <= ancestors <= Universe(g, target) && (ancestors == known ==> pending == popped)
        invariant forall x :: x in ancestors ==> Reach(g, target, x)
        invariant forall x :: x in pending ==> x in ancestors
        invariant forall j :: 0 <= j < i ==> parents[j] in ancestors
        invariant forall x, y :: x in ancestors && x != child && x !in pending && y in Successors(g, x) ==> y in ancestors
      {
        var parent := parents[i];
        ReachStep(g, target, child, parent);
        if parent !in ancestors {
          ancestors := ancestors + {parent};
          pending := pending + [parent];
        }
      }
    }
    forall x | Reach(g, target, x) ensures x in ancestors {
      ReachLeast(g, ancestors, target, x);
    }
  }

  // The nodes with nothing above them over a target; the target itself when all lie on cycles.
  ghost predicate IsTop(g: Graph, target: string, top: string) {
    Reach(g, target, top) && Successors(g, top) == {}
  }

  ghost predicate IsRootOf(g: Graph, target: string, root: string) {
    IsTop(g, target, root) || (root == target && forall x :: !IsTop(g, target, x))
  }

  method RootsOf(g: Graph, target: string) returns (roots: set<string>)
    ensures forall x :: x in roots <==> IsRootOf(g, target, x)
  {
    var ancestors := Ancestors(g, target);
    var topmost := set x | x in ancestors && Successors(g, x) * ancestors == {};
    forall x | x in ancestors
      ensures Successors(g, x) * ancestors == {} <==> Successors(g, x) == {}
    {
      forall y | y in Successors(g, x) ensures y in ancestors { ReachStep(g, target, x, y); }
    }
    assert forall x :: x in topmost <==> IsTop(g, target, x);
    roots := if topmost == {} then {target} else topmost;
  }

  method AncestorRoots(g: Graph, targets: set<string>) returns (roots: set<string>)
    ensures forall x :: x in roots <==> exists t :: t in targets && IsRootOf(g, t, x)
  {
    roots := {};
    var rest := targets;
    while rest != {}
      invariant rest <= targets
      invariant forall x :: x in roots <==> exists t :: t in targets - rest && IsRootOf(g, t, x)
      decreases rest
    {
      var target :| target in rest;
      var more := RootsOf(g, target);
      roots, rest := roots + more, rest - {target};
    }
  }

  // ---------------------------------------------------------------- the scope

  ghost predicate Usable(ms: Manifests, r: Reactor, x: string) {
    x in ms && x !in r.errors
  }

  // The scope's graph: module children and the declared parent of each POM.
  function ScopeGraph(ms: Manifests): Graph {
    map x | x in ms :: ChildrenOf(ms[x]) + match ms[x].parentRel case None => {} case Some(p) => {p}
  }

  // The recorded maps give the edges of a graph.
  ghost predicate Gives(ms: Manifests, r: Reactor, g: Graph) {
    forall x :: x in ms ==>
      Successors(g, x) == Successors(r.moduleChildren, x) + if x in r.parentOf then {r.parentOf[x]} else {}
  }

  lemma RecordsScope(ms: Manifests, unparsed: set<string>, r: Reactor)
    requires Records(ms, ms.Keys, unparsed, r)
    ensures Gives(ms, r, ScopeGraph(ms))
  {
    forall x | x in ms
      ensures Successors(ScopeGraph(ms), x) == Successors(r.moduleChildren, x) + if x in r.parentOf then {r.parentOf[x]} else {}
    {
      assert Successors(r.moduleChildren, x) == ChildrenOf(ms[x]);
    }
  }

  method PushNext(ms: Manifests, r: Reactor, rel: string, pending: seq<string>, ghost g: Graph) returns (next: seq<string>)
    requires Gives(ms, r, g) && rel in ms
    ensures forall y :: y in next <==> y in pending || y in Successors(g, rel)
  {
    var children := Listed(Successors(r.moduleChildren, rel));
    next := pending + children;
    if rel in r.parentOf {
      next := next + [r.parentOf[rel]];
    }
    assert Successors(g, rel) == Successors(r.moduleChildren, rel) + if rel in r.parentOf then {r.parentOf[rel]} else {};
  }

  /** The downward worklist collects the reachable POMs, and reports an error exactly when one of
      those it meets is missing or has bad metadata. */
  method Authorize(ms: Manifests, r: Reactor, root: string, ghost g: Graph) returns (authorized: set<string>, failed: bool)
    requires Gives(ms, r, g)
    ensures !failed ==> forall x :: x in authorized <==> Reach(g, root, x)
    ensures failed <==> exists x :: Reach(g, root, x) && !Usable(ms, r, x)
  {
    ghost var reachable := Reachable(g, root);
    authorized, failed := Collect(ms, r, root, g, reachable);
    if !failed {
      forall x | Reach(g, root, x) ensures x in authorized {
        ReachLeast(g, authorized, root, x);
      }
    }
  }

  // What the loop has collected, and the successors it still has to look at.
  ghost predicate Collected(ms: Manifests, r: Reactor, reachable: set<string>,
                            authorized: set<string>, pending: seq<string>) {
    && authorized <= reachable
    && (forall x :: x in authorized ==> Usable(ms, r, x))
    && (forall x :: x in pending ==> x in reachable)
  }

  ghost predicate Covered(g: Graph, root: string, authorized: set<string>, pending: seq<string>) {
    && (root in authorized || root in pending)
    && (forall x, y :: x in authorized && y in Successors(g, x) ==> y in authorized || y in pending)
  }

  // One usable POM joins, its successors queued.
  lemma CollectStep(ms: Manifests, r: Reactor, reachable: set<string>, g: Graph, root: string,
                    authorized: set<string>, pending: seq<string>, rel: string, next: seq<string>)
    requires Collected(ms, r, reachable, authorized, pending + [rel]) && Usable(ms, r, rel) && ClosedUnder(g, reachable)
    requires forall y :: y in next <==> y in pending || y in Successors(g, rel)
    ensures Collected(ms, r, reachable, authorized + {rel}, next)
    ensures Covered(g, root, authorized, pending + [rel]) ==> Covered(g, root, authorized + {rel}, next)
  {
    assert rel in pending + [rel];
    assert forall x :: x in pending ==> x in pending + [rel];
  }

  method Collect(ms: Manifests, r: Reactor, root: string, ghost g: Graph, ghost reachable: set<string>)
    returns (authorized: set<string>, failed: bool)
    requires Gives(ms, r, g) && root in reachable && ClosedUnder(g, reachable)
    ensures Collected(ms, r, reachable, authorized, [])
    ensures !failed ==> Covered(g, root, authorized, [])
    ensures failed ==> exists x :: x in reachable && !Usable(ms, r, x)
  {
    authorized, failed := {}, false;
    var pending := [root];
    while pending != []
      invariant Collected(ms, r, reachable, authorized, pending)
      invariant failed || Covered(g, root, authorized, pending)
      invariant failed ==> exists x :: x in reachable && !Usable(ms, r, x)
      decreases ms.Keys - authorized, |pending|
    {
      var rel := pending[|pending| - 1];
      ghost var before := pending;
      pending := pending[..|pending| - 1];
      assert before == pending + [rel];
      if rel in authorized {
        continue;
      }
      if rel !in ms || rel in r.errors {
        assert rel in reachable && !Usable(ms, r, rel);
        failed := true;
        continue;
      }
      var next := PushNext(ms, r, rel, pending, g);
      CollectStep(ms, r, reachable, g, root, authorized, pending, rel, next);
      authorized, pending := authorized + {rel}, next;
    }
  }

  datatype Scope = NoScope | InScope(poms: set<string>)

  /** What a resolved scope is: one root stands above every target, and the POMs are those reachable
      from it, all usable, targets and property owners among them. */
  ghost predicate IsScope(ms: Manifests, r: Reactor, targets: set<string>, owners: set<string>, root: string, poms: set<string>) {
    && (forall t, x :: t in targets && IsRootOf(r.reverseEdges, t, x) ==> x == root)
    && (forall t :: t in targets ==> Reach(r.reverseEdges, t, root))
    && (forall x :: x in poms <==> Reach(ScopeGraph(ms), root, x))
    && (forall x :: x in poms ==> Usable(ms, r, x))
    && targets <= poms && owners <= poms
  }

  // The graph of the manifests, as a value.
  ghost function ReactorOf(ms: Manifests, unparsed: set<string>): Reactor {
    Reactor(map x | x in ms :: ChildrenOf(ms[x]), UpGraph(ms),
            map x | x in ms && ms[x].parentRel.Some? :: ms[x].parentRel.value, unparsed + BadOnes(ms, ms.Keys))
  }

  ghost function UpGraph(ms: Manifests): Graph {
    map x | x in ms.Keys + (set p, c | p in ms && c in ChildrenOf(ms[p]) :: c) ::
      (set p | p in ms && x in ChildrenOf(ms[p])) + (if x in ms && ms[x].parentRel.Some? then {ms[x].parentRel.value} else {})
  }

  lemma ReactorOfRecords(ms: Manifests, unparsed: set<string>)
    ensures Records(ms, ms.Keys, unparsed, ReactorOf(ms, unparsed))
  {
    var g := UpGraph(ms);
    forall x, y ensures y in Successors(g, x) <==> IsUpEdge(ms, ms.Keys, x, y) {
      if y in ms && x in ChildrenOf(ms[y]) { assert x in g; }
    }
  }

  // Recording the same manifests leaves the same scopes.
  lemma SameScopes(ms: Manifests, unparsed: set<string>, r: Reactor, q: Reactor, targets: set<string>, owners: set<string>)
    requires Records(ms, ms.Keys, unparsed, r) && Records(ms, ms.Keys, unparsed, q)
    ensures forall root, poms :: IsScope(ms, r, targets, owners, root, poms) <==> IsScope(ms, q, targets, owners, root, poms)
  {
    forall x ensures Successors(r.reverseEdges, x) == Successors(q.reverseEdges, x) {
    }
    SameReach(r.reverseEdges, q.reverseEdges);
    forall t, x ensures IsRootOf(r.reverseEdges, t, x) <==> IsRootOf(q.reverseEdges, t, x) {
      SameRoots(r.reverseEdges, q.reverseEdges, t, x);
    }
  }

  lemma SameRoots(g: Graph, h: Graph, t: string, x: string)
    requires forall y :: Successors(g, y) == Successors(h, y)
    requires forall a, b :: Reach(g, a, b) <==> Reach(h, a, b)
    ensures IsRootOf(g, t, x) <==> IsRootOf(h, t, x)
  {
    forall y ensures IsTop(g, t, y) <==> IsTop(h, t, y) {
    }
  }

  /** Resolution succeeds exactly when such a scope exists, and returns it. */
  method ResolveScope(ms: Manifests, order: seq<string>, unparsed: set<string>, targets: set<string>, owners: set<string>)
    returns (scope: Scope)
    requires forall x :: x in order <==> x in ms
    requires targets != {}
    ensures scope.InScope? ==> exists root :: IsScope(ms, ReactorOf(ms, unparsed), targets, owners, root, scope.poms)
    ensures scope.NoScope? ==> forall root, poms :: !IsScope(ms, ReactorOf(ms, unparsed), targets, owners, root, poms)
  {
    var reactor := BuildReactor(ms, order, unparsed);
    RecordsScope(ms, unparsed, reactor);
    ReactorOfRecords(ms, unparsed);
    SameScopes(ms, unparsed, reactor, ReactorOf(ms, unparsed), targets, owners);
    scope := ResolveIn(ms, reactor, targets, owners);
  }

  method ResolveIn(ms: Manifests, r: Reactor, targets: set<string>, owners: set<string>) returns (scope: Scope)
    requires Gives(ms, r, ScopeGraph(ms)) && targets != {}
    ensures scope.InScope? ==> exists root :: IsScope(ms, r, targets, owners, root, scope.poms)
    ensures scope.NoScope? ==> forall root, poms :: !IsScope(ms, r, targets, owners, root, poms)
  {
    var roots := AncestorRoots(r.reverseEdges, targets);
    if |roots| != 1 {
      forall root, poms ensures !IsScope(ms, r, targets, owners, root, poms) {
        if IsScope(ms, r, targets, owners, root, poms) {
          OneRoot(r.reverseEdges, targets, roots, root);
        }
      }
      return NoScope;
    }
    var root :| root in roots;
    var authorized, failed := Authorize(ms, r, root, ScopeGraph(ms));
    ScopeOfRoot(ms, r, targets, roots, root);
    if failed || !(owners <= authorized) || !(targets <= authorized) {
      forall other, poms ensures !IsScope(ms, r, targets, owners, other, poms) {
        if IsScope(ms, r, targets, owners, other, poms) {
          ScopeRefuted(ms, r, targets, owners, root, other, poms, authorized, failed);
        }
      }
      return NoScope;
    }
    assert IsScope(ms, r, targets, owners, root, authorized);
    return InScope(authorized);
  }

  // The one root stands above every target.
  lemma ScopeOfRoot(ms: Manifests, r: Reactor, targets: set<string>, roots: set<string>, root: string)
    requires |roots| == 1 && root in roots
    requires forall x :: x in roots <==> exists t :: t in targets && IsRootOf(r.reverseEdges, t, x)
    ensures forall t, x :: t in targets && IsRootOf(r.reverseEdges, t, x) ==> x == root
    ensures forall t :: t in targets ==> Reach(r.reverseEdges, t, root) && IsRootOf(r.reverseEdges, t, root)
  {
    OnlyMember(roots, root);
    forall t, x | t in targets && IsRootOf(r.reverseEdges, t, x) ensures x == root {
      assert x in roots;
    }
    forall t | t in targets ensures Reach(r.reverseEdges, t, root) && IsRootOf(r.reverseEdges, t, root) {
      var x := SomeRoot(r.reverseEdges, t);
      assert x in roots;
    }
  }

  lemma ScopeRefuted(ms: Manifests, r: Reactor, targets: set<string>, owners: set<string>, root: string,
                     other: string, poms: set<string>, authorized: set<string>, failed: bool)
    requires IsScope(ms, r, targets, owners, other, poms) && targets != {}
    requires forall t :: t in targets ==> IsRootOf(r.reverseEdges, t, root)
    requires !failed ==> forall x :: x in authorized <==> Reach(ScopeGraph(ms), root, x)
    requires failed <==> exists x :: Reach(ScopeGraph(ms), root, x) && !Usable(ms, r, x)
    ensures !failed && owners <= authorized && targets <= authorized
  {
    var t :| t in targets;
    assert other == root;
    assert !failed;
    assert poms == authorized;
  }

  lemma OnlyMember(s: set<string>, x: string)
    requires |s| == 1 && x in s
    ensures forall y :: y in s ==> y == x
  {
    var rest := s - {x};
    assert |rest| == 0 && rest == {};
    assert s == {x} + rest;
  }

  lemma SomeRoot(g: Graph, t: string) returns (root: string)
    ensures IsRootOf(g, t, root) && Reach(g, t, root)
  {
    ReachSelf(g, t);
    if x :| IsTop(g, t, x) {
      root := x;
    } else {
      root := t;
    }
  }

  lemma OneRoot(g: Graph, targets: set<string>, roots: set<string>, root: string)
    requires targets != {}
    requires forall x :: x in roots <==> exists t :: t in targets && IsRootOf(g, t, x)
    requires forall t, x :: t in targets && IsRootOf(g, t, x) ==> x == root
    ensures |roots| == 1
  {
    var t :| t in targets;
    var x := SomeRoot(g, t);
    assert roots == {root};
  }

  // ---------------------------------------------------------------- when targets are never outside

  // Every declared parent lists its child as a module.
  ghost predicate ParentsListModules(ms: Manifests) {
    forall c, p :: c in ms && ms[c].parentRel == Some(p) ==> p in ms && c in ChildrenOf(ms[p])
  }

  /** In a reactor whose parents list their modules the root reaches every target, so the final
      containment test on targets cannot fail. */
  lemma TargetsInside(ms: Manifests, r: Reactor, unparsed: set<string>, target: string, root: string)
    requires Records(ms, ms.Keys, unparsed, r) && ParentsListModules(ms)
    requires Reach(r.reverseEdges, target, root)
    ensures Reach(ScopeGraph(ms), root, target)
  {
    forall x, y | y in Successors(r.reverseEdges, x) ensures x in Successors(ScopeGraph(ms), y) {
      UpEdgeReversed(ms, r, unparsed, x, y);
    }
    var p :| IsPath(r.reverseEdges, p) && p[0] == target && p[|p| - 1] == root;
    ReachReversed(r.reverseEdges, ScopeGraph(ms), p);
  }

  lemma UpEdgeReversed(ms: Manifests, r: Reactor, unparsed: set<string>, x: string, y: string)
    requires Records(ms, ms.Keys, unparsed, r) && ParentsListModules(ms)
    requires y in Successors(r.reverseEdges, x)
    ensures x in Successors(ScopeGraph(ms), y)
  {
    if x in ms && ms[x].parentRel == Some(y) {
      assert y in ms && x in ChildrenOf(ms[y]);
    }
  }
}
