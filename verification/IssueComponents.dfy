/** Grouping scanner records into findings by shared identifiers, with a union-find over an array
    (src/remediation_engine/orchestration/issue_identity.py:73-114). */
module IssueComponents {

  // A record's occurrence key and the identifiers that may link it to others.
  datatype Issue = Issue(occurrence: string, tokens: set<string>)

  // ---------------------------------------------------------------- forests of indices

  // Every parent is at or before its child.
  ghost predicate Forest(p: seq<nat>) {
    forall i :: 0 <= i < |p| ==> p[i] <= i
  }

  ghost function Root(p: seq<nat>, i: nat): (r: nat)
    requires Forest(p) && i < |p|
    ensures r <= i && p[r] == r
    decreases i
  {
    if p[i] == i then i else Root(p, p[i])
  }

  // Pointing a node at its grandparent moves no root.
  lemma {:induction false} HalvingKeepsRoots(p: seq<nat>, at: nat, i: nat)
    requires Forest(p) && at < |p| && i < |p|
    ensures var q := p[at := p[p[at]]]; Forest(q) && Root(q, i) == Root(p, i)
    decreases i
  {
    var q := p[at := p[p[at]]];
    assert p[p[at]] <= p[at] <= at;
    if p[i] != i {
      HalvingKeepsRoots(p, at, p[i]);
      if i == at && p[p[i]] != p[i] {
        HalvingKeepsRoots(p, at, p[p[i]]);
      }
    }
  }

  // Hanging one root below another merges their trees.
  lemma {:induction false} HangingMerges(p: seq<nat>, low: nat, high: nat, i: nat)
    requires Forest(p) && low <= high < |p| && p[low] == low && p[high] == high && i < |p|
    ensures var q := p[high := low]; Forest(q) && Root(q, i) == if Root(p, i) == high then low else Root(p, i)
    decreases i
  {
    var q := p[high := low];
    if p[i] != i { HangingMerges(p, low, high, p[i]); }
    if i == high { assert q[low] == low; }
  }

  method Find(parents: array<nat>, i: nat) returns (r: nat)
    requires i < parents.Length && Forest(parents[..])
    modifies parents
    ensures Forest(parents[..]) && r == old(Root(parents[..], i))
    ensures forall j :: 0 <= j < parents.Length ==> Root(parents[..], j) == old(Root(parents[..], j))
    ensures forall j :: 0 <= j < parents.Length ==> OnChain(old(parents[..]), j, parents[j])
  {
    ghost var was := parents[..];
    var index: nat := i;
    ChainsStart(was);
    while parents[index] != index
      invariant index < parents.Length && Forest(parents[..])
      invariant Root(parents[..], index) == Root(was, i)
      invariant forall j :: 0 <= j < parents.Length ==> Root(parents[..], j) == Root(was, j)
      invariant forall j :: 0 <= j < parents.Length ==> OnChain(was, j, parents[j])
      decreases index
    {
      ghost var p := parents[..];
      forall j: nat | j < parents.Length ensures Root(p[index := p[p[index]]], j) == Root(p, j) {
        HalvingKeepsRoots(p, index, j);
      }
      ChainStep(was, index, parents[index], parents[parents[index]]);
      parents[index] := parents[parents[index]];
      assert parents[..] == p[index := p[p[index]]];
      index := parents[index];
    }
    r := index;
  }

  // b is a, or an ancestor of a.
  ghost predicate OnChain(p: seq<nat>, a: nat, b: nat)
    requires Forest(p)
    decreases a
  {
    a < |p| && (a == b || (p[a] != a && OnChain(p, p[a], b)))
  }

  lemma ChainsStart(p: seq<nat>)
    requires Forest(p)
    ensures forall j :: 0 <= j < |p| ==> OnChain(p, j, p[j])
  {
    forall j | 0 <= j < |p| ensures OnChain(p, j, p[j]) {
      assert OnChain(p, p[j], p[j]);
    }
  }

  lemma {:induction false} ChainStep(p: seq<nat>, a: nat, b: nat, c: nat)
    requires Forest(p) && OnChain(p, a, b) && OnChain(p, b, c)
    ensures OnChain(p, a, c)
    decreases a
  {
    if a != b { ChainStep(p, p[a], b, c); }
  }

  // ---------------------------------------------------------------- linked records

  ghost predicate Linked(issues: seq<Issue>, i: nat, j: nat) {
    && i < |issues| && j < |issues| && issues[i].occurrence == issues[j].occurrence
    && exists t :: t in issues[i].tokens && t in issues[j].tokens
  }

  ghost predicate IsPath(issues: seq<Issue>, p: seq<nat>) {
    && p != [] && (forall k :: 0 <= k < |p| ==> p[k] < |issues|)
    && forall k :: 0 <= k < |p| - 1 ==> Linked(issues, p[k], p[k + 1])
  }

  /** Linked directly or through other records of the same occurrence. */
  ghost predicate Connected(issues: seq<Issue>, i: nat, j: nat) {
    exists p :: IsPath(issues, p) && p[0] == i && p[|p| - 1] == j
  }

  lemma ConnectedSelf(issues: seq<Issue>, i: nat)
    requires i < |issues|
    ensures Connected(issues, i, i)
  {
    assert IsPath(issues, [i]) && [i][0] == i;
  }

  lemma ConnectedLinked(issues: seq<Issue>, i: nat, j: nat)
    requires Linked(issues, i, j)
    ensures Connected(issues, i, j)
  {
    var p := [i, j];
    assert IsPath(issues, p) && p[0] == i && p[|p| - 1] == j;
  }

  lemma ConnectedTransitive(issues: seq<Issue>, i: nat, j: nat, k: nat)
    requires Connected(issues, i, j) && Connected(issues, j, k)
    ensures Connected(issues, i, k)
  {
    var p :| IsPath(issues, p) && p[0] == i && p[|p| - 1] == j;
    var q :| IsPath(issues, q) && q[0] == j && q[|q| - 1] == k;
    var r := p + q[1..];
    forall m | 0 <= m < |r| - 1 ensures Linked(issues, r[m], r[m + 1]) {
      if m < |p| - 1 { assert Linked(issues, p[m], p[m + 1]); }
      else { assert Linked(issues, q[m - |p| + 1], q[m - |p| + 1 + 1]); }
    }
    assert IsPath(issues, r) && r[0] == i && r[|r| - 1] == k;
  }

  lemma {:induction false} ConnectedSymmetric(issues: seq<Issue>, p: seq<nat>)
    requires IsPath(issues, p)
    ensures Connected(issues, p[|p| - 1], p[0])
    decreases |p|
  {
    if |p| == 1 {
      ConnectedSelf(issues, p[0]);
    } else {
      assert IsPath(issues, p[1..]) by {
        forall k | 0 <= k < |p[1..]| - 1 ensures Linked(issues, p[1..][k], p[1..][k + 1]) {
          assert Linked(issues, p[k + 1], p[k + 1 + 1]);
        }
      }
      ConnectedSymmetric(issues, p[1..]);
      assert Linked(issues, p[0], p[0 + 1]);
      ConnectedLinked(issues, p[1], p[0]);
      ConnectedTransitive(issues, p[|p| - 1], p[1], p[0]);
    }
  }

  lemma ConnectedFlip(issues: seq<Issue>, i: nat, j: nat)
    requires Connected(issues, i, j)
    ensures Connected(issues, j, i)
  {
    var p :| IsPath(issues, p) && p[0] == i && p[|p| - 1] == j;
    ConnectedSymmetric(issues, p);
  }

  // ---------------------------------------------------------------- what the union-find records

  // Every record is connected to its parent, hence to its root.
  ghost predicate Sound(issues: seq<Issue>, p: seq<nat>) {
    && Forest(p) && |p| == |issues|
    && forall i :: 0 <= i < |p| ==> Connected(issues, i, p[i])
  }

  lemma {:induction false} SoundRoot(issues: seq<Issue>, p: seq<nat>, i: nat)
    requires Sound(issues, p) && i < |p|
    ensures Connected(issues, i, Root(p, i))
    decreases i
  {
    if p[i] == i {
      ConnectedSelf(issues, i);
    } else {
      SoundRoot(issues, p, p[i]);
      ConnectedTransitive(issues, i, p[i], Root(p, i));
    }
  }

  lemma {:induction false} SoundChain(issues: seq<Issue>, p: seq<nat>, a: nat, b: nat)
    requires Sound(issues, p) && OnChain(p, a, b)
    ensures Connected(issues, a, b)
    decreases a
  {
    if a == b {
      ConnectedSelf(issues, a);
    } else {
      SoundChain(issues, p, p[a], b);
      ConnectedTransitive(issues, a, p[a], b);
    }
  }

  type FirstSeen = map<(string, string), nat>

  // The token was seen at a record, and the given record has been joined with it.
  ghost predicate Joined(issues: seq<Issue>, p: seq<nat>, first: FirstSeen, i: nat, t: string)
    requires Forest(p) && |p| == |issues| && i < |issues|
  {
    var key := (issues[i].occurrence, t);
    && key in first && first[key] < |issues|
    && issues[first[key]].occurrence == issues[i].occurrence && t in issues[first[key]].tokens
    && Root(p, i) == Root(p, first[key])
  }

  ghost predicate SameRoots(p: seq<nat>, q: seq<nat>) {
    && Forest(p) && Forest(q) && |p| == |q|
    && forall i :: 0 <= i < |p| ==> Root(p, i) == Root(q, i)
  }

  // Trees only ever merge.
  ghost predicate Coarser(p: seq<nat>, q: seq<nat>) {
    && Forest(p) && Forest(q) && |p| == |q|
    && forall i, j :: 0 <= i < |p| && 0 <= j < |p| && Root(p, i) == Root(p, j) ==> Root(q, i) == Root(q, j)
  }

  method FindSound(issues: seq<Issue>, parents: array<nat>, i: nat) returns (r: nat)
    requires i < parents.Length && Sound(issues, parents[..])
    modifies parents
    ensures Sound(issues, parents[..]) && SameRoots(old(parents[..]), parents[..]) && r == old(Root(parents[..], i))
  {
    ghost var was := parents[..];
    r := Find(parents, i);
    forall j | 0 <= j < parents.Length ensures Connected(issues, j, parents[j]) {
      SoundChain(issues, was, j, parents[j]);
    }
  }

  lemma RootsConnected(issues: seq<Issue>, p: seq<nat>, left: nat, right: nat)
    requires Sound(issues, p) && Linked(issues, left, right)
    ensures Connected(issues, Root(p, left), Root(p, right)) && Connected(issues, Root(p, right), Root(p, left))
  {
    SoundRoot(issues, p, left);
    SoundRoot(issues, p, right);
    ConnectedLinked(issues, left, right);
    ConnectedFlip(issues, left, Root(p, left));
    ConnectedTransitive(issues, Root(p, left), left, right);
    ConnectedTransitive(issues, Root(p, left), right, Root(p, right));
    ConnectedFlip(issues, Root(p, left), Root(p, right));
  }

  method Union(issues: seq<Issue>, parents: array<nat>, left: nat, right: nat)
    requires Sound(issues, parents[..]) && Linked(issues, left, right)
    modifies parents
    ensures Sound(issues, parents[..]) && Coarser(old(parents[..]), parents[..])
    ensures Root(parents[..], left) == Root(parents[..], right)
  {
    ghost var was := parents[..];
    var leftRoot := FindSound(issues, parents, left);
    var rightRoot := FindSound(issues, parents, right);
    ghost var p := parents[..];
    if leftRoot != rightRoot {
      var low: nat, high: nat := if leftRoot <= rightRoot then leftRoot else rightRoot,
                                 if leftRoot <= rightRoot then rightRoot else leftRoot;
      parents[high] := low;
      assert parents[..] == p[high := low];
      RootsMerged(issues, p, low, high, left, right);
    }
  }

  lemma RootsMerged(issues: seq<Issue>, p: seq<nat>, low: nat, high: nat, left: nat, right: nat)
    requires Sound(issues, p) && Linked(issues, left, right) && low <= high
    requires {low, high} == {Root(p, left), Root(p, right)}
    ensures var q := p[high := low]; Sound(issues, q) && Coarser(p, q) && Root(q, left) == Root(q, right)
  {
    RootsConnected(issues, p, left, right);
    assert high == Root(p, left) || high == Root(p, right);
    assert low == Root(p, left) || low == Root(p, right);
    forall i: nat | i < |p| ensures Root(p[high := low], i) == if Root(p, i) == high then low else Root(p, i) {
      HangingMerges(p, low, high, i);
    }
    HangingMerges(p, low, high, left);
    assert Root(p, left) in {low, high} && Root(p, right) in {low, high};
    if low == high { ConnectedSelf(issues, low); }
    assert Connected(issues, high, low);
  }

  lemma JoinedKept(issues: seq<Issue>, p: seq<nat>, q: seq<nat>, first: FirstSeen, i: nat, t: string)
    requires Coarser(p, q) && |p| == |issues| && i < |issues| && Joined(issues, p, first, i, t)
    ensures Joined(issues, q, first, i, t)
  {
  }

  // Everything seen so far: all tokens of the first n records, and some of the next.
  ghost predicate Covered(issues: seq<Issue>, p: seq<nat>, first: FirstSeen, n: nat, some: set<string>)
    requires Forest(p) && |p| == |issues|
  {
    && n <= |issues|
    && (forall k, t :: 0 <= k < n && t in issues[k].tokens ==> Joined(issues, p, first, k, t))
    && (n < |issues| ==> forall t :: t in some ==> Joined(issues, p, first, n, t))
    && (forall key :: key in first ==>
          first[key] < |issues| && issues[first[key]].occurrence == key.0 && key.1 in issues[first[key]].tokens)
  }

  // One token of a record.
  method JoinToken(issues: seq<Issue>, parents: array<nat>, first: FirstSeen, index: nat, token: string, ghost done: set<string>)
    returns (next: FirstSeen)
    requires index < |issues| && token in issues[index].tokens
    requires Sound(issues, parents[..]) && Covered(issues, parents[..], first, index, done)
    modifies parents
    ensures Sound(issues, parents[..]) && Covered(issues, parents[..], next, index, done + {token})
  {
    var key := (issues[index].occurrence, token);
    ghost var was := parents[..];
    if key in first {
      Union(issues, parents, index, first[key]);
      forall k: nat, t | k < |issues| && Joined(issues, was, first, k, t) ensures Joined(issues, parents[..], first, k, t) {
        JoinedKept(issues, was, parents[..], first, k, t);
      }
      next := first;
    } else {
      next := first[key := index];
      forall k: nat, t | k < |issues| && Joined(issues, was, first, k, t) ensures Joined(issues, was, next, k, t) {
      }
    }
  }

  // All tokens of a record.
  method JoinTokens(issues: seq<Issue>, parents: array<nat>, first: FirstSeen, index: nat) returns (next: FirstSeen)
    requires index < |issues| && Sound(issues, parents[..]) && Covered(issues, parents[..], first, index, {})
    modifies parents
    ensures Sound(issues, parents[..]) && Covered(issues, parents[..], next, index, issues[index].tokens)
  {
    var tokens := issues[index].tokens;
    var rest := tokens;
    next := first;
    while rest != {}
      invariant rest <= tokens && Sound(issues, parents[..])
      invariant Covered(issues, parents[..], next, index, tokens - rest)
      decreases rest
    {
      var token :| token in rest;
      next := JoinToken(issues, parents, next, index, token, tokens - rest);
      assert tokens - (rest - {token}) == tokens - rest + {token};
      rest := rest - {token};
    }
    assert tokens - rest == tokens;
  }

  lemma CoveredNext(issues: seq<Issue>, p: seq<nat>, first: FirstSeen, n: nat)
    requires Forest(p) && |p| == |issues| && n < |issues| && Covered(issues, p, first, n, issues[n].tokens)
    ensures Covered(issues, p, first, n + 1, {})
  {
  }

  lemma SelfSound(issues: seq<Issue>, p: seq<nat>)
    requires |p| == |issues| && forall i :: 0 <= i < |p| ==> p[i] == i
    ensures Sound(issues, p)
  {
    forall i: nat | i < |p| ensures Connected(issues, i, p[i]) {
      ConnectedSelf(issues, i);
    }
  }

  lemma CoveredLinks(issues: seq<Issue>, p: seq<nat>, first: FirstSeen)
    requires Forest(p) && |p| == |issues| && Covered(issues, p, first, |issues|, {})
    ensures forall i, j :: Linked(issues, i, j) ==> Root(p, i) == Root(p, j)
  {
    forall i: nat, j: nat | Linked(issues, i, j) ensures Root(p, i) == Root(p, j) {
      var t :| t in issues[i].tokens && t in issues[j].tokens;
      assert Joined(issues, p, first, i, t) && Joined(issues, p, first, j, t);
    }
  }

  method JoinAll(issues: seq<Issue>, parents: array<nat>)
    requires parents.Length == |issues| && forall i :: 0 <= i < |issues| ==> parents[i] == i
    modifies parents
    ensures Sound(issues, parents[..])
    ensures forall i, j :: Linked(issues, i, j) ==> Root(parents[..], i) == Root(parents[..], j)
  {
    SelfSound(issues, parents[..]);
    var first: FirstSeen := map[];
    for index := 0 to |issues|
      invariant Sound(issues, parents[..]) && Covered(issues, parents[..], first, index, {})
    {
      first := JoinTokens(issues, parents, first, index);
      CoveredNext(issues, parents[..], first, index);
    }
    CoveredLinks(issues, parents[..], first);
  }

  /** Once the tokens are joined, two records have the same root exactly when they are connected. */
  lemma RootsAreComponents(issues: seq<Issue>, p: seq<nat>, i: nat, j: nat)
    requires Sound(issues, p) && i < |p| && j < |p|
    requires forall a, b :: Linked(issues, a, b) ==> Root(p, a) == Root(p, b)
    ensures Root(p, i) == Root(p, j) <==> Connected(issues, i, j)
  {
    if Root(p, i) == Root(p, j) {
      SoundRoot(issues, p, i);
      SoundRoot(issues, p, j);
      ConnectedFlip(issues, j, Root(p, j));
      ConnectedTransitive(issues, i, Root(p, i), j);
    }
    if Connected(issues, i, j) {
      var path :| IsPath(issues, path) && path[0] == i && path[|path| - 1] == j;
      RootsAlong(issues, p, path, |path| - 1);
    }
  }

  lemma {:induction false} RootsAlong(issues: seq<Issue>, p: seq<nat>, path: seq<nat>, k: nat)
    requires Sound(issues, p) && IsPath(issues, path) && k < |path|
    requires forall a, b :: Linked(issues, a, b) ==> Root(p, a) == Root(p, b)
    ensures Root(p, path[0]) == Root(p, path[k])
  {
    if k > 0 {
      RootsAlong(issues, p, path, k - 1);
      assert Linked(issues, path[k - 1], path[k - 1 + 1]);
    }
  }

  // ---------------------------------------------------------------- the groups

  // Of the first n records, those with a root, in order.
  ghost function Members(p: seq<nat>, root: nat, n: nat): seq<nat>
    requires Forest(p) && n <= |p|
  {
    if n == 0 then [] else Members(p, root, n - 1) + if Root(p, n - 1) == root then [n - 1] else []
  }

  // The roots below n, in order.
  ghost function RootsBelow(p: seq<nat>, n: nat): seq<nat>
    requires Forest(p) && n <= |p|
  {
    if n == 0 then [] else RootsBelow(p, n - 1) + if p[n - 1] == n - 1 then [n - 1] else []
  }

  ghost predicate Ascending(s: seq<nat>) {
    forall a, b :: 0 <= a < b < |s| ==> s[a] < s[b]
  }

  lemma AscendingAppend(s: seq<nat>, x: nat)
    requires Ascending(s) && forall i :: i in s ==> i < x
    ensures Ascending(s + [x])
  {
    assert forall a :: 0 <= a < |s| ==> s[a] in s;
  }

  lemma {:induction false} MembersAre(p: seq<nat>, root: nat, n: nat)
    requires Forest(p) && n <= |p|
    ensures Ascending(Members(p, root, n))
    ensures forall i: nat :: i in Members(p, root, n) <==> i < n && Root(p, i) == root
  {
    if n > 0 {
      MembersAre(p, root, n - 1);
      AscendingAppend(Members(p, root, n - 1), n - 1);
    }
  }

  // A root is the first member of its tree.
  lemma {:induction false} RootFirst(p: seq<nat>, root: nat, n: nat)
    requires Forest(p) && root < n <= |p| && p[root] == root
    ensures Members(p, root, n) != [] && Members(p, root, n)[0] == root
  {
    if root < n - 1 {
      RootFirst(p, root, n - 1);
    } else {
      MembersAre(p, root, n - 1);
      NoMember(Members(p, root, n - 1));
    }
  }

  lemma NoMember(s: seq<nat>)
    ensures s == [] || exists i :: i in s
  {
    if s != [] { assert s[0] in s; }
  }

  lemma {:induction false} RootsBelowAre(p: seq<nat>, n: nat)
    requires Forest(p) && n <= |p|
    ensures Ascending(RootsBelow(p, n))
    ensures forall i: nat :: i in RootsBelow(p, n) <==> i < n && p[i] == i
  {
    if n > 0 {
      RootsBelowAre(p, n - 1);
      AscendingAppend(RootsBelow(p, n - 1), n - 1);
    }
  }

  lemma {:induction false} SameMembers(p: seq<nat>, q: seq<nat>, root: nat, n: nat)
    requires SameRoots(p, q) && n <= |p|
    ensures Members(p, root, n) == Members(q, root, n)
  {
    if n > 0 { SameMembers(p, q, root, n - 1); }
  }

  ghost predicate Before(x: seq<nat>, y: seq<nat>) {
    x != [] && y != [] && x[0] < y[0]
  }

  ghost predicate InSome(components: seq<seq<nat>>, i: nat) {
    exists c :: 0 <= c < |components| && i in components[c]
  }

  ghost predicate Together(components: seq<seq<nat>>, c: nat, i: nat) {
    c < |components| && i in components[c]
  }

  /** The canonical findings: every record in exactly one, two records together exactly when they are
      connected, records in source order within a finding, findings in order of their first record. */
  ghost predicate AreComponents(issues: seq<Issue>, components: seq<seq<nat>>) {
    && (forall c: nat, i: nat :: Together(components, c, i) ==> i < |issues|)
    && (forall i: nat :: i < |issues| ==> InSome(components, i))
    && (forall c :: 0 <= c < |components| ==> Ascending(components[c]))
    && (forall c, d :: 0 <= c < d < |components| ==> Before(components[c], components[d]))
    && (forall c: nat, d: nat, i: nat, j: nat :: Together(components, c, i) && Together(components, d, j) ==> (c == d <==> Connected(issues, i, j)))
  }

  // The members of one tree, in order.
  ghost predicate IsTree(p: seq<nat>, root: nat, s: seq<nat>)
    requires Forest(p)
  {
    && Ascending(s) && s != [] && s[0] == root
    && forall i: nat :: i in s <==> i < |p| && Root(p, i) == root
  }

  // The dictionary from roots to members, and its insertion order, after n records.
  ghost predicate Collected(p: seq<nat>, n: nat, components: map<nat, seq<nat>>, order: seq<nat>)
    requires Forest(p) && n <= |p|
  {
    && order == RootsBelow(p, n)
    && (forall r :: r in components <==> r in order)
    && (forall r :: r in components ==> components[r] == Members(p, r, n))
  }

  // A record is the first of its tree exactly when it is its own parent.
  lemma FirstMet(p: seq<nat>, n: nat)
    requires Forest(p) && n < |p|
    ensures Root(p, n) in RootsBelow(p, n) <==> p[n] != n
    ensures p[n] == n ==> Members(p, n, n) == []
  {
    RootsBelowAre(p, n);
    if p[n] == n {
      MembersAre(p, n, n);
      NoMember(Members(p, n, n));
    }
  }

  lemma CollectedStep(p: seq<nat>, n: nat, components: map<nat, seq<nat>>, order: seq<nat>, r: nat, grown: map<nat, seq<nat>>)
    requires Forest(p) && n < |p| && Collected(p, n, components, order) && r == Root(p, n)
    requires grown == components[r := (if r in components then components[r] else []) + [n]]
    ensures Collected(p, n + 1, grown, if r in components then order else order + [r])
  {
    FirstMet(p, n);
    assert RootsBelow(p, n + 1) == RootsBelow(p, n) + if p[n] == n then [n] else [];
    forall k | k in grown ensures grown[k] == Members(p, k, n + 1) {
      assert Members(p, k, n + 1) == Members(p, k, n) + if r == k then [n] else [];
    }
  }

  /** Groups the records by root, in the order the roots are first met. */
  method CollectByRoot(issues: seq<Issue>, parents: array<nat>) returns (byRoot: map<nat, seq<nat>>, order: seq<nat>)
    requires Sound(issues, parents[..])
    modifies parents
    ensures var p := old(parents[..]); Collected(p, |p|, byRoot, order)
  {
    ghost var p := parents[..];
    byRoot, order := map[], [];
    for index := 0 to |issues|
      invariant Sound(issues, parents[..]) && SameRoots(p, parents[..])
      invariant Collected(p, index, byRoot, order)
    {
      ghost var before, listed := byRoot, order;
      var root := FindSound(issues, parents, index);
      byRoot, order := AddToTree(byRoot, order, root, index);
      CollectedStep(p, index, before, listed, root, byRoot);
    }
  }

  method AddToTree(components: map<nat, seq<nat>>, order: seq<nat>, root: nat, index: nat)
    returns (grown: map<nat, seq<nat>>, listed: seq<nat>)
    ensures grown == components[root := (if root in components then components[root] else []) + [index]]
    ensures listed == if root in components then order else order + [root]
  {
    grown, listed := components, order;
    if root !in grown {
      grown := grown[root := []];
      listed := listed + [root];
    }
    grown := grown[root := grown[root] + [index]];
  }

  lemma CollectedTrees(p: seq<nat>, byRoot: map<nat, seq<nat>>, order: seq<nat>)
    requires Forest(p) && Collected(p, |p|, byRoot, order)
    ensures forall c: nat :: c < |order| ==> order[c] in byRoot && IsTree(p, order[c], byRoot[order[c]])
  {
    RootsBelowAre(p, |p|);
    forall c: nat | c < |order| ensures order[c] in byRoot && IsTree(p, order[c], byRoot[order[c]]) {
      assert order[c] in order;
      MembersAreTree(p, order[c]);
    }
  }

  lemma MembersAreTree(p: seq<nat>, root: nat)
    requires Forest(p) && root < |p| && p[root] == root
    ensures IsTree(p, root, Members(p, root, |p|))
  {
    MembersAre(p, root, |p|);
    RootFirst(p, root, |p|);
  }

  lemma EveryTreeListed(p: seq<nat>, order: seq<nat>, components: seq<seq<nat>>, i: nat)
    requires Forest(p) && order == RootsBelow(p, |p|) && |components| == |order| && i < |p|
    requires forall c: nat :: c < |order| ==> IsTree(p, order[c], components[c])
    ensures InSome(components, i)
  {
    RootsBelowAre(p, |p|);
    assert Root(p, i) in order;
    var c: nat :| c < |order| && order[c] == Root(p, i);
    assert IsTree(p, order[c], components[c]);
    assert i in components[c];
  }

  lemma GroupsAreComponents(issues: seq<Issue>, p: seq<nat>, order: seq<nat>, components: seq<seq<nat>>)
    requires Sound(issues, p) && order == RootsBelow(p, |p|) && |components| == |order|
    requires forall i, j :: Linked(issues, i, j) ==> Root(p, i) == Root(p, j)
    requires forall c: nat :: c < |order| ==> IsTree(p, order[c], components[c])
    ensures AreComponents(issues, components)
  {
    assert Ascending(order) by { RootsBelowAre(p, |p|); }
    forall i: nat | i < |issues| ensures InSome(components, i) {
      EveryTreeListed(p, order, components, i);
    }
    forall c: nat, d: nat, i: nat, j: nat | Together(components, c, i) && Together(components, d, j)
      ensures c == d <==> Connected(issues, i, j)
    {
      assert IsTree(p, order[c], components[c]) && IsTree(p, order[d], components[d]);
      RootsAreComponents(issues, p, i, j);
    }
  }

  /** The union-find computes the connected components of the records. */
  method CanonicalIssueComponents(issues: seq<Issue>) returns (components: seq<seq<nat>>)
    ensures AreComponents(issues, components)
  {
    if issues == [] {
      return [];
    }
    var parents := new nat[|issues|](i => i);
    JoinAll(issues, parents);
    ghost var p := parents[..];
    var byRoot, order := CollectByRoot(issues, parents);
    CollectedTrees(p, byRoot, order);
    components := seq(|order|, k requires 0 <= k < |order| && order[k] in byRoot => byRoot[order[k]]);
    GroupsAreComponents(issues, p, order, components);
  }
}
