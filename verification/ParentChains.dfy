/** Walks up parent links, which may be missing or cyclic. */
module ParentChains {
  import opened Wrappers

  // A parent field is a link when it is present and not the empty string.
  function Link(parent: Option<string>): Option<string> {
    if parent == Some("") then None else parent
  }

  function Next(parents: map<string, Option<string>>, x: string): Option<string> {
    if x in parents then Link(parents[x]) else None
  }

  // The n-th node up from x.
  ghost function Up(parents: map<string, Option<string>>, x: string, n: nat): Option<string>
    decreases n
  {
    if n == 0 then Some(x)
    else match Next(parents, x)
         case None => None
         case Some(p) => Up(parents, p, n - 1)
  }

  /** A chain ends at a node without an entry, without a parent, or with an empty parent id, and goes on
      to any other parent. */
  lemma ChainEnds(parents: map<string, Option<string>>, x: string)
    ensures Up(parents, x, 1) == if x in parents && parents[x].Some? && parents[x].value != "" then parents[x] else None
  {
    match Next(parents, x)
    case None =>
    case Some(p) => assert Up(parents, p, 0) == Some(p);
  }

  ghost predicate Reaches(parents: map<string, Option<string>>, x: string, target: string) {
    exists n: nat :: Up(parents, x, n) == Some(target)
  }

  lemma {:induction false} UpCompose(parents: map<string, Option<string>>, x: string, m: nat, n: nat)
    ensures Up(parents, x, m + n) == match Up(parents, x, m) case None => None case Some(y) => Up(parents, y, n)
    decreases m
  {
    if m > 0 && Next(parents, x).Some? {
      UpCompose(parents, Next(parents, x).value, m - 1, n);
    }
  }

  lemma UpNext(parents: map<string, Option<string>>, x: string, n: nat)
    ensures Up(parents, x, n + 1) == match Up(parents, x, n) case None => None case Some(y) => Next(parents, y)
  {
    UpCompose(parents, x, n, 1);
    match Up(parents, x, n)
    case None =>
    case Some(y) =>
      match Next(parents, y)
      case None =>
      case Some(z) => assert Up(parents, z, 0) == Some(z);
  }

  // Nothing leaves a set that contains the next node of each member.
  lemma {:induction false} ClosedStays(parents: map<string, Option<string>>, nodes: set<string>, x: string, n: nat)
    requires x in nodes
    requires forall y :: y in nodes && Next(parents, y).Some? ==> Next(parents, y).value in nodes
    ensures Up(parents, x, n).Some? ==> Up(parents, x, n).value in nodes
    decreases n
  {
    if n > 0 && Next(parents, x).Some? {
      ClosedStays(parents, nodes, Next(parents, x).value, n - 1);
    }
  }

  // The nodes a guarded walk has passed from a start, and where it stands.
  ghost predicate Walked(parents: map<string, Option<string>>, start: Option<string>,
                         passed: set<string>, current: Option<string>, k: nat) {
    && (start.None? ==> k == 0 && current.None? && passed == {})
    && (start.Some? ==> current == Up(parents, start.value, k))
    && (start.Some? ==> forall i :: 0 <= i < k ==> Up(parents, start.value, i).Some? && Up(parents, start.value, i).value in passed)
    && (forall y :: y in passed ==> Next(parents, y) == current || (Next(parents, y).Some? && Next(parents, y).value in passed))
    && (k == 0 ==> passed == {})
  }

  lemma WalkedStep(parents: map<string, Option<string>>, start: Option<string>,
                   passed: set<string>, current: Option<string>, k: nat)
    requires Walked(parents, start, passed, current, k) && current.Some?
    ensures Walked(parents, start, passed + {current.value}, Next(parents, current.value), k + 1)
  {
    UpNext(parents, start.value, k);
  }

  // Where the walk ends, or meets itself, every node of the chain has been passed.
  lemma WalkedAll(parents: map<string, Option<string>>, start: Option<string>,
                  passed: set<string>, current: Option<string>, k: nat, n: nat)
    requires Walked(parents, start, passed, current, k) && start.Some?
    requires current.None? || current.value in passed
    ensures Up(parents, start.value, n).Some? ==> Up(parents, start.value, n).value in passed
  {
    if n < k {
    } else if current.None? {
      UpCompose(parents, start.value, k, n - k);
    } else {
      assert k > 0;
      assert Up(parents, start.value, 0) == start;
      ClosedStays(parents, passed, start.value, n);
    }
  }

  // Everything a walk can meet: the bound on its length.
  ghost function Nodes(parents: map<string, Option<string>>, start: Option<string>): set<string> {
    parents.Keys + (set x | x in parents && Link(parents[x]).Some? :: Link(parents[x]).value)
    + if start.Some? then {start.value} else {}
  }

  // The first node up the chain that lies in a set.
  ghost predicate FirstHit(parents: map<string, Option<string>>, start: Option<string>, hits: set<string>, r: Option<string>) {
    match r
    case None =>
      start.Some? ==> forall n: nat :: Up(parents, start.value, n).Some? ==> Up(parents, start.value, n).value !in hits
    case Some(h) =>
      && start.Some? && h in hits
      && exists n: nat :: Up(parents, start.value, n) == r
           && forall i: nat :: i < n ==> Up(parents, start.value, i).Some? && Up(parents, start.value, i).value !in hits
  }

  /** The cycle-safe walk finds the nearest hit exactly when the chain has one. */
  method FindOnChain(parents: map<string, Option<string>>, parent: Option<string>, hits: set<string>)
    returns (r: Option<string>)
    ensures FirstHit(parents, Link(parent), hits, r)
  {
    var current := Link(parent);
    var visited := {};
    ghost var universe := Nodes(parents, current);
    ghost var k := 0;
    while current.Some? && current.value !in visited
      invariant Walked(parents, Link(parent), visited, current, k)
      invariant visited <= universe && (current.Some? ==> current.value in universe)
      invariant visited !! hits
      decreases universe - visited
    {
      WalkedStep(parents, Link(parent), visited, current, k);
      visited := visited + {current.value};
      if current.value in hits {
        return current;
      }
      current := Next(parents, current.value);
      k := k + 1;
    }
    if Link(parent).Some? {
      forall n: nat | Up(parents, Link(parent).value, n).Some?
        ensures Up(parents, Link(parent).value, n).value !in hits
      {
        WalkedAll(parents, Link(parent), visited, current, k, n);
      }
    }
    return None;
  }
}
