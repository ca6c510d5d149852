/** Maven version items and the comparator over them
    (src/remediation_engine/contracts/version_policy.py). */
module MavenOrder {
  import opened Wrappers
  import Text

  // One element of a parsed version: an int, a str or a nested tuple.
  datatype Item = Num(n: nat) | Str(s: string) | Lst(items: seq<Item>)

  const UNKNOWN_QUALIFIER := 7

  // Position in _MAVEN_QUALIFIER_ORDER, or its length for an unknown qualifier.
  function QualifierIndex(q: string): nat {
    if q == "alpha" then 0
    else if q == "beta" then 1
    else if q == "milestone" then 2
    else if q == "rc" then 3
    else if q == "snapshot" then 4
    else if q == "" then 5
    else if q == "sp" then 6
    else UNKNOWN_QUALIFIER
  }

  function CompareInts(a: int, b: int): int {
    if a < b then -1 else if a > b then 1 else 0
  }

  function CompareQualifiers(left: string, right: string): (r: int)
    ensures -1 <= r <= 1
  {
    var l, r := Text.Lower(left), Text.Lower(right);
    var li, ri := QualifierIndex(l), QualifierIndex(r);
    if li == UNKNOWN_QUALIFIER == ri then Text.Compare(l, r) else CompareInts(li, ri)
  }

  // Node counts, the termination measure of the comparator.
  function Size(x: Item): (n: nat)
    ensures n >= 1
  {
    match x
    case Lst(items) => 1 + SizeAll(items)
    case _ => 1
  }

  function SizeAll(xs: seq<Item>): nat {
    if xs == [] then 0 else Size(xs[0]) + SizeAll(xs[1..])
  }

  lemma SizeBelow(xs: seq<Item>)
    requires xs != [] && xs[0].Lst?
    ensures SizeAll(xs[0].items) < SizeAll(xs)
  {
    assert Size(xs[0]) == 1 + SizeAll(xs[0].items);
  }

  function Head(xs: seq<Item>): Option<Item> {
    if xs == [] then None else Some(xs[0])
  }

  function Tail(xs: seq<Item>): seq<Item> {
    if xs == [] then [] else xs[1..]
  }

  // An item against the padding that stands for a missing one.
  function CompareToNull(x: Item): (r: int)
    ensures -1 <= r <= 1
    decreases x
  {
    match x
    case Num(n) => if n == 0 then 0 else 1
    case Str(s) => CompareQualifiers(s, "")
    case Lst(items) => CompareAllToNull(items)
  }

  function CompareAllToNull(xs: seq<Item>): (r: int)
    ensures -1 <= r <= 1
    decreases xs
  {
    if xs == [] then 0 else
      var c := CompareToNull(xs[0]);
      if c != 0 then c else CompareAllToNull(xs[1..])
  }

  function OptionSize(x: Option<Item>): nat {
    if x.None? then 0 else Size(x.value)
  }

  function CompareItems(left: Option<Item>, right: Option<Item>): (r: int)
    ensures -1 <= r <= 1
    decreases OptionSize(left) + OptionSize(right), 0
  {
    match (left, right)
    case (None, None) => 0
    case (None, Some(y)) => -CompareToNull(y)
    case (Some(x), None) => CompareToNull(x)
    case (Some(Num(a)), Some(Num(b))) => CompareInts(a, b)
    case (Some(Num(_)), Some(_)) => 1
    case (Some(Str(a)), Some(Str(b))) => CompareQualifiers(a, b)
    case (Some(Str(_)), Some(_)) => -1
    case (Some(Lst(_)), Some(Num(_))) => -1
    case (Some(Lst(_)), Some(Str(_))) => 1
    case (Some(Lst(a)), Some(Lst(b))) => CompareLists(a, b)
  }

  // Position by position, the shorter list padded.
  function CompareLists(left: seq<Item>, right: seq<Item>): (r: int)
    ensures -1 <= r <= 1
    decreases SizeAll(left) + SizeAll(right), 1
  {
    if left == [] && right == [] then 0 else
      var c := CompareItems(Head(left), Head(right));
      if c != 0 then c else CompareLists(Tail(left), Tail(right))
  }

  // ---------------------------------------------------------------- qualifiers

  lemma QualifiersAntisymmetric(a: string, b: string)
    ensures CompareQualifiers(a, b) == -CompareQualifiers(b, a)
  {
    Text.CompareAntisymmetric(Text.Lower(a), Text.Lower(b));
  }

  lemma QualifiersZero(a: string, b: string)
    ensures CompareQualifiers(a, b) == 0 <==> Text.Lower(a) == Text.Lower(b)
  {
    Text.CompareZero(Text.Lower(a), Text.Lower(b));
  }

  lemma QualifiersTransitive(a: string, b: string, c: string)
    requires CompareQualifiers(a, b) <= 0 && CompareQualifiers(b, c) <= 0
    ensures CompareQualifiers(a, c) <= 0
  {
    var l, m, r := Text.Lower(a), Text.Lower(b), Text.Lower(c);
    if QualifierIndex(l) == QualifierIndex(m) == QualifierIndex(r) == UNKNOWN_QUALIFIER {
      Text.CompareTransitive(l, m, r);
    }
  }

  // ---------------------------------------------------------------- antisymmetry

  /** Swapping the operands negates the result, on every pair of nested items. */
  lemma {:induction false} ItemsAntisymmetric(left: Option<Item>, right: Option<Item>)
    ensures CompareItems(left, right) == -CompareItems(right, left)
    decreases OptionSize(left) + OptionSize(right), 0
  {
    match (left, right)
    case (Some(Str(a)), Some(Str(b))) => QualifiersAntisymmetric(a, b);
    case (Some(Lst(a)), Some(Lst(b))) => ListsAntisymmetric(a, b);
    case _ =>
  }

  lemma {:induction false} ListsAntisymmetric(left: seq<Item>, right: seq<Item>)
    ensures CompareLists(left, right) == -CompareLists(right, left)
    decreases SizeAll(left) + SizeAll(right), 1
  {
    if left != [] || right != [] {
      ItemsAntisymmetric(Head(left), Head(right));
      ListsAntisymmetric(Tail(left), Tail(right));
    }
  }

  // ---------------------------------------------------------------- canonical forms

  // What the parser's trimming removes from the end of a list.
  predicate IsNull(x: Item) {
    match x
    case Num(n) => n == 0
    case Str(s) => s == ""
    case Lst(items) => items == []
  }

  /** A trimmed spine of lower-case items: only the last item may be a list, a list is never
      empty, and a null item is always followed by another scalar. */
  predicate Canonical(xs: seq<Item>)
    decreases xs
  {
    xs == [] ||
    if xs[0].Lst? then |xs| == 1 && xs[0].items != [] && Canonical(xs[0].items)
    else
      && (xs[0].Str? ==> Text.Lower(xs[0].s) == xs[0].s)
      && (IsNull(xs[0]) ==> |xs| > 1 && !xs[1].Lst?)
      && Canonical(xs[1..])
  }

  // A non-empty canonical list never compares equal to nothing at all.
  lemma {:induction false} CanonicalNotNull(xs: seq<Item>)
    requires Canonical(xs) && xs != []
    ensures CompareAllToNull(xs) != 0
    decreases xs
  {
    match xs[0]
    case Lst(items) =>
      CanonicalNotNull(items);
    case Str(s) =>
      QualifiersZero(s, "");
      if xs[1..] != [] { CanonicalNotNull(xs[1..]); }
    case Num(n) =>
      if xs[1..] != [] { CanonicalNotNull(xs[1..]); }
  }

  lemma {:induction false} CompareWithNothing(xs: seq<Item>)
    ensures CompareLists(xs, []) == CompareAllToNull(xs)
    ensures CompareLists([], xs) == -CompareAllToNull(xs)
  {
    if xs != [] { CompareWithNothing(xs[1..]); }
  }

  lemma {:induction false} ListsReflexive(xs: seq<Item>)
    ensures CompareLists(xs, xs) == 0
  {
    ListsAntisymmetric(xs, xs);
  }

  /** On canonical forms the comparator answers 0 exactly for identical forms. */
  lemma {:induction false} ListsZero(left: seq<Item>, right: seq<Item>)
    requires Canonical(left) && Canonical(right)
    ensures CompareLists(left, right) == 0 <==> left == right
    decreases SizeAll(left) + SizeAll(right), 1
  {
    ListsReflexive(left);
    if left == [] {
      CompareWithNothing(right);
      if right != [] { CanonicalNotNull(right); }
    } else if right == [] {
      CompareWithNothing(left);
      CanonicalNotNull(left);
    } else if CompareLists(left, right) == 0 {
      HeadsZero(left, right);
      ListsZero(left[1..], right[1..]);
      assert left == [left[0]] + left[1..] && right == [right[0]] + right[1..];
    }
  }

  lemma {:induction false} HeadsZero(left: seq<Item>, right: seq<Item>)
    requires Canonical(left) && Canonical(right) && left != [] && right != []
    requires CompareItems(Some(left[0]), Some(right[0])) == 0
    ensures left[0] == right[0]
    decreases SizeAll(left) + SizeAll(right), 0
  {
    match (left[0], right[0])
    case (Str(a), Str(b)) => QualifiersZero(a, b);
    case (Lst(a), Lst(b)) =>
      SizeBelow(left); SizeBelow(right);
      ListsZero(a, b);
    case _ =>
  }

  // ---------------------------------------------------------------- what ranks where

  const QUALIFIER_ORDER := ["alpha", "beta", "milestone", "rc", "snapshot", "", "sp"]

  /** Words that are a table entry in some case are in the table's order, equal entries compare equal,
      any other word is above all of them, and two other words are in lower-case string order. */
  lemma QualifierChain(i: nat, j: nat, a: string, b: string, u: string, v: string)
    requires i < |QUALIFIER_ORDER| && j < |QUALIFIER_ORDER|
    requires Text.Lower(a) == QUALIFIER_ORDER[i] && Text.Lower(b) == QUALIFIER_ORDER[j]
    requires Text.Lower(u) !in QUALIFIER_ORDER && Text.Lower(v) !in QUALIFIER_ORDER
    ensures CompareQualifiers(a, b) == CompareInts(i, j)
    ensures CompareQualifiers(a, u) == -1 && CompareQualifiers(u, a) == 1
    ensures CompareQualifiers(u, v) == Text.Compare(Text.Lower(u), Text.Lower(v))
  {
    KnownIndex(i);
    KnownIndex(j);
    UnknownIndex(Text.Lower(u));
    UnknownIndex(Text.Lower(v));
  }

  lemma KnownIndex(i: nat)
    requires i < |QUALIFIER_ORDER|
    ensures QualifierIndex(QUALIFIER_ORDER[i]) == i
  {
  }

  lemma UnknownIndex(q: string)
    requires q !in QUALIFIER_ORDER
    ensures QualifierIndex(q) == UNKNOWN_QUALIFIER
  {
    assert forall k :: 0 <= k < |QUALIFIER_ORDER| ==> QUALIFIER_ORDER[k] != q;
    assert QUALIFIER_ORDER[0] == "alpha" && QUALIFIER_ORDER[1] == "beta" && QUALIFIER_ORDER[2] == "milestone";
    assert QUALIFIER_ORDER[3] == "rc" && QUALIFIER_ORDER[4] == "snapshot" && QUALIFIER_ORDER[5] == "" && QUALIFIER_ORDER[6] == "sp";
  }

  /** A common front cancels. */
  lemma {:induction false} PrefixCancels(p: seq<Item>, a: seq<Item>, b: seq<Item>)
    ensures CompareLists(p + a, p + b) == CompareLists(a, b)
  {
    if p == [] {
      assert p + a == a && p + b == b;
    } else {
      ItemsAntisymmetric(Some(p[0]), Some(p[0]));
      assert Head(p + a) == Some(p[0]) == Head(p + b);
      assert Tail(p + a) == p[1..] + a && Tail(p + b) == p[1..] + b;
      PrefixCancels(p[1..], a, b);
    }
  }

  /** After any common front: pre-release words, then nothing, then other words, then lists, then
      numbers; whatever follows. */
  lemma SuffixRanks(p: seq<Item>, q: string, w: string, l: seq<Item>, n: nat, a: seq<Item>, b: seq<Item>)
    requires IsPreRelease(q) && CompareQualifiers(w, "") > 0 && n > 0
    ensures CompareLists(p + ([Str(q)] + a), p) < 0 && CompareLists(p, p + ([Str(w)] + b)) < 0
    ensures CompareLists(p + ([Str(q)] + a), p + ([Str(w)] + b)) < 0
    ensures CompareLists(p + ([Str(w)] + a), p + ([Lst(l)] + b)) < 0
    ensures CompareLists(p + ([Lst(l)] + a), p + ([Num(n)] + b)) < 0
    ensures CompareLists(p, p + ([Num(n)] + b)) < 0
  {
    var pre, word, list, number := [Str(q)] + a, [Str(w)] + b, [Lst(l)] + b, [Num(n)] + b;
    assert p + [] == p;
    PrefixCancels(p, pre, []);
    PrefixCancels(p, [], word);
    PrefixCancels(p, pre, word);
    PrefixCancels(p, [Str(w)] + a, list);
    PrefixCancels(p, [Lst(l)] + a, number);
    PrefixCancels(p, [], number);
    QualifiersAntisymmetric(w, "");
    BelowReleaseBelow(q, w);
  }

  lemma BelowReleaseBelow(q: string, w: string)
    requires IsPreRelease(q) && CompareQualifiers(w, "") > 0
    ensures CompareQualifiers(q, w) < 0
  {
    QualifiersAntisymmetric(w, "");
    QualifiersTransitive(q, "", w);
    QualifiersZero(q, w);
    QualifiersZero(q, "");
    assert Text.Lower(q) == Text.Lower(w) ==> CompareQualifiers(q, "") == CompareQualifiers(w, "");
  }

  // ---------------------------------------------------------------- release forms

  // The strings of a form, at every depth.
  function Qualifiers(xs: seq<Item>): set<string>
    decreases xs
  {
    if xs == [] then {} else
      (match xs[0]
       case Num(_) => {}
       case Str(s) => {s}
       case Lst(items) => Qualifiers(items)) + Qualifiers(xs[1..])
  }

  // Ranked below the plain release: alpha, beta, milestone, rc, snapshot.
  predicate IsPreRelease(q: string) {
    CompareQualifiers(q, "") < 0
  }

  ghost predicate NoPreRelease(qs: set<string>) {
    forall q :: q in qs ==> !IsPreRelease(q)
  }

  lemma {:induction false} ReleaseAboveNull(xs: seq<Item>)
    requires Canonical(xs) && xs != [] && NoPreRelease(Qualifiers(xs))
    ensures CompareAllToNull(xs) == 1
    decreases xs
  {
    CanonicalNotNull(xs);
    if CompareToNull(xs[0]) == 0 {
      if xs[1..] != [] { ReleaseAboveNull(xs[1..]); }
    } else if xs[0].Lst? {
      ReleaseAboveNull(xs[0].items);
    } else if xs[0].Str? {
      assert xs[0].s in Qualifiers(xs);
    }
  }

  /** Without pre-release qualifiers the comparator is transitive on canonical forms. */
  lemma {:induction false} ReleaseTransitive(a: seq<Item>, b: seq<Item>, c: seq<Item>)
    requires Canonical(a) && Canonical(b) && Canonical(c)
    requires NoPreRelease(Qualifiers(a)) && NoPreRelease(Qualifiers(b)) && NoPreRelease(Qualifiers(c))
    requires CompareLists(a, b) <= 0 && CompareLists(b, c) <= 0
    ensures CompareLists(a, c) <= 0
    decreases SizeAll(a) + SizeAll(b) + SizeAll(c), 1
  {
    CompareWithNothing(a); CompareWithNothing(b); CompareWithNothing(c);
    if a == [] {
      if c != [] { ReleaseAboveNull(c); }
    } else if b == [] {
      ReleaseAboveNull(a);
    } else if c == [] {
      ReleaseAboveNull(b);
    } else {
      ReleaseHeadsTransitive(a, b, c);
      if CompareItems(Some(a[0]), Some(b[0])) == 0 { HeadsZero(a, b); }
      if CompareItems(Some(b[0]), Some(c[0])) == 0 { HeadsZero(b, c); }
      if CompareItems(Some(a[0]), Some(c[0])) == 0 {
        HeadsZero(a, c);
        ItemsAntisymmetric(Some(a[0]), Some(b[0]));
        if CompareItems(Some(a[0]), Some(b[0])) == 0 {
          ReleaseTransitive(a[1..], b[1..], c[1..]);
        }
      }
    }
  }

  lemma {:induction false} ReleaseHeadsTransitive(a: seq<Item>, b: seq<Item>, c: seq<Item>)
    requires Canonical(a) && Canonical(b) && Canonical(c) && a != [] && b != [] && c != []
    requires NoPreRelease(Qualifiers(a)) && NoPreRelease(Qualifiers(b)) && NoPreRelease(Qualifiers(c))
    requires CompareItems(Some(a[0]), Some(b[0])) <= 0 && CompareItems(Some(b[0]), Some(c[0])) <= 0
    ensures CompareItems(Some(a[0]), Some(c[0])) <= 0
    decreases SizeAll(a) + SizeAll(b) + SizeAll(c), 0
  {
    match (a[0], b[0], c[0])
    case (Str(x), Str(y), Str(z)) => QualifiersTransitive(x, y, z);
    case (Lst(x), Lst(y), Lst(z)) =>
      SizeBelow(a); SizeBelow(b); SizeBelow(c);
      ReleaseTransitive(x, y, z);
    case _ =>
  }

  /** On those forms the comparator is a strict total order. */
  lemma {:induction false} ReleaseOrder(a: seq<Item>, b: seq<Item>, c: seq<Item>)
    requires Canonical(a) && Canonical(b) && Canonical(c)
    requires NoPreRelease(Qualifiers(a)) && NoPreRelease(Qualifiers(b)) && NoPreRelease(Qualifiers(c))
    ensures CompareLists(a, b) < 0 || CompareLists(b, a) < 0 || a == b
    ensures !(CompareLists(a, b) < 0 && CompareLists(b, a) < 0) && (a == b ==> CompareLists(a, b) == 0)
    ensures CompareLists(a, b) <= 0 && CompareLists(b, c) <= 0 ==>
              CompareLists(a, c) <= 0 && (CompareLists(a, c) == 0 ==> a == b == c)
  {
    ListsAntisymmetric(a, b);
    ListsAntisymmetric(b, c);
    ListsAntisymmetric(a, c);
    ListsZero(a, b);
    ListsZero(a, c);
    if CompareLists(a, b) <= 0 && CompareLists(b, c) <= 0 {
      ReleaseTransitive(a, b, c);
    }
  }
}
