/** Laws of version strings: what equality and order mean, where the order is transitive, and
    which spellings are the same version
    (src/remediation_engine/contracts/version_policy.py:146-227). */
module MavenVersions {
  import opened Wrappers
  import Text
  import opened MavenOrder
  import opened MavenParser
  import opened MavenRender

  predicate Valid(version: string) {
    Parse(version).Some?
  }

  // None stands for the ValueError of a malformed operand.
  function CompareVersions(left: string, right: string): Option<int> {
    if Valid(left) && Valid(right) then Some(CompareLists(Parse(left).value, Parse(right).value)) else None
  }

  predicate AtMost(left: string, right: string)
    requires Valid(left) && Valid(right)
  {
    CompareVersions(left, right).value <= 0
  }

  predicate Below(left: string, right: string)
    requires Valid(left) && Valid(right)
  {
    CompareVersions(left, right).value < 0
  }

  /** The comparator is total and antisymmetric on all valid versions, and its zeroes are exactly
      the pairs with one canonical form; so version equality is an equivalence. */
  lemma EqualVersions(left: string, right: string)
    requires Valid(left) && Valid(right)
    ensures CompareVersions(left, right).value == -CompareVersions(right, left).value
    ensures CompareVersions(left, right) == Some(0) <==> Parse(left) == Parse(right)
  {
    var l, r := Parse(left).value, Parse(right).value;
    ParseCanonical(left);
    ParseCanonical(right);
    ListsAntisymmetric(l, r);
    ListsZero(l, r);
  }

  // ---------------------------------------------------------------- where the order is transitive

  const PRE_RELEASES := {"alpha", "beta", "milestone", "rc", "snapshot"}

  ghost predicate UsesOnly(version: string, qualifiers: set<string>) {
    Valid(version) && Qualifiers(Parse(version).value) <= qualifiers
  }

  ghost predicate TransitiveOver(qualifiers: set<string>) {
    forall x, y, z :: UsesOnly(x, qualifiers) && UsesOnly(y, qualifiers) && UsesOnly(z, qualifiers) ==>
      (AtMost(x, y) && AtMost(y, z) ==> AtMost(x, z))
  }

  lemma PreReleaseQualifier(q: string)
    requires Text.Lower(q) == q
    ensures IsPreRelease(q) <==> q in PRE_RELEASES
  {
  }

  lemma TransitiveWithoutPreRelease(x: string, y: string, z: string)
    requires Valid(x) && Valid(y) && Valid(z)
    requires Qualifiers(Parse(x).value) !! PRE_RELEASES
    requires Qualifiers(Parse(y).value) !! PRE_RELEASES
    requires Qualifiers(Parse(z).value) !! PRE_RELEASES
    requires AtMost(x, y) && AtMost(y, z)
    ensures AtMost(x, z)
  {
    ReleaseForm(x);
    ReleaseForm(y);
    ReleaseForm(z);
    ReleaseTransitive(Parse(x).value, Parse(y).value, Parse(z).value);
  }

  lemma ReleaseForm(x: string)
    requires Valid(x) && Qualifiers(Parse(x).value) !! PRE_RELEASES
    ensures Canonical(Parse(x).value) && NoPreRelease(Qualifiers(Parse(x).value))
  {
    ParseCanonical(x);
    forall q | q in Qualifiers(Parse(x).value) ensures !IsPreRelease(q) {
      assert LegalQualifier(q);
      LowerWord(q);
      PreReleaseQualifier(q);
    }
  }

  // 1-1 and 1.0.q.1 and 1, as forms.
  const ONE := [Num(1)]
  const ONE_DASH_ONE := [Num(1), Lst([Num(1)])]

  function DottedQualifier(q: string): seq<Item> {
    [Num(1), Num(0), Str(q), Num(1)]
  }

  lemma RenderableCons(x: Item, c: seq<Item>)
    requires LegalScalar(x) && Renderable(c) && c != []
    requires !IsNull(x) || !c[0].Lst?
    ensures Renderable([x] + c)
  {
    assert ([x] + c)[1..] == c;
    if x.Str? { LowerWord(x.s); }
  }

  lemma RenderCons(x: Item, c: seq<Item>)
    requires LegalScalar(x) && Renderable(c) && c != [] && Renderable([x] + c)
    ensures c[0].Lst? ==> Renderable(c[0].items) && Render([x] + c) == Token(x) + "-" + Render(c[0].items)
    ensures !c[0].Lst? ==> Render([x] + c) == Token(x) + "." + Render(c)
  {
    var d := [x] + c;
    assert d[1..] == c;
    RenderableParts(c);
    assert SplitForm(d) == if c[0].Lst? then More(x, '-', c[0].items) else More(x, '.', c);
  }

  // A spelling known to be a rendering parses to the rendered form.
  lemma ParsesTo(s: string, c: seq<Item>)
    requires Renderable(c) && Render(c) == s && |s| <= 20 && c != [] && c[0].Num?
    ensures Parse(s) == Some(c)
  {
    ParseRender(c);
  }

  lemma RenderOne()
    ensures Renderable(ONE) && Render(ONE) == "1"
  {
    assert ONE[1..] == [];
  }

  lemma RenderOneDashOne()
    ensures Renderable(ONE_DASH_ONE) && Render(ONE_DASH_ONE) == "1-1"
  {
    RenderOne();
    assert [Lst(ONE)][1..] == [] && Renderable([Lst(ONE)]);
    RenderableCons(Num(1), [Lst(ONE)]);
    RenderCons(Num(1), [Lst(ONE)]);
    assert [Num(1)] + [Lst(ONE)] == ONE_DASH_ONE;
  }

  lemma DottedText(q: string)
    ensures "1" + "." + ("0" + "." + (q + ".1")) == "1.0." + q + ".1"
    ensures [Num(1)] + ([Num(0)] + ([Str(q)] + ONE)) == DottedQualifier(q)
  {
  }

  lemma RenderDotted(q: string)
    requires LegalQualifier(q) && q != ""
    ensures Renderable(DottedQualifier(q)) && Render(DottedQualifier(q)) == "1.0." + q + ".1"
  {
    RenderQualifier(q);
    var c := [Str(q)] + ONE;
    RenderDot(Num(0), c);
    RenderDot(Num(1), [Num(0)] + c);
    DottedText(q);
  }

  lemma RenderQualifier(q: string)
    requires LegalQualifier(q) && q != ""
    ensures Renderable([Str(q)] + ONE) && Render([Str(q)] + ONE) == q + ".1"
  {
    RenderOne();
    LowerWord(q);
    RenderableCons(Str(q), ONE);
    RenderCons(Str(q), ONE);
  }

  lemma RenderDot(x: Item, c: seq<Item>)
    requires x in {Num(0), Num(1)} && Renderable(c) && c != [] && !c[0].Lst?
    ensures Renderable([x] + c) && Render([x] + c) == (if x == Num(0) then "0" else "1") + "." + Render(c)
  {
    RenderableCons(x, c);
    RenderCons(x, c);
  }

  lemma CycleForms(q: string, x: string, y: string, z: string)
    requires q in PRE_RELEASES && x == "1-1" && y == "1.0." + q + ".1" && z == "1"
    ensures Parse(x) == Some(ONE_DASH_ONE) && Parse(y) == Some(DottedQualifier(q)) && Parse(z) == Some(ONE)
  {
    LegalPreRelease(q);
    RenderOneDashOne();
    RenderDotted(q);
    RenderOne();
    ParsesTo(x, ONE_DASH_ONE);
    ParsesTo(y, DottedQualifier(q));
    ParsesTo(z, ONE);
  }

  lemma LegalPreRelease(q: string)
    requires q in PRE_RELEASES
    ensures LegalQualifier(q) && Text.Lower(q) == q && q != "" && |q| <= 9
  {
    LowerWord(q);
  }

  lemma CycleComparisons(q: string)
    requires q in PRE_RELEASES
    ensures CompareLists(ONE_DASH_ONE, DottedQualifier(q)) < 0
    ensures CompareLists(DottedQualifier(q), ONE) < 0
    ensures CompareLists(ONE, ONE_DASH_ONE) < 0
    ensures Qualifiers(DottedQualifier(q)) == {q} && Qualifiers(ONE) == {} == Qualifiers(ONE_DASH_ONE)
  {
    LegalPreRelease(q);
    PreReleaseQualifier(q);
    var d := DottedQualifier(q);
    assert Tail(d) == [Num(0), Str(q), Num(1)] && Tail(Tail(d)) == [Str(q), Num(1)];
    assert Tail(ONE) == [] && Tail(ONE_DASH_ONE) == [Lst(ONE)];
    assert CompareLists(Tail(Tail(d)), []) == -1;
    assert CompareLists(Tail(d), []) == -1;
    assert CompareLists(Tail(ONE_DASH_ONE), Tail(d)) == -1;
    assert CompareLists([], Tail(ONE_DASH_ONE)) == -1;
    assert Qualifiers(Tail(Tail(Tail(d)))) == {} && Qualifiers(Tail(Tail(d))) == {q} && Qualifiers(Tail(d)) == {q};
  }

  /** Every single pre-release qualifier closes a cycle: 1-1 < 1.0.q.1 < 1 < 1-1. */
  lemma PreReleaseCycle(q: string, x: string, y: string, z: string)
    requires q in PRE_RELEASES && x == "1-1" && y == "1.0." + q + ".1" && z == "1"
    ensures UsesOnly(x, {q}) && UsesOnly(y, {q}) && UsesOnly(z, {q})
    ensures Below(x, y) && Below(y, z) && Below(z, x)
  {
    CycleForms(q, x, y, z);
    CycleComparisons(q);
  }

  lemma NoCycleOver(qualifiers: set<string>, x: string, y: string, z: string)
    requires TransitiveOver(qualifiers)
    requires UsesOnly(x, qualifiers) && UsesOnly(y, qualifiers) && UsesOnly(z, qualifiers)
    requires AtMost(x, y) && AtMost(y, z)
    ensures !Below(z, x)
  {
    assert AtMost(x, z);
    EqualVersions(z, x);
  }

  lemma NotTransitiveWith(qualifiers: set<string>, q: string)
    requires q in qualifiers && q in PRE_RELEASES
    ensures !TransitiveOver(qualifiers)
  {
    var x, y, z :| x == "1-1" && y == "1.0." + q + ".1" && z == "1";
    PreReleaseCycle(q, x, y, z);
    if TransitiveOver(qualifiers) {
      NoCycleOver(qualifiers, x, y, z);
    }
  }

  /** The comparator is transitive over the versions that use a set of qualifiers exactly when the
      set holds no pre-release qualifier. */
  lemma TransitiveExactly(qualifiers: set<string>)
    ensures TransitiveOver(qualifiers) <==> qualifiers !! PRE_RELEASES
  {
    if qualifiers !! PRE_RELEASES {
      TransitiveWithout(qualifiers);
    } else {
      var q :| q in qualifiers && q in PRE_RELEASES;
      NotTransitiveWith(qualifiers, q);
    }
  }

  lemma TransitiveWithout(qualifiers: set<string>)
    requires qualifiers !! PRE_RELEASES
    ensures TransitiveOver(qualifiers)
  {
    forall x, y, z | UsesOnly(x, qualifiers) && UsesOnly(y, qualifiers) && UsesOnly(z, qualifiers)
      ensures AtMost(x, y) && AtMost(y, z) ==> AtMost(x, z)
    {
      if AtMost(x, y) && AtMost(y, z) { TransitiveWithoutPreRelease(x, y, z); }
    }
  }

  // ---------------------------------------------------------------- stable versions

  predicate StableItems(items: seq<Item>)
    decreases items
  {
    items == [] || (
      && (match items[0]
          case Num(_) => true
          case Str(s) => s in {"", "sp"}
          case Lst(inner) => StableItems(inner))
      && StableItems(items[1..]))
  }

  predicate HasNumber(items: seq<Item>) {
    exists i :: 0 <= i < |items| && items[i].Num?
  }

  predicate IsStable(version: string) {
    Valid(version) && StableItems(Parse(version).value) && HasNumber(Parse(version).value)
  }

  lemma {:induction false} StableQualifiers(items: seq<Item>)
    ensures StableItems(items) <==> Qualifiers(items) <= {"", "sp"}
    decreases items
  {
    if items != [] {
      if items[0].Lst? { StableQualifiers(items[0].items); }
      StableQualifiers(items[1..]);
    }
  }

  /** Stable versions are totally preordered, strictly on canonical forms: of any two one is
      below, and equality only relates spellings of one form. */
  lemma StableOrder(x: string, y: string, z: string)
    requires IsStable(x) && IsStable(y) && IsStable(z)
    ensures Below(x, y) || Below(y, x) || Parse(x) == Parse(y)
    ensures !(Below(x, y) && Below(y, x)) && (Parse(x) == Parse(y) ==> !Below(x, y))
    ensures AtMost(x, y) && AtMost(y, z) ==> AtMost(x, z)
    ensures AtMost(x, y) && AtMost(y, z) && (Below(x, y) || Below(y, z)) ==> Below(x, z)
  {
    StableForm(x);
    StableForm(y);
    StableForm(z);
    ReleaseOrder(Parse(x).value, Parse(y).value, Parse(z).value);
  }

  lemma StableForm(x: string)
    requires IsStable(x)
    ensures Canonical(Parse(x).value) && NoPreRelease(Qualifiers(Parse(x).value))
  {
    StableQualifiers(Parse(x).value);
    ReleaseForm(x);
  }
}
