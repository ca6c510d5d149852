/** Choosing the next Maven version to try
    (src/remediation_engine/contracts/version_policy.py:230-280). */
module MavenSelection {
  import opened Wrappers
  import Text
  import opened MavenOrder
  import opened MavenParser
  import opened MavenVersions

  datatype Stage = OsvMinimum | MavenLatest | OtherStage

  datatype Candidate = Candidate(version: string, securityFloorMet: bool, isStable: bool,
                                 alreadyAttempted: bool, selectionRoles: seq<string>)

  function Role(stage: Stage): string
    requires !stage.OtherStage?
  {
    if stage.OsvMinimum? then "maven_minimum" else "maven_latest"
  }

  // A malformed operand falls back to comparing the texts.
  predicate SameVersion(version: string, attempted: string) {
    match CompareVersions(version, attempted)
    case Some(order) => order == 0
    case None => version == attempted
  }

  ghost predicate WasAttempted(version: string, attempted: set<string>) {
    exists a :: a in attempted && Text.Strip(a) != "" && SameVersion(version, Text.Strip(a))
  }

  ghost predicate Eligible(c: Candidate, stage: Stage, attempted: set<string>) {
    && !stage.OtherStage?
    && Role(stage) in c.selectionRoles
    && c.securityFloorMet && c.isStable
    && IsStable(Text.Strip(c.version))
    && !c.alreadyAttempted
    && !WasAttempted(Text.Strip(c.version), attempted)
  }

  ghost function EligibleAt(candidates: seq<Candidate>, stage: Stage, attempted: set<string>): set<nat> {
    set i: nat | i < |candidates| && Eligible(candidates[i], stage, attempted)
  }

  ghost predicate IsRelease(form: seq<Item>) {
    Canonical(form) && NoPreRelease(Qualifiers(form))
  }

  // Whether the stage strictly prefers one form.
  predicate Prefers(stage: Stage, x: seq<Item>, y: seq<Item>) {
    if stage.OsvMinimum? then CompareLists(x, y) < 0 else CompareLists(y, x) < 0
  }

  ghost function FormOf(version: string): seq<Item> {
    if Valid(version) then Parse(version).value else []
  }

  ghost function Form(c: Candidate): seq<Item> {
    FormOf(c.version)
  }

  // The extremum of the eligible candidates, the earliest of its spellings.
  ghost predicate IsPick(candidates: seq<Candidate>, stage: Stage, attempted: set<string>, i: nat) {
    && i in EligibleAt(candidates, stage, attempted)
    && forall j :: j in EligibleAt(candidates, stage, attempted) ==>
         && !Prefers(stage, Form(candidates[j]), Form(candidates[i]))
         && (j < i ==> Prefers(stage, Form(candidates[i]), Form(candidates[j])))
  }

  // What one selection returns.
  ghost predicate IsResult(candidates: seq<Candidate>, stage: Stage, attempted: set<string>, r: Option<string>) {
    && (r.None? <==> EligibleAt(candidates, stage, attempted) == {})
    && (r.Some? ==> exists i: nat :: IsPick(candidates, stage, attempted, i) && r.value == candidates[i].version)
  }

  /** Only candidates authorized for the stage by their role, above the security floor, stable by their
      mark and by their version, and not attempted are eligible, and all of those are. */
  lemma EligibleExactly(c: Candidate, stage: Stage, attempted: set<string>)
    ensures Eligible(c, stage, attempted) <==>
              && ((stage == OsvMinimum && "maven_minimum" in c.selectionRoles) || (stage == MavenLatest && "maven_latest" in c.selectionRoles))
              && c.securityFloorMet && c.isStable && IsStable(c.version) && !c.alreadyAttempted
              && !(exists a :: a in attempted && Valid(a) && FormOf(a) == FormOf(c.version))
  {
    StripParse(c.version);
    if Valid(c.version) { AttemptBlocks(c.version, attempted); }
  }

  lemma StripParse(version: string)
    ensures Parse(Text.Strip(version)) == Parse(version)
    ensures IsStable(Text.Strip(version)) == IsStable(version)
  {
    Text.StripIdempotent(version);
  }

  lemma EligibleForm(c: Candidate, stage: Stage, attempted: set<string>)
    requires Eligible(c, stage, attempted)
    ensures Valid(c.version) && IsRelease(Form(c))
  {
    StripParse(c.version);
    StableForm(c.version);
  }

  lemma PreferenceOrder(stage: Stage, x: seq<Item>, y: seq<Item>, z: seq<Item>)
    requires IsRelease(x) && IsRelease(y) && IsRelease(z)
    ensures Prefers(stage, x, y) ==> !Prefers(stage, y, x)
    ensures !Prefers(stage, x, y) && !Prefers(stage, y, x) ==> x == y
    ensures Prefers(stage, x, y) && !Prefers(stage, z, y) ==> Prefers(stage, x, z)
  {
    ReleaseOrder(x, y, z);
    ReleaseOrder(z, y, x);
    ReleaseOrder(y, x, x);
    ListsAntisymmetric(y, z);
  }

  // ---------------------------------------------------------------- the two loops

  method IsAttempted(version: string, attempted: set<string>) returns (r: bool)
    ensures r == WasAttempted(version, attempted)
  {
    var rest := attempted;
    while rest != {}
      invariant rest <= attempted
      invariant forall a :: a in attempted - rest ==> !(Text.Strip(a) != "" && SameVersion(version, Text.Strip(a)))
      decreases rest
    {
      var a :| a in rest;
      if Text.Strip(a) != "" && SameVersion(version, Text.Strip(a)) {
        return true;
      }
      rest := rest - {a};
    }
    return false;
  }

  method IsEligible(candidate: Candidate, stage: Stage, attempted: set<string>) returns (r: bool)
    requires !stage.OtherStage?
    ensures r == Eligible(candidate, stage, attempted)
  {
    var version := Text.Strip(candidate.version);
    if Role(stage) !in candidate.selectionRoles || !candidate.securityFloorMet || !candidate.isStable
       || !IsStable(version) || candidate.alreadyAttempted {
      return false;
    }
    var tried := IsAttempted(version, attempted);
    return !tried;
  }

  // The chosen positions among the first n, in order.
  ghost predicate Filtered(chosen: set<nat>, n: nat, positions: seq<nat>) {
    && (forall k :: 0 <= k < |positions| ==> positions[k] < n && positions[k] in chosen)
    && (forall k, l :: 0 <= k < l < |positions| ==> positions[k] < positions[l])
    && (forall j :: j in chosen && j < n ==> j in positions)
  }

  lemma FilteredStep(chosen: set<nat>, n: nat, positions: seq<nat>)
    requires Filtered(chosen, n, positions)
    ensures Filtered(chosen, n + 1, if n in chosen then positions + [n] else positions)
  {
    assert (positions + [n])[|positions|] == n;
    assert forall j :: j in positions ==> j in positions + [n];
  }

  // The candidates at these positions below n.
  ghost predicate Picked(candidates: seq<Candidate>, n: nat, positions: seq<nat>, eligible: seq<Candidate>) {
    && n <= |candidates| && |eligible| == |positions|
    && forall k :: 0 <= k < |eligible| ==> positions[k] < n && eligible[k] == candidates[positions[k]]
  }

  method IsChosen(candidates: seq<Candidate>, stage: Stage, attempted: set<string>, n: nat) returns (keep: bool)
    requires n < |candidates| && !stage.OtherStage?
    ensures keep <==> n in EligibleAt(candidates, stage, attempted)
  {
    keep := IsEligible(candidates[n], stage, attempted);
  }

  method KeepIf(candidates: seq<Candidate>, n: nat, keep: bool, eligible: seq<Candidate>,
                ghost positions: seq<nat>, ghost chosen: set<nat>)
    returns (longer: seq<Candidate>, ghost at: seq<nat>)
    requires n < |candidates| && (keep <==> n in chosen)
    requires Filtered(chosen, n, positions) && Picked(candidates, n, positions, eligible)
    ensures Filtered(chosen, n + 1, at) && Picked(candidates, n + 1, at, longer)
  {
    FilteredStep(chosen, n, positions);
    longer, at := eligible, positions;
    if keep {
      longer, at := eligible + [candidates[n]], positions + [n];
    }
  }

  method FilterEligible(candidates: seq<Candidate>, stage: Stage, attempted: set<string>) returns (eligible: seq<Candidate>)
    requires !stage.OtherStage?
    ensures AreEligible(candidates, stage, attempted, eligible)
  {
    ghost var chosen, positions := EligibleAt(candidates, stage, attempted), [];
    eligible := [];
    for n := 0 to |candidates|
      invariant Filtered(chosen, n, positions) && Picked(candidates, n, positions, eligible)
    {
      var keep := IsChosen(candidates, stage, attempted, n);
      eligible, positions := KeepIf(candidates, n, keep, eligible, positions, chosen);
    }
  }

  // Stable versions compare by their forms.
  method CompareCandidates(x: Candidate, y: Candidate) returns (order: int)
    requires Valid(x.version) && Valid(y.version)
    ensures order == CompareLists(Form(x), Form(y)) == -CompareLists(Form(y), Form(x))
  {
    EqualVersions(x.version, y.version);
    order := CompareVersions(x.version, y.version).value;
  }

  // The earliest extremum of the first n forms.
  ghost predicate Leads(stage: Stage, forms: seq<seq<Item>>, n: nat, at: nat) {
    && at < n <= |forms|
    && (forall l :: 0 <= l < n ==> !Prefers(stage, forms[l], forms[at]))
    && (forall l :: 0 <= l < at ==> Prefers(stage, forms[at], forms[l]))
  }

  lemma LeadsStart(stage: Stage, forms: seq<seq<Item>>)
    requires forms != []
    ensures Leads(stage, forms, 1, 0)
  {
    ListsReflexive(forms[0]);
  }

  lemma LeadsStep(stage: Stage, forms: seq<seq<Item>>, n: nat, at: nat)
    requires n < |forms| && Leads(stage, forms, n, at)
    requires forall k :: 0 <= k < |forms| ==> IsRelease(forms[k])
    ensures Leads(stage, forms, n + 1, if Prefers(stage, forms[n], forms[at]) then n else at)
  {
    if Prefers(stage, forms[n], forms[at]) {
      forall l | 0 <= l <= n
        ensures !Prefers(stage, forms[l], forms[n]) && (l < n ==> Prefers(stage, forms[n], forms[l]))
      {
        ListsReflexive(forms[n]);
        if l < n {
          PreferenceOrder(stage, forms[n], forms[at], forms[l]);
          PreferenceOrder(stage, forms[n], forms[l], forms[l]);
        }
      }
    }
  }

  ghost function FormsOf(eligible: seq<Candidate>): (forms: seq<seq<Item>>)
    ensures |forms| == |eligible| && forall k :: 0 <= k < |forms| ==> forms[k] == Form(eligible[k])
  {
    seq(|eligible|, k requires 0 <= k < |eligible| => Form(eligible[k]))
  }

  ghost predicate LedBy(stage: Stage, n: nat, eligible: seq<Candidate>, selected: Candidate, at: nat) {
    Leads(stage, FormsOf(eligible), n, at) && selected == eligible[at]
  }

  method FoldPreferred(eligible: seq<Candidate>, stage: Stage) returns (selected: Candidate)
    requires eligible != []
    requires forall k :: 0 <= k < |eligible| ==> Valid(eligible[k].version) && IsRelease(Form(eligible[k]))
    ensures exists at: nat :: LedBy(stage, |eligible|, eligible, selected, at)
  {
    selected := eligible[0];
    ghost var at: nat := 0;
    LeadsStart(stage, FormsOf(eligible));
    for k := 1 to |eligible|
      invariant at < k && LedBy(stage, k, eligible, selected, at)
    {
      LeadsStep(stage, FormsOf(eligible), k, at);
      var order := CompareCandidates(eligible[k], selected);
      if (stage.OsvMinimum? && order < 0) || (!stage.OsvMinimum? && order > 0) {
        selected, at := eligible[k], k;
      }
    }
  }

  // The candidates that pass the filter.
  ghost predicate AreEligible(candidates: seq<Candidate>, stage: Stage, attempted: set<string>, eligible: seq<Candidate>) {
    exists positions :: Filtered(EligibleAt(candidates, stage, attempted), |candidates|, positions)
                        && Picked(candidates, |candidates|, positions, eligible)
  }

  lemma EligibleReleases(candidates: seq<Candidate>, stage: Stage, attempted: set<string>, eligible: seq<Candidate>)
    requires AreEligible(candidates, stage, attempted, eligible)
    ensures forall k :: 0 <= k < |eligible| ==> Valid(eligible[k].version) && IsRelease(Form(eligible[k]))
  {
    var positions :| Filtered(EligibleAt(candidates, stage, attempted), |candidates|, positions)
                     && Picked(candidates, |candidates|, positions, eligible);
    forall k | 0 <= k < |eligible|
      ensures Valid(eligible[k].version) && IsRelease(Form(eligible[k]))
    {
      assert positions[k] in EligibleAt(candidates, stage, attempted);
      EligibleForm(eligible[k], stage, attempted);
    }
  }

  lemma NoneEligible(candidates: seq<Candidate>, stage: Stage, attempted: set<string>)
    requires stage.OtherStage? || AreEligible(candidates, stage, attempted, [])
    ensures IsResult(candidates, stage, attempted, None)
  {
    if !stage.OtherStage? {
      var positions :| Filtered(EligibleAt(candidates, stage, attempted), |candidates|, positions)
                       && Picked(candidates, |candidates|, positions, []);
      assert positions == [];
    }
  }

  // The fold's end is a pick.
  lemma LedIsPick(candidates: seq<Candidate>, stage: Stage, attempted: set<string>, eligible: seq<Candidate>, selected: Candidate, at: nat)
    ensures AreEligible(candidates, stage, attempted, eligible) && LedBy(stage, |eligible|, eligible, selected, at) ==>
              exists i: nat :: IsPick(candidates, stage, attempted, i) && candidates[i] == selected
  {
    if AreEligible(candidates, stage, attempted, eligible) && LedBy(stage, |eligible|, eligible, selected, at) {
      var positions :| Filtered(EligibleAt(candidates, stage, attempted), |candidates|, positions)
                       && Picked(candidates, |candidates|, positions, eligible);
      EarliestExtremum(candidates, stage, attempted, positions, eligible, at);
      assert candidates[positions[at]] == selected;
    }
  }

  lemma PickIsResult(candidates: seq<Candidate>, stage: Stage, attempted: set<string>, i: nat)
    ensures IsPick(candidates, stage, attempted, i) ==>
              i < |candidates| && IsResult(candidates, stage, attempted, Some(candidates[i].version))
  {
    if IsPick(candidates, stage, attempted, i) {
      assert i in EligibleAt(candidates, stage, attempted);
    }
  }

  /** Returns the eligible version the stage prefers, and None exactly when none is eligible. */
  method SelectMavenVersion(candidates: seq<Candidate>, stage: Stage, attempted: set<string>)
    returns (r: Option<string>)
    ensures IsResult(candidates, stage, attempted, r)
  {
    if stage.OtherStage? {
      NoneEligible(candidates, stage, attempted);
      return None;
    }
    var eligible := FilterEligible(candidates, stage, attempted);
    if eligible == [] {
      NoneEligible(candidates, stage, attempted);
      return None;
    }
    EligibleReleases(candidates, stage, attempted, eligible);
    var selected := FoldPreferred(eligible, stage);
    ghost var at: nat :| LedBy(stage, |eligible|, eligible, selected, at);
    LedIsPick(candidates, stage, attempted, eligible, selected, at);
    ghost var i: nat :| IsPick(candidates, stage, attempted, i) && candidates[i] == selected;
    PickIsResult(candidates, stage, attempted, i);
    return Some(selected.version);
  }

  lemma EarliestExtremum(candidates: seq<Candidate>, stage: Stage, attempted: set<string>,
                         positions: seq<nat>, eligible: seq<Candidate>, at: nat)
    ensures Filtered(EligibleAt(candidates, stage, attempted), |candidates|, positions)
            && Picked(candidates, |candidates|, positions, eligible) && Leads(stage, FormsOf(eligible), |eligible|, at) ==>
              IsPick(candidates, stage, attempted, positions[at])
  {
    var chosen, forms := EligibleAt(candidates, stage, attempted), FormsOf(eligible);
    if Filtered(chosen, |candidates|, positions) && Picked(candidates, |candidates|, positions, eligible)
       && Leads(stage, forms, |eligible|, at) {
      forall j | j in chosen
        ensures !Prefers(stage, Form(candidates[j]), Form(candidates[positions[at]]))
        ensures j < positions[at] ==> Prefers(stage, Form(candidates[positions[at]]), Form(candidates[j]))
      {
        var k :| 0 <= k < |positions| && positions[k] == j;
        assert forms[k] == Form(candidates[j]) && forms[at] == Form(candidates[positions[at]]);
        assert k > at ==> positions[at] < positions[k];
        assert k == at ==> positions[at] == positions[k];
      }
    }
  }

  // ---------------------------------------------------------------- selecting again and again

  /** An attempt blocks exactly the versions with its canonical form; a malformed attempt blocks
      no valid version. */
  lemma AttemptBlocks(version: string, attempted: set<string>)
    requires Valid(version)
    ensures WasAttempted(Text.Strip(version), attempted) <==>
              exists a :: a in attempted && Valid(a) && FormOf(a) == FormOf(version)
  {
    StripParse(version);
    forall a | a in attempted
      ensures Text.Strip(a) != "" && SameVersion(Text.Strip(version), Text.Strip(a)) <==>
                Valid(a) && FormOf(a) == FormOf(version)
    {
      AttemptMatches(version, a);
    }
  }

  lemma AttemptMatches(version: string, a: string)
    requires Valid(version) && Valid(Text.Strip(version))
    ensures Text.Strip(a) != "" && SameVersion(Text.Strip(version), Text.Strip(a)) <==>
              Valid(a) && FormOf(a) == FormOf(version)
  {
    StripParse(version);
    StripParse(a);
    if Valid(a) {
      EqualVersions(Text.Strip(version), Text.Strip(a));
      ValidNotBlank(a);
    }
  }

  lemma ValidNotBlank(a: string)
    requires Valid(a)
    ensures Text.Strip(a) != ""
  {
  }

  lemma EligibleAfter(c: Candidate, stage: Stage, attempted: set<string>, v: string)
    requires Valid(v)
    ensures Eligible(c, stage, attempted + {v}) <==> Eligible(c, stage, attempted) && Form(c) != FormOf(v)
  {
    StripParse(c.version);
    if Valid(c.version) {
      AttemptBlocks(c.version, attempted);
      AttemptBlocks(c.version, attempted + {v});
    }
  }

  // The canonical forms still eligible.
  ghost function EligibleForms(candidates: seq<Candidate>, stage: Stage, attempted: set<string>): set<seq<Item>> {
    set i | i in EligibleAt(candidates, stage, attempted) :: Form(candidates[i])
  }

  lemma FormsAfter(candidates: seq<Candidate>, stage: Stage, attempted: set<string>, v: string)
    requires Valid(v)
    ensures EligibleForms(candidates, stage, attempted + {v}) == EligibleForms(candidates, stage, attempted) - {FormOf(v)}
  {
    forall i: nat | i < |candidates|
      ensures i in EligibleAt(candidates, stage, attempted + {v}) <==>
                i in EligibleAt(candidates, stage, attempted) && Form(candidates[i]) != FormOf(v)
    {
      EligibleAfter(candidates[i], stage, attempted, v);
    }
  }

  // One selection takes the extremal form.
  ghost predicate Takes(stage: Stage, left: set<seq<Item>>, f: seq<Item>) {
    f in left && forall g :: g in left && g != f ==> Prefers(stage, f, g)
  }

  lemma PickTakes(candidates: seq<Candidate>, stage: Stage, attempted: set<string>, v: string)
    ensures IsResult(candidates, stage, attempted, Some(v)) ==>
              Valid(v) && Takes(stage, EligibleForms(candidates, stage, attempted), FormOf(v))
  {
    if IsResult(candidates, stage, attempted, Some(v)) {
      var i: nat :| IsPick(candidates, stage, attempted, i) && v == candidates[i].version;
      EligibleForm(candidates[i], stage, attempted);
      forall j | j in EligibleAt(candidates, stage, attempted) && Form(candidates[j]) != FormOf(v)
        ensures Prefers(stage, FormOf(v), Form(candidates[j]))
      {
        EligibleForm(candidates[j], stage, attempted);
        PreferenceOrder(stage, FormOf(v), Form(candidates[j]), Form(candidates[j]));
      }
    }
  }

  // Successive selections, each pick joining the attempted versions.
  ghost predicate Run(candidates: seq<Candidate>, stage: Stage, attempted: set<string>, picks: seq<string>)
    decreases |picks|
  {
    picks == [] ||
    (IsResult(candidates, stage, attempted, Some(picks[0])) && Run(candidates, stage, attempted + {picks[0]}, picks[1..]))
  }

  ghost function AttemptedAfter(attempted: set<string>, picks: seq<string>): set<string>
    decreases |picks|
  {
    if picks == [] then attempted else AttemptedAfter(attempted + {picks[0]}, picks[1..])
  }

  ghost function Forms(picks: seq<string>): seq<seq<Item>> {
    if picks == [] then [] else [FormOf(picks[0])] + Forms(picks[1..])
  }

  // The same run on forms: each taken form leaves the set.
  ghost predicate TakesInTurn(stage: Stage, left: set<seq<Item>>, taken: seq<seq<Item>>)
    decreases |taken|
  {
    taken == [] || (Takes(stage, left, taken[0]) && TakesInTurn(stage, left - {taken[0]}, taken[1..]))
  }

  ghost function LeftAfter(left: set<seq<Item>>, taken: seq<seq<Item>>): set<seq<Item>>
    decreases |taken|
  {
    if taken == [] then left else LeftAfter(left - {taken[0]}, taken[1..])
  }

  lemma {:induction false} RunTakes(candidates: seq<Candidate>, stage: Stage, attempted: set<string>, picks: seq<string>)
    requires Run(candidates, stage, attempted, picks)
    ensures TakesInTurn(stage, EligibleForms(candidates, stage, attempted), Forms(picks))
    ensures EligibleForms(candidates, stage, AttemptedAfter(attempted, picks)) ==
              LeftAfter(EligibleForms(candidates, stage, attempted), Forms(picks))
    decreases |picks|
  {
    if picks != [] {
      PickTakes(candidates, stage, attempted, picks[0]);
      FormsAfter(candidates, stage, attempted, picks[0]);
      RunTakes(candidates, stage, attempted + {picks[0]}, picks[1..]);
      assert Forms(picks)[1..] == Forms(picks[1..]);
    }
  }

  // A strictly ordered enumeration.
  ghost predicate Ordered(stage: Stage, taken: seq<seq<Item>>) {
    forall k, l :: 0 <= k < l < |taken| ==> taken[k] != taken[l] && Prefers(stage, taken[k], taken[l])
  }

  ghost function Members(taken: seq<seq<Item>>): set<seq<Item>> {
    set f | f in taken
  }

  lemma {:induction false} TakenOrdered(stage: Stage, left: set<seq<Item>>, taken: seq<seq<Item>>)
    requires TakesInTurn(stage, left, taken)
    ensures Members(taken) <= left && LeftAfter(left, taken) == left - Members(taken)
    ensures Ordered(stage, taken) && |taken| <= |left|
    decreases |taken|
  {
    if taken != [] {
      var rest := taken[1..];
      TakenOrdered(stage, left - {taken[0]}, rest);
      MembersCons(taken);
      OrderedCons(stage, left, taken);
    }
  }

  lemma MembersCons(taken: seq<seq<Item>>)
    requires taken != []
    ensures Members(taken) == {taken[0]} + Members(taken[1..])
  {
  }

  lemma OrderedCons(stage: Stage, left: set<seq<Item>>, taken: seq<seq<Item>>)
    requires taken != [] && Ordered(stage, taken[1..])
    requires Takes(stage, left, taken[0]) && Members(taken[1..]) <= left - {taken[0]}
    ensures Ordered(stage, taken)
  {
    var rest := taken[1..];
    forall k, l | 0 <= k < l < |taken|
      ensures taken[k] != taken[l] && Prefers(stage, taken[k], taken[l])
    {
      assert taken[l] == rest[l - 1] && rest[l - 1] in Members(rest);
      if k > 0 { assert taken[k] == rest[k - 1]; }
    }
  }

  /** Selecting again and again, with each pick attempted, enumerates eligible canonical forms in
      strict order (increasing for the minimum stage, decreasing for the latest) without repeating
      one under another spelling; it cannot outlast the eligible candidates, and it ends in None
      exactly when every eligible form has been picked. */
  lemma RunEnumerates(candidates: seq<Candidate>, stage: Stage, attempted: set<string>, picks: seq<string>)
    requires Run(candidates, stage, attempted, picks)
    ensures Ordered(stage, Forms(picks))
    ensures Members(Forms(picks)) <= EligibleForms(candidates, stage, attempted)
    ensures |picks| <= |EligibleForms(candidates, stage, attempted)|
    ensures IsResult(candidates, stage, AttemptedAfter(attempted, picks), None) <==>
              Members(Forms(picks)) == EligibleForms(candidates, stage, attempted)
  {
    RunLeaves(candidates, stage, attempted, picks, EligibleForms(candidates, stage, attempted), Forms(picks));
    NoneLeft(candidates, stage, AttemptedAfter(attempted, picks));
    AllTaken(EligibleForms(candidates, stage, attempted), Members(Forms(picks)));
  }

  lemma RunLeaves(candidates: seq<Candidate>, stage: Stage, attempted: set<string>, picks: seq<string>,
                  left: set<seq<Item>>, taken: seq<seq<Item>>)
    requires Run(candidates, stage, attempted, picks)
    requires left == EligibleForms(candidates, stage, attempted) && taken == Forms(picks)
    ensures Ordered(stage, taken) && Members(taken) <= left && |picks| <= |left|
    ensures EligibleForms(candidates, stage, AttemptedAfter(attempted, picks)) == left - Members(taken)
  {
    RunTakes(candidates, stage, attempted, picks);
    TakenOrdered(stage, left, taken);
    FormsLength(picks);
  }

  lemma AllTaken<T>(left: set<T>, taken: set<T>)
    requires taken <= left
    ensures left - taken == {} <==> taken == left
  {
    forall x | x in left && left - taken == {} ensures x in taken {
      assert x !in left - taken;
    }
  }

  lemma {:induction false} FormsLength(picks: seq<string>)
    ensures |Forms(picks)| == |picks|
  {
    if picks != [] { FormsLength(picks[1..]); }
  }

  lemma NoneLeft(candidates: seq<Candidate>, stage: Stage, attempted: set<string>)
    ensures IsResult(candidates, stage, attempted, None) <==> EligibleForms(candidates, stage, attempted) == {}
  {
    var chosen := EligibleAt(candidates, stage, attempted);
    if chosen != {} {
      var i :| i in chosen;
      assert Form(candidates[i]) in EligibleForms(candidates, stage, attempted);
    }
  }
}
