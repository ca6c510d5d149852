/** What the findings tracker does to its rows, on values: identifiers, merging, adding, triage and
    the final reconciliation (demo/backend/findings_tracker.py). */
module FindingRules {
  import opened Wrappers
  import Text

  datatype Status = Flagged | Remediating | Remediated | NewlyDetected | Unresolved

  // ---------------------------------------------------------------- identifiers

  function Norm(identifier: string): string {
    Text.Upper(Text.Strip(identifier))
  }

  function NormAll(identifiers: set<string>): set<string> {
    set i | i in identifiers && Norm(i) != "" :: Norm(i)
  }

  // The normalized primary and alias identifiers of a row.
  function Identifiers(vulnId: string, aliases: set<string>): set<string> {
    NormAll({vulnId} + aliases)
  }

  lemma UpperSpaces(s: string)
    ensures |Text.Upper(s)| == |s| && forall i :: 0 <= i < |s| ==> Text.IsSpace(Text.Upper(s)[i]) == Text.IsSpace(s[i])
    ensures Text.Upper(Text.Upper(s)) == Text.Upper(s)
  {
  }

  lemma StripFixed(s: string)
    requires s == "" || (!Text.IsSpace(s[0]) && !Text.IsSpace(s[|s| - 1]))
    ensures Text.Strip(s) == s
  {
  }

  lemma NormIdempotent(s: string)
    ensures Norm(Norm(s)) == Norm(s)
  {
    var t := Text.Strip(s);
    if t != "" { assert t[0] == Text.StripLeft(s)[0]; }
    UpperSpaces(t);
    StripFixed(Text.Upper(t));
  }

  // Text whose upper-case form is normalized has no blanks to strip.
  lemma NormOfUpper(s: string)
    requires Norm(Text.Upper(s)) == Text.Upper(s)
    ensures Norm(s) == Text.Upper(s)
  {
    UpperSpaces(s);
    var u := Text.Upper(s);
    if s != "" {
      var t := Text.Strip(u);
      assert |t| == |u|;
      StripShorter(u);
      StripFixed(s);
    }
  }

  lemma {:induction false} StripShorter(s: string)
    ensures |Text.Strip(s)| <= |Text.StripLeft(s)| <= |s|
    ensures s != "" && |Text.Strip(s)| == |s| ==> !Text.IsSpace(s[0]) && !Text.IsSpace(s[|s| - 1])
  {
    StripLeftShorter(s);
    StripRightShorter(Text.StripLeft(s));
  }

  lemma {:induction false} StripLeftShorter(s: string)
    ensures |Text.StripLeft(s)| <= |s| && (s != "" && |Text.StripLeft(s)| == |s| ==> !Text.IsSpace(s[0]) && Text.StripLeft(s) == s)
  {
    if s != "" && Text.IsSpace(s[0]) { StripLeftShorter(s[1..]); }
  }

  lemma {:induction false} StripRightShorter(s: string)
    ensures |Text.StripRight(s)| <= |s| && (s != "" && |Text.StripRight(s)| == |s| ==> !Text.IsSpace(s[|s| - 1]))
  {
    if s != "" && Text.IsSpace(s[|s| - 1]) { StripRightShorter(s[..|s| - 1]); }
  }

  function WithPrefix(prefix: string, identifiers: set<string>): set<string> {
    set i | i in identifiers && prefix <= i
  }

  // The primary identifier of a merged row: a CVE before a GHSA before what the row had.
  function Primary(identifiers: set<string>, current: string): string {
    if WithPrefix("CVE-", identifiers) != {} then Text.Least(WithPrefix("CVE-", identifiers))
    else if WithPrefix("GHSA-", identifiers) != {} then Text.Least(WithPrefix("GHSA-", identifiers))
    else current
  }

  function MergedAliases(identifiers: set<string>, primary: string): set<string> {
    identifiers - {Text.Upper(primary)}
  }

  predicate StartsWith(s: string, prefix: string) {
    |s| >= |prefix| && s[..|prefix|] == prefix
  }

  // The first identifier with a prefix, in string order.
  ghost predicate IsFirstWith(identifiers: set<string>, prefix: string, i: string) {
    && i in identifiers && StartsWith(i, prefix)
    && forall j :: j in identifiers && StartsWith(j, prefix) ==> Text.Compare(i, j) <= 0
  }

  ghost predicate HasPrefix(identifiers: set<string>, prefix: string) {
    exists i :: i in identifiers && StartsWith(i, prefix)
  }

  /** The primary identifier is the first CVE if there is one, else the first GHSA, else the one before. */
  lemma PrimaryExactly(identifiers: set<string>, current: string)
    ensures HasPrefix(identifiers, "CVE-") ==> IsFirstWith(identifiers, "CVE-", Primary(identifiers, current))
    ensures !HasPrefix(identifiers, "CVE-") && HasPrefix(identifiers, "GHSA-") ==>
              IsFirstWith(identifiers, "GHSA-", Primary(identifiers, current))
    ensures !HasPrefix(identifiers, "CVE-") && !HasPrefix(identifiers, "GHSA-") ==> Primary(identifiers, current) == current
  {
    PrefixedExactly(identifiers, "CVE-");
    PrefixedExactly(identifiers, "GHSA-");
  }

  lemma PrefixedExactly(identifiers: set<string>, prefix: string)
    ensures forall i :: i in WithPrefix(prefix, identifiers) <==> i in identifiers && StartsWith(i, prefix)
    ensures WithPrefix(prefix, identifiers) != {} <==> HasPrefix(identifiers, prefix)
  {
    assert forall i :: prefix <= i <==> StartsWith(i, prefix);
    if HasPrefix(identifiers, prefix) {
      var i :| i in identifiers && StartsWith(i, prefix);
      assert i in WithPrefix(prefix, identifiers);
    }
  }

  predicate AllNormal(identifiers: set<string>) {
    forall i :: i in identifiers ==> Norm(i) == i && i != ""
  }

  lemma IdentifiersNormal(vulnId: string, aliases: set<string>)
    ensures AllNormal(Identifiers(vulnId, aliases))
  {
    forall i | i in Identifiers(vulnId, aliases) ensures Norm(i) == i && i != "" {
      var raw :| raw in {vulnId} + aliases && Norm(raw) == i;
      NormIdempotent(raw);
    }
  }

  // Normal identifiers under any primary that is one of them, or adds none.
  lemma SplitPrimary(all: set<string>, primary: string)
    requires AllNormal(all)
    requires Norm(primary) != "" ==> Norm(primary) in all
    requires Text.Upper(primary) in all ==> Norm(primary) == Text.Upper(primary)
    ensures Identifiers(primary, MergedAliases(all, primary)) == all
  {
    var raws := {primary} + MergedAliases(all, primary);
    forall i | i in NormAll(raws) ensures i in all {
      var raw :| raw in raws && Norm(raw) == i;
    }
    forall i | i in all ensures i in NormAll(raws) {
      if i == Text.Upper(primary) {
        assert primary in raws;
      } else {
        assert i in raws && Norm(i) == i;
      }
    }
  }

  /** Merging loses no identifier and invents none. */
  lemma MergeKeepsIdentifiers(vulnId: string, aliases: set<string>, incoming: set<string>)
    requires AllNormal(incoming)
    ensures var all := Identifiers(vulnId, aliases) + incoming;
            var primary := Primary(all, vulnId);
            Identifiers(primary, MergedAliases(all, primary)) == all
  {
    var all := Identifiers(vulnId, aliases) + incoming;
    var primary := Primary(all, vulnId);
    IdentifiersNormal(vulnId, aliases);
    if primary in all {
      NormalizedUpper(primary);
    } else {
      assert primary == vulnId && vulnId in {vulnId} + aliases;
      if Text.Upper(primary) in all {
        NormOfUpper(primary);
      }
    }
    SplitPrimary(all, primary);
  }

  lemma NormalizedUpper(s: string)
    requires Norm(s) == s
    ensures Text.Upper(s) == s
  {
    UpperSpaces(Text.Strip(s));
  }

  // ---------------------------------------------------------------- rows

  /** What the rules look at in a row: a row is remediated exactly when its status says so. */
  datatype Row = Row(identifiers: set<string>, occurrence: string, isNew: bool, status: Status)

  type Rows = map<string, Row>
  type Groups = map<string, set<string>>

  function GroupOf(groups: Groups, g: string): set<string> {
    if g in groups then groups[g] else {}
  }

  ghost function RemediatedIds(rows: Rows): set<string> {
    set id | id in rows && rows[id].status.Remediated?
  }

  // Membership of the groups, and some group for every remediated row.
  ghost predicate Grouped(rows: Rows, groups: Groups) {
    && (forall g, id :: g in groups && id in groups[g] ==> id in rows)
    && (forall id :: id in RemediatedIds(rows) ==> exists g :: g in groups && id in groups[g])
  }

  // ---------------------------------------------------------------- final reconciliation

  predicate PassedQa(groups: Groups, passed: set<string>, id: string) {
    exists g :: g in passed && id in GroupOf(groups, g)
  }

  /** A finding is done when a group of its passed QA and none of its identifiers is still
      reported. */
  predicate IsCleared(rows: Rows, groups: Groups, passed: set<string>, remaining: set<string>, id: string)
    requires id in rows
  {
    PassedQa(groups, passed, id) && rows[id].identifiers !! remaining
  }

  function FinalStatus(row: Row, cleared: bool): Status {
    if cleared then Remediated
    else if !row.isNew || row.status.Remediated? then Unresolved
    else row.status
  }

  function Reconciled(rows: Rows, groups: Groups, passed: set<string>, remaining: set<string>): Rows {
    map id | id in rows :: rows[id].(status := FinalStatus(rows[id], IsCleared(rows, groups, passed, remaining, id)))
  }

  /** Reconciliation remediates exactly the cleared findings, whatever was active or remediated
      before; a second one changes nothing; and it loses no row and no identifier. */
  lemma ReconciledExactly(rows: Rows, groups: Groups, passed: set<string>, remaining: set<string>)
    ensures var once := Reconciled(rows, groups, passed, remaining);
            && once.Keys == rows.Keys
            && (forall id :: id in rows ==> once[id].identifiers == rows[id].identifiers && once[id].isNew == rows[id].isNew)
            && (forall id :: id in rows ==> (id in RemediatedIds(once) <==> IsCleared(rows, groups, passed, remaining, id)))
            && Reconciled(once, groups, passed, remaining) == once
  {
    var once := Reconciled(rows, groups, passed, remaining);
    forall id | id in rows ensures IsCleared(once, groups, passed, remaining, id) == IsCleared(rows, groups, passed, remaining, id) {
    }
    assert Reconciled(once, groups, passed, remaining) == once;
  }

  /** Two histories that differ only in what they have marked reach the same remediated set. */
  lemma ReconciledIgnoresSplit(a: Rows, b: Rows, groups: Groups, passed: set<string>, remaining: set<string>)
    requires a.Keys == b.Keys && forall id :: id in a ==> a[id].identifiers == b[id].identifiers
    ensures RemediatedIds(Reconciled(a, groups, passed, remaining)) == RemediatedIds(Reconciled(b, groups, passed, remaining))
  {
    ReconciledExactly(a, groups, passed, remaining);
    ReconciledExactly(b, groups, passed, remaining);
    forall id | id in a ensures IsCleared(a, groups, passed, remaining, id) == IsCleared(b, groups, passed, remaining, id) {
    }
  }

  /** Passing more groups or reporting fewer identifiers never un-remediates a finding. */
  lemma ReconciledMonotone(rows: Rows, groups: Groups, passed: set<string>, more: set<string>,
                           remaining: set<string>, fewer: set<string>)
    requires passed <= more && fewer <= remaining
    ensures RemediatedIds(Reconciled(rows, groups, passed, remaining)) <= RemediatedIds(Reconciled(rows, groups, more, fewer))
  {
    ReconciledExactly(rows, groups, passed, remaining);
    ReconciledExactly(rows, groups, more, fewer);
  }

  // ---------------------------------------------------------------- status changes, row by row

  /** The loops over a set of rows: work starts on flagged rows; a passed group closes the rows no
      remaining identifier keeps alive; a group that did not pass withdraws the mark; a passed one
      decides by the identifiers; baseline rows still active are settled as unresolved. */
  datatype Rule = StartWork | Close(remaining: set<string>) | Withdraw | Decide(remaining: set<string>) | Settle

  function StatusAfter(rule: Rule, row: Row): Status {
    match rule
    case StartWork => if row.status.Flagged? then Remediating else row.status
    case Close(remaining) => if row.identifiers !! remaining then Remediated else row.status
    case Withdraw => if row.status.Remediated? then Unresolved else row.status
    case Decide(remaining) =>
      if row.identifiers !! remaining then Remediated
      else if row.status.Remediated? then Unresolved
      else row.status
    case Settle => if !row.isNew && !row.status.Remediated? then Unresolved else row.status
  }

  function Marked(rows: Rows, ids: set<string>, rule: Rule): Rows {
    map id | id in rows :: if id in ids then rows[id].(status := StatusAfter(rule, rows[id])) else rows[id]
  }

  lemma MarkedNone(rows: Rows, rule: Rule)
    ensures Marked(rows, {}, rule) == rows
  {
  }

  // One more row, which the loop sees as it was at the start.
  lemma MarkedStep(rows: Rows, done: set<string>, rule: Rule, id: string)
    requires id !in done
    ensures id in rows ==> Marked(rows, done, rule)[id] == rows[id]
    ensures Marked(rows, done + {id}, rule) ==
              if id in rows then Marked(rows, done, rule)[id := rows[id].(status := StatusAfter(rule, rows[id]))]
              else Marked(rows, done, rule)
    ensures id in rows && StatusAfter(rule, rows[id]) == rows[id].status ==>
              Marked(rows, done + {id}, rule) == Marked(rows, done, rule)
  {
  }

  lemma MarkedTwice(rows: Rows, a: set<string>, b: set<string>, rule: Rule)
    ensures Marked(Marked(rows, a, rule), b, rule) == Marked(rows, a + b, rule)
  {
  }

  ghost function IdsOfGroups(groups: Groups, some: set<string>): set<string> {
    set g, id | g in some && id in GroupOf(groups, g) :: id
  }

  ghost function ActiveIds(rows: Rows): set<string> {
    set id | id in rows && !rows[id].status.Remediated?
  }

  ghost function Withdrawn(rows: Rows, groups: Groups, passed: set<string>): Rows {
    Marked(rows, IdsOfGroups(groups, groups.Keys - passed), Withdraw)
  }

  ghost function Judged(rows: Rows, groups: Groups, passed: set<string>, remaining: set<string>): Rows {
    Marked(Withdrawn(rows, groups, passed), IdsOfGroups(groups, passed), Decide(remaining))
  }

  lemma PassesRow(rows: Rows, groups: Groups, passed: set<string>, remaining: set<string>, id: string)
    requires Grouped(rows, groups) && id in rows
    ensures var judged := Judged(rows, groups, passed, remaining)[id];
            StatusAfter(Settle, judged) == FinalStatus(rows[id], IsCleared(rows, groups, passed, remaining, id))
    ensures Judged(rows, groups, passed, remaining)[id] ==
              rows[id].(status := Judged(rows, groups, passed, remaining)[id].status)
  {
    assert id in IdsOfGroups(groups, passed) <==> PassedQa(groups, passed, id);
    if rows[id].status.Remediated? && !PassedQa(groups, passed, id) {
      assert id in RemediatedIds(rows);
      var g :| g in groups && id in groups[g];
      assert g in groups.Keys - passed && id in GroupOf(groups, g);
      assert id in IdsOfGroups(groups, groups.Keys - passed);
    }
  }

  /** The passes together are the declarative reconciliation. */
  lemma PassesReconcile(rows: Rows, groups: Groups, passed: set<string>, remaining: set<string>)
    requires Grouped(rows, groups)
    ensures var judged := Judged(rows, groups, passed, remaining);
            Marked(judged, ActiveIds(judged), Settle) == Reconciled(rows, groups, passed, remaining)
  {
    var judged := Judged(rows, groups, passed, remaining);
    forall id | id in rows
      ensures Marked(judged, ActiveIds(judged), Settle)[id] == Reconciled(rows, groups, passed, remaining)[id]
    {
      PassesRow(rows, groups, passed, remaining, id);
    }
  }

  // ---------------------------------------------------------------- scan results

  datatype Scanned = Scanned(id: string, vulnId: string, aliases: set<string>, occurrence: string,
                             severity: string, cwes: set<string>, description: Option<string>, packageName: string)

  function ScannedIds(s: Scanned): set<string> {
    Identifiers(s.vulnId, s.aliases)
  }

  predicate Matches(row: Row, s: Scanned) {
    row.occurrence == s.occurrence && row.identifiers * ScannedIds(s) != {}
  }

  function MatchingIds(rows: Rows, s: Scanned): set<string> {
    set id | id in rows && Matches(rows[id], s)
  }

  // The matching row to merge into: the first active one, else the first.
  function MergeTarget(rows: Rows, s: Scanned): (id: string)
    requires MatchingIds(rows, s) != {}
    ensures id in MatchingIds(rows, s)
  {
    var active := set id | id in MatchingIds(rows, s) && !rows[id].status.Remediated?;
    if active != {} then Text.Least(active) else Text.Least(MatchingIds(rows, s))
  }

  function Added(rows: Rows, s: Scanned): Rows {
    if MatchingIds(rows, s) != {} then
      MergedInto(rows, MergeTarget(rows, s), s)
    else if s.id in rows then rows
    else rows[s.id := Row(ScannedIds(s), s.occurrence, true, NewlyDetected)]
  }

  lemma SameTarget(a: Rows, b: Rows, s: Scanned)
    requires MatchingIds(a, s) == MatchingIds(b, s) != {}
    requires forall id :: id in MatchingIds(a, s) ==> a[id].status == b[id].status
    ensures MergeTarget(a, s) == MergeTarget(b, s)
  {
    assert (set id | id in MatchingIds(a, s) && !a[id].status.Remediated?)
        == (set id | id in MatchingIds(b, s) && !b[id].status.Remediated?);
  }

  lemma MatchingKept(rows: Rows, s: Scanned, id: string)
    requires id in MatchingIds(rows, s)
    ensures MatchingIds(MergedInto(rows, id, s), s) == MatchingIds(rows, s)
  {
  }

  function MergedInto(rows: Rows, id: string, s: Scanned): Rows
    requires id in rows
  {
    rows[id := rows[id].(identifiers := rows[id].identifiers + ScannedIds(s))]
  }

  lemma MergedTwice(rows: Rows, id: string, s: Scanned)
    requires id in rows
    ensures MergedInto(MergedInto(rows, id, s), id, s) == MergedInto(rows, id, s)
  {
    assert rows[id].identifiers + ScannedIds(s) + ScannedIds(s) == rows[id].identifiers + ScannedIds(s);
  }

  lemma MergedAgain(rows: Rows, s: Scanned)
    requires MatchingIds(rows, s) != {}
    ensures Added(Added(rows, s), s) == Added(rows, s)
  {
    var id, next := MergeTarget(rows, s), Added(rows, s);
    MatchingKept(rows, s, id);
    SameTarget(rows, next, s);
    MergedTwice(rows, id, s);
  }

  lemma InsertedAgain(rows: Rows, s: Scanned)
    requires MatchingIds(rows, s) == {} && s.id !in rows
    ensures Added(Added(rows, s), s) == Added(rows, s)
  {
    var next := Added(rows, s);
    assert MatchingIds(next, s) <= {s.id};
    if MatchingIds(next, s) != {} {
      assert MergeTarget(next, s) == s.id;
      assert next[s.id].identifiers + ScannedIds(s) == next[s.id].identifiers;
      assert next[s.id := next[s.id]] == next;
    }
  }

  // Some row of the result's occurrence carries all its identifiers.
  ghost predicate Covers(rows: Rows, s: Scanned) {
    exists id :: id in rows && rows[id].occurrence == s.occurrence && ScannedIds(s) <= rows[id].identifiers
  }

  lemma UnmatchedUncovered(rows: Rows, s: Scanned)
    requires MatchingIds(rows, s) == {} && ScannedIds(s) != {}
    ensures !Covers(rows, s)
  {
    forall id | id in rows && rows[id].occurrence == s.occurrence ensures !(ScannedIds(s) <= rows[id].identifiers) {
      var x :| x in ScannedIds(s);
      assert id !in MatchingIds(rows, s);
      assert x !in rows[id].identifiers * ScannedIds(s);
    }
  }

  /** A scan result is absorbed: adding it again changes nothing. It never changes a status,
      removes a row or an identifier, and afterwards some row of its occurrence carries all its
      identifiers, if and only if its id was not taken by a row that shares none. */
  lemma AddedAbsorbs(rows: Rows, s: Scanned)
    ensures var next := Added(rows, s);
            && Added(next, s) == next
            && rows.Keys <= next.Keys <= rows.Keys + {s.id}
            && (forall id :: id in rows ==> next[id].status == rows[id].status && rows[id].identifiers <= next[id].identifiers)
            && (MatchingIds(rows, s) != {} || s.id !in rows ==> Covers(next, s))
            && (ScannedIds(s) != {} ==> (Covers(next, s) <==> MatchingIds(rows, s) != {} || s.id !in rows))
  {
    var next := Added(rows, s);
    if MatchingIds(rows, s) != {} {
      MergedAgain(rows, s);
      assert ScannedIds(s) <= next[MergeTarget(rows, s)].identifiers;
    } else if s.id !in rows {
      InsertedAgain(rows, s);
      assert ScannedIds(s) <= next[s.id].identifiers;
    } else if ScannedIds(s) != {} {
      UnmatchedUncovered(rows, s);
    }
  }

  function AddedAll(rows: Rows, results: seq<Scanned>): Rows {
    if results == [] then rows else Added(AddedAll(rows, results[..|results| - 1]), results[|results| - 1])
  }

  // ---------------------------------------------------------------- triage groups

  datatype Issue = Issue(identifiers: set<string>, occurrence: string)

  datatype TriageGroup = TriageGroup(id: string, issues: seq<Issue>, component: string, identifiers: set<string>)

  predicate LinksIssue(row: Row, issue: Issue) {
    row.identifiers * issue.identifiers != {} && row.occurrence == issue.occurrence
  }

  predicate LinksGroup(row: Row, packageName: string, group: TriageGroup) {
    || (group.component != "" && Text.Lower(Text.Strip(packageName)) == group.component)
    || row.identifiers * group.identifiers != {}
  }

  predicate InGroup(row: Row, packageName: string, group: TriageGroup) {
    (exists i :: 0 <= i < |group.issues| && LinksIssue(row, group.issues[i])) || LinksGroup(row, packageName, group)
  }

  /** A row belongs to a triage group exactly when it is of the occurrence of one of its issues and shares
      an identifier with it, or its package, trimmed and in lower case, is the group's component, or it
      carries one of the group's identifiers. */
  lemma InGroupExactly(row: Row, packageName: string, group: TriageGroup)
    ensures InGroup(row, packageName, group) <==>
              || (exists issue, i :: issue in group.issues && issue.occurrence == row.occurrence
                                     && i in issue.identifiers && i in row.identifiers)
              || (group.component != "" && group.component == Text.Lower(Text.Strip(packageName)))
              || (exists i :: i in group.identifiers && i in row.identifiers)
  {
    forall issue ensures LinksIssue(row, issue) <==>
                           issue.occurrence == row.occurrence && exists i :: i in issue.identifiers && i in row.identifiers {
      SharedExactly(row.identifiers, issue.identifiers);
    }
    SharedExactly(row.identifiers, group.identifiers);
  }

  lemma SharedExactly(a: set<string>, b: set<string>)
    ensures a * b != {} <==> exists i :: i in b && i in a
  {
    if i :| i in b && i in a { assert i in a * b; }
  }

  // ---------------------------------------------------------------- runs

  /** What the tracker's operations do to rows and groups: triage adds members, work starts, a group
      is closed, scan results arrive, the groups are reconciled. */
  datatype Step =
    | Triage(grown: Groups)
    | Start(group: string)
    | CloseGroup(group: string, remaining: set<string>)
    | Scan(results: seq<Scanned>)
    | Reconcile(passed: set<string>, remaining: set<string>)

  datatype Table = Table(rows: Rows, groups: Groups)

  function AfterStep(t: Table, step: Step): Table {
    match step
    case Triage(grown) => t.(groups := grown)
    case Start(group) => t.(rows := Marked(t.rows, GroupOf(t.groups, group), StartWork))
    case CloseGroup(group, remaining) => t.(rows := Marked(t.rows, GroupOf(t.groups, group), Close(remaining)))
    case Scan(results) => t.(rows := AddedAll(t.rows, results))
    case Reconcile(passed, remaining) => t.(rows := Reconciled(t.rows, t.groups, passed, remaining))
  }

  function AfterSteps(t: Table, steps: seq<Step>): Table {
    if steps == [] then t else AfterStep(AfterSteps(t, steps[..|steps| - 1]), steps[|steps| - 1])
  }

  lemma TwoSteps(t: Table, first: Step, second: Step)
    ensures AfterSteps(t, [first, second]) == AfterStep(AfterStep(t, first), second)
  {
    assert [first, second][..1] == [first] && [first][..0] == [];
    assert AfterSteps(t, [first]) == AfterStep(AfterSteps(t, []), first);
  }

  // Rows stay, with their occurrence and novelty, and identifiers are only added; later rows are new.
  ghost predicate Grows(before: Rows, after: Rows) {
    && before.Keys <= after.Keys
    && (forall id :: id in before ==> before[id].identifiers <= after[id].identifiers
                                      && after[id].occurrence == before[id].occurrence && after[id].isNew == before[id].isNew)
    && (forall id :: id in after && id !in before ==> after[id].isNew)
  }

  lemma {:induction false} AddedAllGrows(rows: Rows, results: seq<Scanned>)
    ensures Grows(rows, AddedAll(rows, results))
  {
    if results != [] {
      AddedAllGrows(rows, results[..|results| - 1]);
      AddedGrows(AddedAll(rows, results[..|results| - 1]), results[|results| - 1]);
    }
  }

  lemma AddedGrows(rows: Rows, s: Scanned)
    ensures Grows(rows, Added(rows, s))
  {
    if MatchingIds(rows, s) != {} { assert MergeTarget(rows, s) in rows; }
  }

  /** Over any run of the tracker no id ever leaves the union of active and remediated rows, no row
      loses an identifier, and whatever joins after the baseline is new. */
  lemma {:induction false} RunGrows(t: Table, steps: seq<Step>, i: nat, j: nat)
    requires i <= j <= |steps|
    ensures Grows(AfterSteps(t, steps[..i]).rows, AfterSteps(t, steps[..j]).rows)
    decreases j
  {
    if i < j {
      RunGrows(t, steps, i, j - 1);
      assert steps[..j][..j - 1] == steps[..j - 1];
      StepGrows(AfterSteps(t, steps[..j - 1]), steps[j - 1]);
    }
  }

  lemma StepGrows(t: Table, step: Step)
    ensures Grows(t.rows, AfterStep(t, step).rows)
  {
    if step.Scan? { AddedAllGrows(t.rows, step.results); }
  }
}
