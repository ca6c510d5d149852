/** The stateful findings tracker: active and remediated rows, an inverted identifier index and the
    triage groups (demo/backend/findings_tracker.py:19-428). */
module FindingsTracker {
  import opened Wrappers
  import Text
  import opened FindingRules

  datatype Finding = Finding(
    id: string, occurrence: string, packageName: string, isNew: bool,
    vulnId: string, aliases: set<string>, severity: string, cwes: set<string>, description: Option<string>,
    status: Status, groupId: Option<string>, taskId: Option<string>)
  {
    function Ids(): set<string> {
      Identifiers(vulnId, aliases)
    }

    function AsRow(): Row {
      Row(Ids(), occurrence, isNew, status)
    }
  }

  type Findings = map<string, Finding>

  function NewFinding(s: Scanned, isNew: bool, status: Status): Finding {
    Finding(s.id, s.occurrence, s.packageName, isNew, s.vulnId, s.aliases, s.severity, s.cwes, s.description,
            status, None, None)
  }

  function RowsOf(findings: Findings): Rows {
    map id | id in findings :: findings[id].AsRow()
  }

  function SeverityRank(severity: string): nat {
    var s := Text.Upper(severity);
    if s == "CRITICAL" then 5 else if s == "HIGH" then 4 else if s == "MEDIUM" then 3
    else if s == "LOW" then 2 else if s == "INFO" then 1 else 0
  }

  /** A merged row is named by the first CVE among all identifiers of both, else by the first GHSA, else as
      it was; its aliases are the others, in upper case. */
  lemma MergedName(existing: Finding, s: Scanned)
    ensures var merged, all := MergedFinding(existing, s), existing.Ids() + ScannedIds(s);
            && (HasPrefix(all, "CVE-") ==> IsFirstWith(all, "CVE-", merged.vulnId))
            && (!HasPrefix(all, "CVE-") && HasPrefix(all, "GHSA-") ==> IsFirstWith(all, "GHSA-", merged.vulnId))
            && (!HasPrefix(all, "CVE-") && !HasPrefix(all, "GHSA-") ==> merged.vulnId == existing.vulnId)
            && forall i :: i in merged.aliases <==> i in all && i != Text.Upper(merged.vulnId)
  {
    PrimaryExactly(existing.Ids() + ScannedIds(s), existing.vulnId);
  }

  /** Severities rank CRITICAL, HIGH, MEDIUM, LOW, INFO in any case, and anything else below. */
  lemma SeverityOrder(i: nat, severity: string)
    requires Text.Upper(severity) in SEVERITIES <==> i < 5
    requires i < 5 ==> Text.Upper(severity) == SEVERITIES[i]
    ensures SeverityRank(severity) == if i < 5 then 5 - i else 0
  {
    if i >= 5 {
      assert SEVERITIES[0] == "CRITICAL" && SEVERITIES[1] == "HIGH" && SEVERITIES[2] == "MEDIUM" && SEVERITIES[3] == "LOW"
             && SEVERITIES[4] == "INFO";
    }
  }

  const SEVERITIES := ["CRITICAL", "HIGH", "MEDIUM", "LOW", "INFO"]

  /** A new row shows what the scan said and belongs to no group and no task yet. */
  lemma NewFindingShows(s: Scanned, isNew: bool, status: Status)
    ensures var f := NewFinding(s, isNew, status);
            && f.id == s.id && f.occurrence == s.occurrence && f.packageName == s.packageName && f.isNew == isNew
            && f.vulnId == s.vulnId && f.aliases == s.aliases && f.severity == s.severity && f.cwes == s.cwes
            && f.description == s.description && f.status == status && f.groupId.None? && f.taskId.None?
  {
  }

  lemma MapSame<V>(m: map<string, V>, k: string, v: V)
    requires k in m && m[k] == v
    ensures m[k := v] == m
  {
  }

  // The more severe of two, the first when they rank alike.
  function Worse(severity: string, other: string): string {
    if SeverityRank(other) > SeverityRank(severity) then other else severity
  }

  predicate HasText(description: Option<string>) {
    description.Some? && description.value != ""
  }

  // An existing row with the linked identifiers and the useful metadata of a scan result.
  function MergedFinding(existing: Finding, s: Scanned): Finding {
    var identifiers := existing.Ids() + ScannedIds(s);
    var primary := Primary(identifiers, existing.vulnId);
    existing.(vulnId := primary, aliases := MergedAliases(identifiers, primary), severity := Worse(existing.severity, s.severity),
              cwes := existing.cwes + s.cwes, description := if HasText(existing.description) then existing.description else s.description)
  }

  lemma MergedRow(existing: Finding, s: Scanned)
    ensures MergedFinding(existing, s).AsRow() == existing.AsRow().(identifiers := existing.Ids() + ScannedIds(s))
  {
    IdentifiersNormal(s.vulnId, s.aliases);
    MergeKeepsIdentifiers(existing.vulnId, existing.aliases, ScannedIds(s));
  }

  /** A merged row has the worse severity of the two, its own when they rank alike, the CWEs of both, its
      own description unless that is empty, keeps package, group and task, and absorbs the same result
      again. */
  lemma MergedMeaning(existing: Finding, s: Scanned)
    ensures var merged := MergedFinding(existing, s);
            && SeverityRank(merged.severity) >= SeverityRank(existing.severity)
            && SeverityRank(merged.severity) >= SeverityRank(s.severity)
            && merged.severity == (if SeverityRank(existing.severity) >= SeverityRank(s.severity) then existing.severity else s.severity)
            && (forall c :: c in merged.cwes <==> c in existing.cwes || c in s.cwes)
            && (existing.description.Some? && existing.description.value != "" ==> merged.description == existing.description)
            && (existing.description in {None, Some("")} ==> merged.description == s.description)
            && merged.packageName == existing.packageName && merged.groupId == existing.groupId && merged.taskId == existing.taskId
            && MergedFinding(merged, s) == merged
  {
    var merged := MergedFinding(existing, s);
    var identifiers := existing.Ids() + ScannedIds(s);
    MergedRow(existing, s);
    assert merged.Ids() == identifiers;
    assert identifiers + ScannedIds(s) == identifiers;
    assert merged.cwes + s.cwes == merged.cwes;
  }

  // All rows after one scan result.
  function AddedFinding(all: Findings, s: Scanned): Findings {
    if MatchingIds(RowsOf(all), s) != {} then
      var id := MergeTarget(RowsOf(all), s);
      all[id := MergedFinding(all[id], s)]
    else if s.id in all then all
    else all[s.id := NewFinding(s, true, NewlyDetected)]
  }

  type Index = map<string, set<string>>

  function Lookup(index: Index, identifier: string): set<string> {
    if identifier in index then index[identifier] else {}
  }

  // The index answers like a linear scan of the rows.
  ghost predicate Indexed(rows: Rows, index: Index) {
    forall identifier, id :: id in Lookup(index, identifier) <==> id in rows && identifier in rows[id].identifiers
  }

  // The index after a row's identifiers were entered.
  ghost predicate IndexGrown(before: Index, after: Index, id: string, identifiers: set<string>) {
    forall identifier, other :: other in Lookup(after, identifier) <==>
      other in Lookup(before, identifier) || (other == id && identifier in identifiers)
  }

  // A row entered, or replaced without losing identifiers or changing status.
  lemma PutRow(rows: Rows, id: string, row: Row, groups: Groups, before: Index, after: Index)
    requires Indexed(rows, before) && Grouped(rows, groups) && IndexGrown(before, after, id, row.identifiers)
    requires if id in rows then rows[id].identifiers <= row.identifiers && rows[id].status == row.status
             else !row.status.Remediated?
    ensures Indexed(rows[id := row], after) && Grouped(rows[id := row], groups)
  {
    var next := rows[id := row];
    assert RemediatedIds(next) <= RemediatedIds(rows);
  }

  lemma RowsPut(findings: Findings, remediated: Findings, f: Finding)
    requires findings.Keys !! remediated.Keys && f.id !in remediated
    ensures RowsOf(findings[f.id := f] + remediated) == RowsOf(findings + remediated)[f.id := f.AsRow()]
  {
    var all := findings + remediated;
    assert findings[f.id := f] + remediated == all[f.id := f];
    assert RowsOf(all[f.id := f]) == RowsOf(all)[f.id := f.AsRow()];
  }

  lemma RowsPutDone(findings: Findings, remediated: Findings, f: Finding)
    ensures RowsOf(findings + remediated[f.id := f]) == RowsOf(findings + remediated)[f.id := f.AsRow()]
  {
    var all := findings + remediated;
    assert findings + remediated[f.id := f] == all[f.id := f];
    assert RowsOf(all[f.id := f]) == RowsOf(all)[f.id := f.AsRow()];
  }

  // The maps fit together: a row is active or remediated and not both, as its status says.
  ghost predicate Shape(findings: Findings, remediated: Findings) {
    && findings.Keys !! remediated.Keys
    && (forall id :: id in findings ==> findings[id].id == id && !findings[id].status.Remediated?)
    && (forall id :: id in remediated ==> remediated[id].id == id && remediated[id].status.Remediated?)
  }

  lemma MergedExtends(existing: Finding, s: Scanned)
    ensures MergedFinding(existing, s).id == existing.id && Extends(existing, MergedFinding(existing, s))
  {
    MergedRow(existing, s);
    assert MergedFinding(existing, s).AsRow().status == existing.AsRow().status;
  }

  lemma NewIdsAdded(rows: Rows, s: Scanned)
    ensures NewIds(Added(rows, s)) == NewIds(rows) + (Added(rows, s).Keys - rows.Keys)
  {
    if MatchingIds(rows, s) != {} {
      var id := MergeTarget(rows, s);
      NewIdsPut(rows, id, MergedInto(rows, id, s)[id]);
    } else if s.id !in rows {
      NewIdsPut(rows, s.id, Row(ScannedIds(s), s.occurrence, true, NewlyDetected));
    }
  }

  lemma MergedRows(all: Findings, id: string, s: Scanned)
    requires id in all
    ensures RowsOf(all[id := MergedFinding(all[id], s)]) == MergedInto(RowsOf(all), id, s)
  {
    MergedRow(all[id], s);
    RowsOfPut(all, id, MergedFinding(all[id], s));
  }

  // What a scan result does to the rows.
  lemma AddedRows(all: Findings, s: Scanned)
    ensures RowsOf(AddedFinding(all, s)) == Added(RowsOf(all), s)
  {
    if MatchingIds(RowsOf(all), s) != {} {
      MergedRows(all, MergeTarget(RowsOf(all), s), s);
    } else if s.id !in all {
      RowsOfPut(all, s.id, NewFinding(s, true, NewlyDetected));
    }
  }

  lemma RowsOfPut(all: Findings, id: string, f: Finding)
    ensures RowsOf(all[id := f]) == RowsOf(all)[id := f.AsRow()]
  {
  }

  ghost predicate Fits(findings: Findings, remediated: Findings, newIds: set<string>, groups: Groups, index: Index) {
    && Shape(findings, remediated)
    && newIds == NewIds(RowsOf(findings + remediated))
    && Indexed(RowsOf(findings + remediated), index)
    && Grouped(RowsOf(findings + remediated), groups)
  }

  ghost function NewIds(rows: Rows): set<string> {
    set id | id in rows && rows[id].isNew
  }

  // A row with more identifiers and the same standing.
  predicate Extends(before: Finding, after: Finding) {
    before.Ids() <= after.Ids() && before.status == after.status && before.isNew == after.isNew
  }

  // A row entered, or replaced where it is held.
  lemma FitsPut(findings: Findings, remediated: Findings, newIds: set<string>, groups: Groups, before: Index, after: Index, f: Finding)
    requires Fits(findings, remediated, newIds, groups, before) && IndexGrown(before, after, f.id, f.Ids())
    requires f.id !in remediated && !f.status.Remediated?
    requires f.id in findings ==> Extends(findings[f.id], f)
    ensures Fits(findings[f.id := f], remediated, if f.isNew then newIds + {f.id} else newIds, groups, after)
    ensures RowsOf(findings[f.id := f] + remediated) == RowsOf(findings + remediated)[f.id := f.AsRow()]
  {
    var rows := RowsOf(findings + remediated);
    RowsPut(findings, remediated, f);
    PutRow(rows, f.id, f.AsRow(), groups, before, after);
    NewIdsPut(rows, f.id, f.AsRow());
  }

  lemma RowAt(findings: Findings, remediated: Findings, id: string)
    requires findings.Keys !! remediated.Keys
    ensures id in findings ==> RowsOf(findings + remediated)[id] == findings[id].AsRow()
    ensures id in remediated ==> RowsOf(findings + remediated)[id] == remediated[id].AsRow()
    ensures id in findings + remediated && (findings + remediated)[id].isNew ==> id in NewIds(RowsOf(findings + remediated))
  {
  }

  lemma NewIdsPut(rows: Rows, id: string, row: Row)
    requires id in rows ==> rows[id].isNew == row.isNew
    ensures NewIds(rows[id := row]) == if row.isNew then NewIds(rows) + {id} else NewIds(rows)
  {
  }

  lemma FitsPutDone(findings: Findings, remediated: Findings, newIds: set<string>, groups: Groups, before: Index, after: Index, f: Finding)
    requires Fits(findings, remediated, newIds, groups, before) && IndexGrown(before, after, f.id, f.Ids())
    requires f.id in remediated && Extends(remediated[f.id], f) && f.status.Remediated?
    ensures Fits(findings, remediated[f.id := f], newIds, groups, after)
    ensures RowsOf(findings + remediated[f.id := f]) == RowsOf(findings + remediated)[f.id := f.AsRow()]
  {
    var rows := RowsOf(findings + remediated);
    RowsPutDone(findings, remediated, f);
    PutRow(rows, f.id, f.AsRow(), groups, before, after);
    NewIdsPut(rows, f.id, f.AsRow());
  }

  // A row that changes status, and with it the map that holds it.
  lemma FitsMoved(findings: Findings, remediated: Findings, newIds: set<string>, groups: Groups, index: Index, f: Finding,
                  active: Findings, done: Findings)
    requires Fits(findings, remediated, newIds, groups, index)
    requires f.id in findings + remediated && f.AsRow() == (findings + remediated)[f.id].AsRow().(status := f.status)
    requires f.status.Remediated? ==> exists g :: g in groups && f.id in groups[g]
    requires active == if f.status.Remediated? then findings - {f.id} else findings[f.id := f]
    requires done == if f.status.Remediated? then remediated[f.id := f] else remediated - {f.id}
    ensures Fits(active, done, newIds, groups, index)
    ensures var rows := RowsOf(findings + remediated);
            f.id in rows && RowsOf(active + done) == rows[f.id := rows[f.id].(status := f.status)]
  {
    var rows := RowsOf(findings + remediated);
    StatusPut(rows, f.id, f.status, groups, index);
    NewIdsPut(rows, f.id, f.AsRow());
    RowsMoved(findings, remediated, f, active, done);
  }

  lemma MapPut<V>(a: map<string, V>, b: map<string, V>, k: string, v: V)
    requires a.Keys !! b.Keys
    ensures k !in b ==> a[k := v] + b == (a + b)[k := v]
    ensures k !in a ==> a + b[k := v] == (a + b)[k := v]
  {
  }

  lemma MapMoved<V>(a: map<string, V>, b: map<string, V>, k: string, v: V)
    ensures (a - {k}) + b[k := v] == (a + b)[k := v]
    ensures a[k := v] + (b - {k}) == (a + b)[k := v]
  {
  }

  lemma RowsMoved(findings: Findings, remediated: Findings, f: Finding, active: Findings, done: Findings)
    requires findings.Keys !! remediated.Keys && f.id in findings + remediated
    requires f.AsRow() == (findings + remediated)[f.id].AsRow().(status := f.status)
    requires active == if f.status.Remediated? then findings - {f.id} else findings[f.id := f]
    requires done == if f.status.Remediated? then remediated[f.id := f] else remediated - {f.id}
    ensures var rows := RowsOf(findings + remediated);
            f.id in rows && RowsOf(active + done) == rows[f.id := rows[f.id].(status := f.status)]
  {
    var all := findings + remediated;
    MapMoved(findings, remediated, f.id, f);
    assert RowsOf(all[f.id := f]) == RowsOf(all)[f.id := f.AsRow()];
  }

  lemma IndexOneMore(before: Index, after: Index, id: string, done: set<string>, identifier: string)
    requires IndexGrown(before, after, id, done)
    ensures IndexGrown(before, after[identifier := Lookup(after, identifier) + {id}], id, done + {identifier})
  {
    var next := after[identifier := Lookup(after, identifier) + {id}];
    assert forall other :: Lookup(next, other) == Lookup(after, other) + if other == identifier then {id} else {};
  }

  class FindingsTracker {
    var findings: Findings
    var remediated: Findings
    var newIds: set<string>
    var groups: Groups
    var index: Index

    ghost function Rows(): Rows
      reads this
    {
      RowsOf(findings + remediated)
    }

    ghost function Now(): Table
      reads this
    {
      Table(Rows(), groups)
    }

    /** Active and remediated rows are disjoint, the new ids are those of new rows, a row is remediated exactly
        when its status says so, the index answers like a linear scan, and every remediated row
        belongs to a group. */
    ghost predicate Valid()
      reads this
    {
      Fits(findings, remediated, newIds, groups, index)
    }

    method IndexFinding(id: string, identifiers: set<string>)
      modifies this`index
      ensures IndexGrown(old(index), index, id, identifiers)
    {
      var rest := identifiers;
      while rest != {}
        invariant rest <= identifiers && IndexGrown(old(index), index, id, identifiers - rest)
        decreases rest
      {
        var identifier :| identifier in rest;
        IndexOneMore(old(index), index, id, identifiers - rest, identifier);
        index := index[identifier := Lookup(index, identifier) + {id}];
        rest := rest - {identifier};
        assert identifiers - rest == identifiers - (rest + {identifier}) + {identifier};
      }
      assert identifiers - rest == identifiers;
    }

    // Every id the index has under one of some identifiers.
    method CandidateIds(identifiers: set<string>) returns (candidates: set<string>)
      ensures forall id :: id in candidates <==> FoundBy(index, identifiers, id)
      ensures Valid() ==> candidates == Carrying(Rows(), identifiers)
    {
      candidates := {};
      var rest := identifiers;
      while rest != {}
        invariant rest <= identifiers
        invariant forall id :: id in candidates <==> FoundBy(index, identifiers - rest, id)
        decreases rest
      {
        var identifier :| identifier in rest;
        FoundByMore(index, identifiers - rest, identifier);
        assert identifiers - (rest - {identifier}) == identifiers - rest + {identifier};
        candidates := candidates + Lookup(index, identifier);
        rest := rest - {identifier};
      }
      assert identifiers - rest == identifiers;
      if Valid() { SearchExact(Rows(), index, identifiers, candidates); }
    }

    /** The indexed search: on a valid tracker it finds exactly the rows that a search of all rows
        would. */
    method MatchingFindingIds(s: Scanned) returns (matches: set<string>)
      requires Shape(findings, remediated)
      ensures matches == IndexedIds(Rows(), index, s)
      ensures Valid() ==> matches == MatchingIds(Rows(), s)
    {
      var candidates := CandidateIds(ScannedIds(s));
      var known := findings + remediated;
      matches := set id | id in candidates && id in known && known[id].occurrence == s.occurrence;
      if Valid() { IndexedExact(Rows(), index, s); }
    }

    // ------------------------------------------------------------ triage groups

    // Active rows linked to one issue.
    method LinkedTo(issue: Issue) returns (linked: set<string>)
      requires Valid()
      ensures linked == LinkedIds(findings, issue)
    {
      var candidates := CandidateIds(issue.identifiers);
      linked := set id | id in candidates && id in findings && findings[id].occurrence == issue.occurrence;
      forall id ensures id in linked <==> id in LinkedIds(findings, issue) {
        if id in findings { RuledRow(findings, remediated, id, Settle); }
      }
    }

    // Active rows linked to the issues of a group, then those matched by component or identifier.
    method MembersOf(group: TriageGroup) returns (members: set<string>)
      requires Valid()
      ensures members == GroupMembers(findings, group)
    {
      members := {};
      for n := 0 to |group.issues|
        invariant members == LinkedAny(findings, group.issues[..n])
      {
        var linked := LinkedTo(group.issues[n]);
        LinkedMore(findings, group.issues, n);
        members := members + linked;
      }
      assert group.issues[..|group.issues|] == group.issues;
      members := members + set id | id in findings && LinksGroup(findings[id].AsRow(), findings[id].packageName, group);
    }

    // One group: its members are recorded and told so.
    method MapTriagedGroup(group: TriageGroup)
      requires Valid()
      modifies this`findings, this`groups
      ensures Valid() && Rows() == old(Rows()) && SameButGroup(old(findings), findings)
      ensures groups == old(groups)[group.id := GroupOf(old(groups), group.id) + GroupMembers(old(findings), group)]
      ensures findings == Assigned(old(findings), GroupMembers(old(findings), group), group.id)
    {
      var members := MembersOf(group);
      groups := groups[group.id := GroupOf(groups, group.id) + members];
      AssignedRows(findings, remediated, members, group.id);
      MoreGrouped(Rows(), old(groups), groups);
      findings := Assigned(findings, members, group.id);
    }

    /** Each group gains exactly the active rows it matches, as a search without the index would
        find them, in any order of the groups; each row is told the last group that matches it, and
        no row's status or identifiers change. */
    method MapTriagedGroups(triaged: seq<TriageGroup>)
      requires Valid()
      modifies this`findings, this`groups
      ensures Valid() && Rows() == old(Rows())
      ensures findings == Told(old(findings), triaged) && Gained(old(groups), groups, old(findings), triaged)
      ensures Now() == AfterStep(old(Now()), Triage(groups))
    {
      ToldStart(findings, groups);
      for n := 0 to |triaged|
        invariant Valid() && Rows() == old(Rows())
        invariant findings == Told(old(findings), triaged[..n]) && Gained(old(groups), groups, old(findings), triaged[..n])
      {
        ghost var before := groups;
        ToldStep(old(findings), triaged, n);
        MapTriagedGroup(triaged[n]);
        GainedStep(old(groups), before, groups, old(findings), triaged, n);
      }
      assert triaged[..|triaged|] == triaged;
    }

    // ------------------------------------------------------------ rows in and out

    // A new active row, recorded as new when found after the baseline.
    method Insert(finding: Finding)
      requires Valid() && finding.id !in findings && finding.id !in remediated && !finding.status.Remediated?
      modifies this`findings, this`newIds, this`index
      ensures Valid() && findings == old(findings)[finding.id := finding]
      ensures newIds == if finding.isNew then old(newIds) + {finding.id} else old(newIds)
      ensures Rows() == old(Rows())[finding.id := finding.AsRow()]
    {
      IndexFinding(finding.id, finding.Ids());
      FitsPut(findings, remediated, newIds, groups, old(index), index, finding);
      findings := findings[finding.id := finding];
      newIds := if finding.isNew then newIds + {finding.id} else newIds;
    }

    // Replaces a row wherever it is held.
    method Replace(merged: Finding)
      requires Valid() && merged.id in findings + remediated
      requires Extends((findings + remediated)[merged.id], merged)
      modifies this`findings, this`remediated, this`index
      ensures Valid() && findings + remediated == old(findings + remediated)[merged.id := merged]
    {
      MapPut(findings, remediated, merged.id, merged);
      if merged.id in findings {
        ReplaceActive(merged);
      } else {
        ReplaceDone(merged);
      }
    }

    method ReplaceActive(merged: Finding)
      requires Valid() && merged.id in findings && Extends(findings[merged.id], merged)
      modifies this`findings, this`index
      ensures Valid() && findings == old(findings)[merged.id := merged]
    {
      IndexFinding(merged.id, merged.Ids());
      FitsPut(findings, remediated, newIds, groups, old(index), index, merged);
      RowAt(findings, remediated, merged.id);
      findings := findings[merged.id := merged];
    }

    method ReplaceDone(merged: Finding)
      requires Valid() && merged.id in remediated && Extends(remediated[merged.id], merged)
      modifies this`remediated, this`index
      ensures Valid() && remediated == old(remediated)[merged.id := merged]
    {
      IndexFinding(merged.id, merged.Ids());
      FitsPutDone(findings, remediated, newIds, groups, old(index), index, merged);
      RowAt(findings, remediated, merged.id);
      remediated := remediated[merged.id := merged];
    }

    // Merges a scan result into a row, which stays as it is when nothing changes.
    method MergeExisting(existing: Finding, s: Scanned) returns (changed: bool)
      requires Valid() && existing.id in findings + remediated && (findings + remediated)[existing.id] == existing
      modifies this`findings, this`remediated, this`index
      ensures Valid() && findings + remediated == old(findings + remediated)[existing.id := MergedFinding(existing, s)]
    {
      var merged := MergedFinding(existing, s);
      MergedExtends(existing, s);
      changed := merged != existing;
      if changed {
        Replace(merged);
      } else {
        MapSame(findings + remediated, existing.id, merged);
      }
    }

    // The row a matching scan result is merged into.
    method ChooseTarget(matching: set<string>, ghost s: Scanned) returns (existing: Finding)
      requires Valid() && matching == MatchingIds(Rows(), s) != {}
      ensures existing.id == MergeTarget(Rows(), s) && existing.id in findings + remediated
      ensures (findings + remediated)[existing.id] == existing
    {
      var active := set id | id in matching && id in findings;
      assert active == set id | id in MatchingIds(Rows(), s) && !Rows()[id].status.Remediated?;
      var id := if active != {} then Text.Least(active) else Text.Least(matching);
      existing := if id in findings then findings[id] else remediated[id];
    }

    method MergeMatching(matching: set<string>, s: Scanned)
      requires Valid() && matching == MatchingIds(Rows(), s) != {}
      modifies this`findings, this`remediated, this`index
      ensures Valid() && findings + remediated == AddedFinding(old(findings + remediated), s)
    {
      var existing := ChooseTarget(matching, s);
      var changed := MergeExisting(existing, s);
    }

    method AddUnmatched(s: Scanned)
      requires Valid() && MatchingIds(Rows(), s) == {}
      modifies this`findings, this`newIds, this`index
      ensures Valid() && findings + remediated == AddedFinding(old(findings + remediated), s)
    {
      if !(s.id in findings || s.id in remediated) {
        var finding := NewFinding(s, true, NewlyDetected);
        MapPut(findings, remediated, s.id, finding);
        Insert(finding);
      }
    }

    /** One scan result: merged into the matching row, or added as a new active row, or ignored
        when its id is taken by a row that does not match. */
    method AddScanned(s: Scanned)
      requires Valid()
      modifies this
      ensures Valid() && Rows() == Added(old(Rows()), s) && groups == old(groups)
      ensures findings + remediated == AddedFinding(old(findings + remediated), s)
      ensures newIds == old(newIds) + (Rows().Keys - old(Rows()).Keys)
    {
      var matching := MatchingFindingIds(s);
      if matching != {} {
        MergeMatching(matching, s);
      } else {
        AddUnmatched(s);
      }
      AddedRows(old(findings + remediated), s);
      NewIdsAdded(old(Rows()), s);
    }

    method AddNewScanFindings(results: seq<Scanned>)
      requires Valid()
      modifies this
      ensures Valid() && Rows() == AddedAll(old(Rows()), results) && groups == old(groups)
      ensures old(Rows()).Keys <= Rows().Keys && newIds == old(newIds) + (Rows().Keys - old(Rows()).Keys)
      ensures Now() == AfterStep(old(Now()), Scan(results))
    {
      for i := 0 to |results|
        invariant Valid() && Rows() == AddedAll(old(Rows()), results[..i]) && groups == old(groups)
        invariant old(Rows()).Keys <= Rows().Keys && newIds == old(newIds) + (Rows().Keys - old(Rows()).Keys)
      {
        assert results[..i + 1][..i] == results[..i];
        AddedGrows(Rows(), results[i]);
        ghost var mid := Rows().Keys;
        AddScanned(results[i]);
        GainsAdd(old(newIds), old(Rows()).Keys, mid, Rows().Keys);
      }
      assert results[..|results|] == results;
    }

    /** The baseline rows; of several with one id the last stays. The tracker is valid exactly when no
        identifier was lost that way, as with distinct ids: the index would still hold it. */
    constructor (initial: seq<Scanned>)
      ensures Rows() == BaselineRows(initial) && remediated == map[] && newIds == {} && groups == map[]
      ensures Shape(findings, remediated) && Entered(initial, index)
      ensures Valid() <==> NothingLost(initial)
    {
      findings, remediated, newIds, groups, index := map[], map[], {}, map[], map[];
      new;
      for i := 0 to |initial|
        invariant Shape(findings, remediated) && remediated == map[] && newIds == {} && groups == map[]
        invariant Rows() == BaselineRows(initial[..i]) && Entered(initial[..i], index)
      {
        EnteredMore(initial, i);
        EnterBaseline(initial[i], initial[..i]);
      }
      assert initial[..|initial|] == initial;
      BaselineValid(initial, index);
    }

    // One baseline record.
    method EnterBaseline(s: Scanned, ghost before: seq<Scanned>)
      requires Shape(findings, remediated) && remediated == map[]
      requires Rows() == BaselineRows(before) && Entered(before, index)
      modifies this`findings, this`index
      ensures Shape(findings, remediated)
      ensures Rows() == BaselineRows(before)[s.id := BaselineRow(s)] && Entered(before + [s], index)
    {
      var finding := NewFinding(s, false, Flagged);
      RowsPut(findings, remediated, finding);
      findings := findings[finding.id := finding];
      IndexFinding(finding.id, finding.Ids());
      EnteredStep(before, old(index), index, s);
    }

    // ------------------------------------------------------------ status changes

    method Restore(id: string)
      requires Valid() && id in remediated
      modifies this`findings, this`remediated
      ensures Valid() && Rows() == old(Rows())[id := old(Rows())[id].(status := Unresolved)]
    {
      var model := remediated[id].(status := Unresolved);
      FitsMoved(findings, remediated, newIds, groups, index, model, findings[id := model], remediated - {id});
      remediated := remediated - {id};
      findings := findings[id := model];
    }

    method Remediate(id: string)
      requires Valid() && id in findings && exists g :: g in groups && id in groups[g]
      modifies this`findings, this`remediated
      ensures Valid() && Rows() == old(Rows())[id := old(Rows())[id].(status := Remediated)]
    {
      var model := findings[id].(status := Remediated);
      FitsMoved(findings, remediated, newIds, groups, index, model, findings - {id}, remediated[id := model]);
      remediated := remediated[id := model];
      findings := findings - {id};
    }

    method SetActive(id: string, status: Status, taskId: Option<string>)
      requires Valid() && id in findings && !status.Remediated?
      modifies this`findings
      ensures Valid() && findings == old(findings)[id := old(findings)[id].(status := status, taskId := taskId)]
      ensures Rows() == old(Rows())[id := old(Rows())[id].(status := status)]
    {
      var model := findings[id].(status := status, taskId := taskId);
      assert remediated - {id} == remediated;
      FitsMoved(findings, remediated, newIds, groups, index, model, findings[id := model], remediated);
      findings := findings[id := model];
    }

    /** Starts work on exactly the flagged rows of a group, under the task's id. */
    method MarkTaskInProgress(taskId: string, groupId: string)
      requires Valid()
      modifies this`findings
      ensures Valid() && Rows() == Marked(old(Rows()), GroupOf(groups, groupId), StartWork)
      ensures findings == Started(old(findings), GroupOf(groups, groupId), taskId)
      ensures Now() == AfterStep(old(Now()), Start(groupId))
    {
      var ids := GroupOf(groups, groupId);
      var rest := ids;
      MarkedNone(Rows(), StartWork);
      while rest != {}
        invariant rest <= ids && Valid() && Rows() == Marked(old(Rows()), ids - rest, StartWork)
        invariant findings == Started(old(findings), ids - rest, taskId)
        decreases rest
      {
        var id :| id in rest;
        MarkedStep(old(Rows()), ids - rest, StartWork, id);
        StartedStep(old(findings), ids - rest, taskId, id);
        LoopRest(ids, rest, id);
        if id in findings && findings[id].status == Flagged {
          SetActive(id, Remediating, Some(taskId));
        }
        rest := rest - {id};
      }
      assert ids - rest == ids;
    }

    /** Remediates the rows of a passed group that no remaining identifier keeps alive. */
    method MarkGroupRemediated(groupId: string, remainingIdentifiers: set<string>)
      requires Valid()
      modifies this`findings, this`remediated
      ensures Valid() && Rows() == Marked(old(Rows()), GroupOf(groups, groupId), Close(NormRaw(remainingIdentifiers)))
      ensures Now() == AfterStep(old(Now()), CloseGroup(groupId, NormRaw(remainingIdentifiers)))
    {
      var ids, remaining := GroupOf(groups, groupId), NormRaw(remainingIdentifiers);
      var rest := ids;
      MarkedNone(Rows(), Close(remaining));
      while rest != {}
        invariant rest <= ids && Valid() && Rows() == Marked(old(Rows()), ids - rest, Close(remaining))
        decreases rest
      {
        var id :| id in rest;
        assert groupId in groups && id in groups[groupId];
        MarkedStep(old(Rows()), ids - rest, Close(remaining), id);
        LoopRest(ids, rest, id);
        if id in findings && findings[id].Ids() !! remaining {
          Remediate(id);
        }
        rest := rest - {id};
      }
      assert ids - rest == ids;
    }

    // ------------------------------------------------------------ final reconciliation

    method RestoreGroup(ids: set<string>)
      requires Valid()
      modifies this`findings, this`remediated
      ensures Valid() && Rows() == Marked(old(Rows()), ids, Withdraw)
    {
      var rest := ids;
      MarkedNone(Rows(), Withdraw);
      while rest != {}
        invariant rest <= ids && Valid() && Rows() == Marked(old(Rows()), ids - rest, Withdraw)
        decreases rest
      {
        var id :| id in rest;
        MarkedStep(old(Rows()), ids - rest, Withdraw, id);
        LoopRest(ids, rest, id);
        if id in remediated {
          Restore(id);
        }
        rest := rest - {id};
      }
      assert ids - rest == ids;
    }

    // A remediated row is restored when an identifier remains; an active one remediated when none does.
    method DecideRow(id: string, remaining: set<string>)
      requires Valid() && exists g :: g in groups && id in groups[g]
      modifies this`findings, this`remediated
      ensures Valid() && Rows() == Ruled(old(Rows()), id, Decide(remaining))
    {
      RuledRow(findings, remediated, id, Decide(remaining));
      if id in remediated {
        KeepDone(id, remaining);
      } else if id in findings {
        CloseActive(id, remaining);
      }
    }

    method KeepDone(id: string, remaining: set<string>)
      requires Valid() && id in remediated
      modifies this`findings, this`remediated
      ensures Valid() && Rows() == Ruled(old(Rows()), id, Decide(remaining))
    {
      RuledRow(findings, remediated, id, Decide(remaining));
      if !(remediated[id].Ids() !! remaining) {
        Restore(id);
      }
    }

    method CloseActive(id: string, remaining: set<string>)
      requires Valid() && id in findings && exists g :: g in groups && id in groups[g]
      modifies this`findings, this`remediated
      ensures Valid() && Rows() == Ruled(old(Rows()), id, Decide(remaining))
    {
      RuledRow(findings, remediated, id, Decide(remaining));
      if findings[id].Ids() !! remaining {
        Remediate(id);
      }
    }

    method SettleRow(id: string)
      requires Valid() && id in findings
      modifies this`findings
      ensures Valid() && Rows() == Ruled(old(Rows()), id, Settle) && findings.Keys == old(findings.Keys)
    {
      RuledRow(findings, remediated, id, Settle);
      if !findings[id].isNew && findings[id].status != Remediated {
        SetActive(id, Unresolved, findings[id].taskId);
      }
    }

    method DecideGroup(groupId: string, remaining: set<string>)
      requires Valid()
      modifies this`findings, this`remediated
      ensures Valid() && Rows() == Marked(old(Rows()), GroupOf(groups, groupId), Decide(remaining))
    {
      var ids := GroupOf(groups, groupId);
      var rest := ids;
      MarkedNone(Rows(), Decide(remaining));
      while rest != {}
        invariant rest <= ids && Valid() && Rows() == Marked(old(Rows()), ids - rest, Decide(remaining))
        decreases rest
      {
        var id :| id in rest;
        assert groupId in groups && id in groups[groupId];
        MarkedStep(old(Rows()), ids - rest, Decide(remaining), id);
        LoopRest(ids, rest, id);
        DecideRow(id, remaining);
        rest := rest - {id};
      }
      assert ids - rest == ids;
    }

    method SettleActive()
      requires Valid()
      modifies this`findings
      ensures Valid() && Rows() == Marked(old(Rows()), ActiveIds(old(Rows())), Settle)
    {
      var ids := findings.Keys;
      var rest := ids;
      assert ids == ActiveIds(Rows());
      MarkedNone(Rows(), Settle);
      while rest != {}
        invariant rest <= ids == findings.Keys && Valid() && Rows() == Marked(old(Rows()), ids - rest, Settle)
        decreases rest
      {
        var id :| id in rest;
        MarkedStep(old(Rows()), ids - rest, Settle, id);
        LoopRest(ids, rest, id);
        SettleRow(id);
        rest := rest - {id};
      }
      assert ids - rest == ids;
    }

    method RestoreGroups(passed: set<string>)
      requires Valid()
      modifies this`findings, this`remediated
      ensures Valid() && Rows() == Withdrawn(old(Rows()), groups, passed)
    {
      var all := groups.Keys - passed;
      var rest := all;
      MarkedNone(Rows(), Withdraw);
      while rest != {}
        invariant rest <= all && Valid() && Rows() == Marked(old(Rows()), IdsOfGroups(groups, all - rest), Withdraw)
        decreases rest
      {
        var g :| g in rest;
        MoreGroups(groups, all - rest, g);
        MarkedTwice(old(Rows()), IdsOfGroups(groups, all - rest), groups[g], Withdraw);
        LoopRest(all, rest, g);
        RestoreGroup(groups[g]);
        rest := rest - {g};
      }
      assert all - rest == all;
    }

    method DecideGroups(passed: set<string>, remaining: set<string>)
      requires Valid()
      modifies this`findings, this`remediated
      ensures Valid() && Rows() == Marked(old(Rows()), IdsOfGroups(groups, passed), Decide(remaining))
    {
      var rest := passed;
      MarkedNone(Rows(), Decide(remaining));
      while rest != {}
        invariant rest <= passed && Valid() && Rows() == Marked(old(Rows()), IdsOfGroups(groups, passed - rest), Decide(remaining))
        decreases rest
      {
        var g :| g in rest;
        MoreGroups(groups, passed - rest, g);
        MarkedTwice(old(Rows()), IdsOfGroups(groups, passed - rest), GroupOf(groups, g), Decide(remaining));
        LoopRest(passed, rest, g);
        DecideGroup(g, remaining);
        rest := rest - {g};
      }
      assert passed - rest == passed;
    }

    /** Before the final scan: the remediated rows are exactly those of some passed group with no
        remaining identifier, in any iteration order and from any earlier marks. */
    method ReconcileGroups(passed: set<string>, remainingIdentifiers: set<string>)
      requires Valid()
      modifies this`findings, this`remediated
      ensures Valid() && Rows() == Reconciled(old(Rows()), groups, passed, NormRaw(remainingIdentifiers))
      ensures remediated.Keys == RemediatedIds(Rows())
      ensures Now() == AfterStep(old(Now()), Reconcile(passed, NormRaw(remainingIdentifiers)))
    {
      var remaining := NormRaw(remainingIdentifiers);
      RestoreGroups(passed);
      DecideGroups(passed, remaining);
      SettleActive();
      PassesReconcile(old(Rows()), groups, passed, remaining);
      SplitByStatus();
    }

    // Which map a row is in can be read off its status.
    lemma SplitByStatus()
      requires Valid()
      ensures remediated.Keys == RemediatedIds(Rows())
    {
      assert forall id :: id in Rows() ==> Rows()[id] == (findings + remediated)[id].AsRow();
    }

    /** The whole reconciliation: the groups first, then what the final scan newly detected. */
    method ReconcileFinalState(passed: set<string>, remainingIdentifiers: set<string>, newlyDetected: seq<Scanned>)
      requires Valid()
      modifies this
      ensures Valid() && groups == old(groups)
      ensures Rows() == AddedAll(Reconciled(old(Rows()), groups, passed, NormRaw(remainingIdentifiers)), newlyDetected)
      ensures old(Rows()).Keys <= Rows().Keys && newIds == old(newIds) + (Rows().Keys - old(Rows()).Keys)
      ensures Now() == AfterSteps(old(Now()), [Reconcile(passed, NormRaw(remainingIdentifiers)), Scan(newlyDetected)])
    {
      ReconcileGroups(passed, remainingIdentifiers);
      AddNewScanFindings(newlyDetected);
      TwoSteps(old(Now()), Reconcile(passed, NormRaw(remainingIdentifiers)), Scan(newlyDetected));
    }
  }

  // The active rows a triage group matches.
  ghost function GroupMembers(findings: Findings, group: TriageGroup): set<string> {
    set id | id in findings && InGroup(findings[id].AsRow(), findings[id].packageName, group)
  }

  ghost predicate Triaged(findings: Findings, triaged: seq<TriageGroup>, g: string, id: string) {
    exists k :: 0 <= k < |triaged| && triaged[k].id == g && id in GroupMembers(findings, triaged[k])
  }

  // The group a row ends with: the last that matches it, or the one it had.
  function LastGroup(f: Finding, triaged: seq<TriageGroup>): Option<string> {
    if triaged == [] then f.groupId
    else if InGroup(f.AsRow(), f.packageName, triaged[|triaged| - 1]) then Some(triaged[|triaged| - 1].id)
    else LastGroup(f, triaged[..|triaged| - 1])
  }

  // Every row with the group it ends with.
  function Told(findings: Findings, triaged: seq<TriageGroup>): Findings {
    map id | id in findings :: findings[id].(groupId := LastGroup(findings[id], triaged))
  }

  // The groups have gained exactly the rows they match.
  ghost predicate Gained(before: Groups, after: Groups, findings: Findings, triaged: seq<TriageGroup>) {
    forall g, id :: id in GroupOf(after, g) <==> id in GroupOf(before, g) || Triaged(findings, triaged, g, id)
  }

  lemma ToldStart(findings: Findings, groups: Groups)
    ensures Told(findings, []) == findings && Gained(groups, groups, findings, [])
  {
  }

  lemma ToldStep(findings: Findings, triaged: seq<TriageGroup>, n: nat)
    requires n < |triaged|
    ensures var told, members := Told(findings, triaged[..n]), GroupMembers(findings, triaged[n]);
            GroupMembers(told, triaged[n]) == members
            && Assigned(told, members, triaged[n].id) == Told(findings, triaged[..n + 1])
  {
    SameMembers(findings, Told(findings, triaged[..n]), triaged[n]);
    assert triaged[..n + 1][..n] == triaged[..n];
  }

  lemma GainedStep(start: Groups, before: Groups, after: Groups, findings: Findings, triaged: seq<TriageGroup>, n: nat)
    requires n < |triaged| && Gained(start, before, findings, triaged[..n])
    requires after == before[triaged[n].id := GroupOf(before, triaged[n].id) + GroupMembers(findings, triaged[n])]
    ensures Gained(start, after, findings, triaged[..n + 1])
  {
    TriagedMore(findings, triaged, n);
  }

  lemma TriagedMore(findings: Findings, triaged: seq<TriageGroup>, n: nat)
    requires n < |triaged|
    ensures forall g, id :: Triaged(findings, triaged[..n + 1], g, id) <==>
              Triaged(findings, triaged[..n], g, id) || (triaged[n].id == g && id in GroupMembers(findings, triaged[n]))
  {
    var fewer, more := triaged[..n], triaged[..n + 1];
    assert more[n] == triaged[n] && forall k :: 0 <= k < n ==> more[k] == fewer[k];
    forall g, id | Triaged(findings, fewer, g, id) ensures Triaged(findings, more, g, id) {
      var k :| 0 <= k < |fewer| && fewer[k].id == g && id in GroupMembers(findings, fewer[k]);
      assert more[k] == fewer[k];
    }
  }

  // Rows that differ at most in the group they were told.
  ghost predicate SameButGroup(a: Findings, b: Findings) {
    && a.Keys == b.Keys
    && forall id :: id in a ==> b[id] == a[id].(groupId := b[id].groupId)
  }

  lemma SameMembers(a: Findings, b: Findings, group: TriageGroup)
    requires SameButGroup(a, b)
    ensures GroupMembers(a, group) == GroupMembers(b, group)
  {
    forall id | id in a ensures a[id].AsRow() == b[id].AsRow() && a[id].packageName == b[id].packageName {
    }
  }

  ghost function LinkedIds(findings: Findings, issue: Issue): set<string> {
    set id | id in findings && LinksIssue(findings[id].AsRow(), issue)
  }

  ghost function LinkedAny(findings: Findings, issues: seq<Issue>): set<string> {
    set id | id in findings && exists i :: 0 <= i < |issues| && LinksIssue(findings[id].AsRow(), issues[i])
  }

  lemma LinkedMore(findings: Findings, issues: seq<Issue>, n: nat)
    requires n < |issues|
    ensures LinkedAny(findings, issues[..n + 1]) == LinkedAny(findings, issues[..n]) + LinkedIds(findings, issues[n])
  {
    assert issues[..n + 1] == issues[..n] + [issues[n]];
  }

  // A rule applied to one row.
  function Ruled(rows: Rows, id: string, rule: Rule): Rows {
    if id in rows then rows[id := rows[id].(status := StatusAfter(rule, rows[id]))] else rows
  }

  lemma RuledRow(findings: Findings, remediated: Findings, id: string, rule: Rule)
    requires findings.Keys !! remediated.Keys
    ensures var rows := RowsOf(findings + remediated);
            && (id in findings ==> id in rows && rows[id] == findings[id].AsRow())
            && (id in remediated ==> id in rows && rows[id] == remediated[id].AsRow())
            && (id !in findings && id !in remediated ==> id !in rows)
            && (id in rows && StatusAfter(rule, rows[id]) == rows[id].status ==> Ruled(rows, id, rule) == rows)
  {
    var rows := RowsOf(findings + remediated);
    if id in rows { assert rows[id := rows[id]] == rows; }
  }

  // Upper-case and trimmed, blank ones included.
  function NormRaw(identifiers: set<string>): set<string> {
    set i | i in identifiers :: Norm(i)
  }

  function BaselineRows(initial: seq<Scanned>): Rows {
    if initial == [] then map[] else
      var s := initial[|initial| - 1];
      BaselineRows(initial[..|initial| - 1])[s.id := BaselineRow(s)]
  }

  function BaselineRow(s: Scanned): Row {
    Row(ScannedIds(s), s.occurrence, false, Flagged)
  }

  // The index answers for every row entered, also those overwritten since.
  ghost predicate Entered(initial: seq<Scanned>, index: Index) {
    forall identifier, id :: id in Lookup(index, identifier) <==> EnteredUnder(initial, identifier, id)
  }

  ghost predicate EnteredUnder(initial: seq<Scanned>, identifier: string, id: string) {
    exists j :: 0 <= j < |initial| && initial[j].id == id && identifier in ScannedIds(initial[j])
  }

  lemma EnteredMore(initial: seq<Scanned>, i: nat)
    requires i < |initial|
    ensures initial[..i + 1] == initial[..i] + [initial[i]] && initial[..i + 1][..i] == initial[..i]
  {
  }

  lemma EnteredStep(initial: seq<Scanned>, before: Index, after: Index, s: Scanned)
    requires Entered(initial, before) && IndexGrown(before, after, s.id, ScannedIds(s))
    ensures Entered(initial + [s], after)
  {
    var more := initial + [s];
    assert more[|initial|] == s && forall j :: 0 <= j < |initial| ==> more[j] == initial[j];
    forall identifier, id
      ensures EnteredUnder(more, identifier, id) <==>
                EnteredUnder(initial, identifier, id) || (id == s.id && identifier in ScannedIds(s))
    {
      if EnteredUnder(initial, identifier, id) {
        var j :| 0 <= j < |initial| && initial[j].id == id && identifier in ScannedIds(initial[j]);
        assert more[j] == initial[j];
      }
    }
  }

  /** No record's identifiers are overwritten by a later record of its id that lacks them. */
  ghost predicate NothingLost(initial: seq<Scanned>) {
    forall j :: 0 <= j < |initial| ==>
      initial[j].id in BaselineRows(initial) && ScannedIds(initial[j]) <= BaselineRows(initial)[initial[j].id].identifiers
  }

  // The row of an id is that of its last record.
  lemma {:induction false} BaselineLast(initial: seq<Scanned>)
    ensures forall id :: id in BaselineRows(initial) ==> BaselineFrom(initial, BaselineRows(initial)[id], id)
    ensures forall j :: 0 <= j < |initial| ==> initial[j].id in BaselineRows(initial)
  {
    if initial != [] {
      var most, last := initial[..|initial| - 1], initial[|initial| - 1];
      BaselineLast(most);
      forall id | id in BaselineRows(initial) ensures BaselineFrom(initial, BaselineRows(initial)[id], id) {
        if id != last.id {
          var j :| 0 <= j < |most| && most[j].id == id && BaselineRows(most)[id] == BaselineRow(most[j]);
          assert initial[j] == most[j];
        }
      }
      forall j | 0 <= j < |initial| ensures initial[j].id in BaselineRows(initial) {
        if j < |most| { assert initial[j] == most[j]; }
      }
    }
  }

  ghost predicate BaselineFrom(initial: seq<Scanned>, row: Row, id: string) {
    exists j :: 0 <= j < |initial| && initial[j].id == id && row == BaselineRow(initial[j])
  }

  lemma BaselineValid(initial: seq<Scanned>, index: Index)
    requires Entered(initial, index)
    ensures Indexed(BaselineRows(initial), index) <==> NothingLost(initial)
    ensures Grouped(BaselineRows(initial), map[]) && NewIds(BaselineRows(initial)) == {}
  {
    var rows := BaselineRows(initial);
    BaselineLast(initial);
    if NothingLost(initial) {
      forall identifier, id ensures EnteredUnder(initial, identifier, id) <==> id in rows && identifier in rows[id].identifiers {
        if id in rows { assert BaselineFrom(initial, rows[id], id); }
      }
    }
    if Indexed(rows, index) {
      forall j | 0 <= j < |initial| ensures ScannedIds(initial[j]) <= rows[initial[j].id].identifiers {
        forall identifier | identifier in ScannedIds(initial[j]) ensures identifier in rows[initial[j].id].identifiers {
          assert EnteredUnder(initial, identifier, initial[j].id);
        }
      }
    }
  }

  /** Two records of one id, the second without an identifier of the first, lose it. */
  lemma SharedIdLoses(s: Scanned, t: Scanned)
    requires s.id == t.id && !(ScannedIds(s) <= ScannedIds(t))
    ensures !NothingLost([s, t])
  {
    assert [s, t][..1] == [s];
    assert BaselineRows([s, t])[t.id] == BaselineRow(t);
    assert [s, t][0] == s;
  }

  /** Distinct ids lose nothing. */
  lemma DistinctIdsLoseNothing(initial: seq<Scanned>)
    requires forall i, j :: 0 <= i < j < |initial| ==> initial[i].id != initial[j].id
    ensures NothingLost(initial)
  {
    BaselineLast(initial);
    var rows := BaselineRows(initial);
    forall j | 0 <= j < |initial| ensures ScannedIds(initial[j]) <= rows[initial[j].id].identifiers {
      assert BaselineFrom(initial, rows[initial[j].id], initial[j].id);
    }
  }

  // A change of status keeps the index, and the groups if the row has one.
  lemma StatusPut(rows: Rows, id: string, status: Status, groups: Groups, index: Index)
    requires id in rows && Indexed(rows, index) && Grouped(rows, groups)
    requires status.Remediated? ==> exists g :: g in groups && id in groups[g]
    ensures var next := rows[id := rows[id].(status := status)]; Indexed(next, index) && Grouped(next, groups)
  {
    var next := rows[id := rows[id].(status := status)];
    forall other | other in RemediatedIds(next) ensures exists g :: g in groups && other in groups[g] {
      if other != id { assert other in RemediatedIds(rows); }
    }
  }

  lemma GainsAdd(base: set<string>, first: set<string>, second: set<string>, third: set<string>)
    requires first <= second <= third
    ensures base + (second - first) + (third - second) == base + (third - first)
  {
  }

  lemma LoopRest(all: set<string>, rest: set<string>, x: string)
    requires rest <= all && x in rest
    ensures all - (rest - {x}) == all - rest + {x} && x !in all - rest
  {
  }

  lemma MoreGroups(groups: Groups, some: set<string>, g: string)
    ensures IdsOfGroups(groups, some + {g}) == IdsOfGroups(groups, some) + GroupOf(groups, g)
  {
  }

  // Work begun on some rows.
  function Started(findings: Findings, ids: set<string>, taskId: string): Findings {
    map id | id in findings ::
      if id in ids && findings[id].status.Flagged? then findings[id].(status := Remediating, taskId := Some(taskId)) else findings[id]
  }

  lemma StartedStep(findings: Findings, done: set<string>, taskId: string, id: string)
    requires id !in done
    ensures var before := Started(findings, done, taskId);
            && (id in findings <==> id in before) && (id in findings ==> before[id] == findings[id])
            && Started(findings, done + {id}, taskId) ==
                 if id in findings && findings[id].status.Flagged?
                 then before[id := findings[id].(status := Remediating, taskId := Some(taskId))] else before
  {
  }

  // Rows told which group they belong to.
  function Assigned(findings: Findings, members: set<string>, groupId: string): Findings {
    map id | id in findings :: if id in members then findings[id].(groupId := Some(groupId)) else findings[id]
  }

  lemma AssignedRows(findings: Findings, remediated: Findings, members: set<string>, groupId: string)
    ensures RowsOf(Assigned(findings, members, groupId) + remediated) == RowsOf(findings + remediated)
  {
    var next := Assigned(findings, members, groupId);
    forall id | id in findings ensures next[id].AsRow() == findings[id].AsRow() {
    }
  }

  lemma MoreGrouped(rows: Rows, before: Groups, after: Groups)
    requires Grouped(rows, before)
    requires forall g :: g in before ==> g in after && before[g] <= after[g]
    requires forall g, id :: g in after && id in after[g] ==> id in rows
    ensures Grouped(rows, after)
  {
    forall id | id in RemediatedIds(rows) ensures exists g :: g in after && id in after[g] {
      var g :| g in before && id in before[g];
      assert g in after && id in after[g];
    }
  }

  ghost function Carrying(rows: Rows, identifiers: set<string>): set<string> {
    set id | id in rows && rows[id].identifiers * identifiers != {}
  }

  ghost predicate FoundBy(index: Index, identifiers: set<string>, id: string) {
    exists i :: i in identifiers && id in Lookup(index, i)
  }

  lemma FoundByMore(index: Index, some: set<string>, identifier: string)
    ensures forall id :: FoundBy(index, some + {identifier}, id) <==> FoundBy(index, some, id) || id in Lookup(index, identifier)
  {
    forall id | FoundBy(index, some, id) || id in Lookup(index, identifier) ensures FoundBy(index, some + {identifier}, id) {
      if FoundBy(index, some, id) {
        var i :| i in some && id in Lookup(index, i);
        assert i in some + {identifier};
      } else {
        assert identifier in some + {identifier};
      }
    }
  }

  // What the search by the index finds.
  ghost function IndexedIds(rows: Rows, index: Index, s: Scanned): set<string> {
    set id | id in rows && FoundBy(index, ScannedIds(s), id) && rows[id].occurrence == s.occurrence
  }

  lemma SearchExact(rows: Rows, index: Index, identifiers: set<string>, candidates: set<string>)
    requires Indexed(rows, index)
    requires forall id :: id in candidates <==> FoundBy(index, identifiers, id)
    ensures candidates == Carrying(rows, identifiers)
  {
    forall id ensures id in candidates <==> id in Carrying(rows, identifiers) {
      if id in candidates {
        var i :| i in identifiers && id in Lookup(index, i);
        assert i in rows[id].identifiers * identifiers;
      }
      if id in Carrying(rows, identifiers) {
        var i :| i in rows[id].identifiers * identifiers;
        assert id in Lookup(index, i);
      }
    }
  }

  lemma IndexedExact(rows: Rows, index: Index, s: Scanned)
    requires Indexed(rows, index)
    ensures IndexedIds(rows, index, s) == MatchingIds(rows, s)
  {
    forall id | id in rows ensures FoundBy(index, ScannedIds(s), id) <==> rows[id].identifiers * ScannedIds(s) != {} {
      if FoundBy(index, ScannedIds(s), id) {
        var i :| i in ScannedIds(s) && id in Lookup(index, i);
        assert i in rows[id].identifiers * ScannedIds(s);
      }
      if rows[id].identifiers * ScannedIds(s) != {} {
        var i :| i in rows[id].identifiers * ScannedIds(s);
        assert id in Lookup(index, i);
      }
    }
  }

  // A result with one normal identifier.
  lemma OneIdentifier(s: Scanned)
    requires Norm(s.vulnId) == s.vulnId && s.vulnId != "" && s.aliases == {}
    ensures ScannedIds(s) == {s.vulnId}
  {
    assert s.vulnId in {s.vulnId} + s.aliases;
  }

  // A lost identifier still leads to the row that no longer has it.
  lemma WrongSearch(initial: seq<Scanned>, index: Index, j: nat, identifier: string) returns (s: Scanned)
    requires Entered(initial, index) && j < |initial| && identifier in ScannedIds(initial[j])
    requires initial[j].id in BaselineRows(initial) && identifier !in BaselineRows(initial)[initial[j].id].identifiers
    ensures IndexedIds(BaselineRows(initial), index, s) != MatchingIds(BaselineRows(initial), s)
  {
    var rows, id := BaselineRows(initial), initial[j].id;
    s := initial[j].(vulnId := identifier, aliases := {}, occurrence := rows[id].occurrence);
    IdentifiersNormal(initial[j].vulnId, initial[j].aliases);
    OneIdentifier(s);
    assert EnteredUnder(initial, identifier, id) && FoundBy(index, ScannedIds(s), id);
    assert id in IndexedIds(rows, index, s);
    assert rows[id].identifiers * ScannedIds(s) == {};
    assert id !in MatchingIds(rows, s);
  }

  /** Every search of a freshly seeded tracker is exact if and only if no identifier was overwritten. */
  lemma SearchesExactly(initial: seq<Scanned>, index: Index)
    requires Entered(initial, index)
    ensures (forall s :: IndexedIds(BaselineRows(initial), index, s) == MatchingIds(BaselineRows(initial), s)) <==> NothingLost(initial)
  {
    BaselineValid(initial, index);
    if NothingLost(initial) {
      forall s ensures IndexedIds(BaselineRows(initial), index, s) == MatchingIds(BaselineRows(initial), s) {
        IndexedExact(BaselineRows(initial), index, s);
      }
    } else {
      BaselineLast(initial);
      var j :| 0 <= j < |initial| && !(ScannedIds(initial[j]) <= BaselineRows(initial)[initial[j].id].identifiers);
      var identifier :| identifier in ScannedIds(initial[j]) && identifier !in BaselineRows(initial)[initial[j].id].identifiers;
      var s := WrongSearch(initial, index, j, identifier);
    }
  }
}
