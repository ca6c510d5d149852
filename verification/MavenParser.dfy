/** What the Maven version parser computes
    (src/remediation_engine/contracts/version_policy.py:27-143), as a scan over characters that
    yields a spine of segments; MavenParserLists has the loop over nested lists. */
module MavenParser {
  import opened Wrappers
  import Text
  import opened MavenOrder

  const MAX_LENGTH := 512

  function Alias(q: string): string {
    if q == "a" then "alpha"
    else if q == "b" then "beta"
    else if q == "m" then "milestone"
    else if q == "cr" then "rc"
    else if q == "ga" || q == "final" || q == "release" then ""
    else q
  }

  function StringItem(value: string, followedByDigit: bool): Item {
    var q := Text.Lower(value);
    if !followedByDigit && q in {"a", "b", "m"} then Str(q) else Str(Alias(q))
  }

  predicate IsWordChar(c: char) {
    'a' <= c <= 'z' || c == '_' || c == '+'
  }

  predicate IsSeparator(c: char) {
    c == '.' || c == '-'
  }

  predicate IsVersionChar(c: char) {
    Text.IsDigit(c) || IsWordChar(c) || IsSeparator(c)
  }

  predicate NoDoubleSeparator(s: string) {
    forall i :: 0 <= i < |s| - 1 ==> !(IsSeparator(s[i]) && IsSeparator(s[i + 1]))
  }

  // The guard at the top of the parser, on the stripped and lower-cased text.
  predicate WellFormed(value: string) {
    && value != []
    && |value| <= MAX_LENGTH
    && (Text.IsDigit(value[0]) || Text.IsAlpha(value[0]))
    && (forall i :: 0 <= i < |value| ==> IsVersionChar(value[i]))
    && value[|value| - 1] !in ".-_+"
    && NoDoubleSeparator(value)
  }

  // ---------------------------------------------------------------- the scan on values

  /** Where the parser stands: the finished segments, the open segment, and the text read
      since the last item. */
  datatype Scan = Scan(closed: seq<seq<Item>>, current: seq<Item>, isDigit: bool, pending: string) {
    ghost predicate Ok() {
      && (isDigit ==> Text.AllDigits(pending))
      && (!isDigit ==> forall c :: c in pending ==> IsWordChar(c))
      && (forall x :: x in current ==> LegalScalar(x))
      && (forall s, x :: s in closed && x in s ==> LegalScalar(x))
    }
  }

  const START := Scan([], [], false, "")

  // Strings the parser can leave in a form: lower-case words, never a long alias.
  predicate LegalQualifier(q: string) {
    && (forall c :: c in q ==> IsWordChar(c))
    && q !in {"cr", "ga", "final", "release"}
  }

  predicate LegalScalar(x: Item) {
    x.Num? || (x.Str? && LegalQualifier(x.s))
  }

  lemma LowerWord(q: string)
    requires forall c :: c in q ==> IsWordChar(c)
    ensures Text.Lower(q) == q
  {
    forall i | 0 <= i < |q| ensures Text.LowerChar(q[i]) == q[i] {
      assert q[i] in q;
    }
  }

  function WordItem(value: string, followedByDigit: bool): (x: Item)
    requires forall c :: c in value ==> IsWordChar(c)
    ensures LegalScalar(x)
  {
    LowerWord(value);
    StringItem(value, followedByDigit)
  }

  // The item a separator completes.
  function Flushed(st: Scan): (x: Item)
    requires st.Ok()
    ensures LegalScalar(x)
  {
    if st.pending == "" then Num(0)
    else if st.isDigit then Num(Text.Numeral(st.pending))
    else WordItem(st.pending, false)
  }

  function Step(st: Scan, c: char): (next: Scan)
    requires st.Ok() && IsVersionChar(c)
    ensures next.Ok()
  {
    if c == '.' then
      st.(current := st.current + [Flushed(st)], pending := "")
    else if c == '-' then
      Scan(st.closed + [st.current + [Flushed(st)]], [], st.isDigit, "")
    else if Text.IsDigit(c) then
      if !st.isDigit && st.pending != "" then
        var base := if st.current != [] then st.closed + [st.current] else st.closed;
        Scan(base + [[WordItem(st.pending, true)]], [], true, [c])
      else
        st.(isDigit := true, pending := st.pending + [c])
    else if st.isDigit && st.pending != "" then
      Scan(st.closed + [st.current + [Num(Text.Numeral(st.pending))]], [], false, [c])
    else
      st.(isDigit := false, pending := st.pending + [c])
  }

  function ScanFrom(st: Scan, s: string): (next: Scan)
    requires st.Ok() && forall i :: 0 <= i < |s| ==> IsVersionChar(s[i])
    ensures next.Ok()
    decreases s
  {
    if s == [] then st else ScanFrom(Step(st, s[0]), s[1..])
  }

  // The segments once the text has ended.
  function Finish(st: Scan): (segs: seq<seq<Item>>)
    requires st.Ok()
    ensures segs != [] && forall s, x :: s in segs && x in s ==> LegalScalar(x)
  {
    if st.pending == "" then st.closed + [st.current]
    else if st.isDigit then st.closed + [st.current + [Num(Text.Numeral(st.pending))]]
    else if st.current != [] then st.closed + [st.current] + [[WordItem(st.pending, false)]]
    else st.closed + [[WordItem(st.pending, false)]]
  }

  function TrimNulls(s: seq<Item>): (r: seq<Item>)
    ensures r <= s
    ensures r == [] || !IsNull(r[|r| - 1])
  {
    if s != [] && IsNull(s[|s| - 1]) then TrimNulls(s[..|s| - 1]) else s
  }

  // Each trimmed segment followed by the nested rest, unless that is empty.
  function Nest(segs: seq<seq<Item>>): seq<Item>
    requires segs != []
  {
    if |segs| == 1 then TrimNulls(segs[0]) else
      var rest := Nest(segs[1..]);
      TrimNulls(segs[0]) + if rest == [] then [] else [Lst(rest)]
  }

  function Normalized(version: string): string {
    Text.Lower(Text.Strip(version))
  }

  lemma NormalizedVersionText(s: string)
    requires forall i :: 0 <= i < |s| ==> IsVersionChar(s[i])
    ensures Normalized(s) == s
  {
    forall i | 0 <= i < |s| ensures !Text.IsSpace(s[i]) && Text.LowerChar(s[i]) == s[i] {
      assert IsVersionChar(s[i]);
    }
    assert Text.StripLeft(s) == s && Text.StripRight(s) == s;
    assert Text.Lower(s) == s;
  }

  function Parse(version: string): Option<seq<Item>> {
    var value := Normalized(version);
    if !WellFormed(value) then None else Some(Nest(Finish(ScanFrom(START, value))))
  }

  lemma {:induction false} ScanAppend(st: Scan, a: string, b: string)
    requires st.Ok() && forall i :: 0 <= i < |a + b| ==> IsVersionChar((a + b)[i])
    ensures forall i :: 0 <= i < |a| ==> IsVersionChar(a[i])
    ensures forall i :: 0 <= i < |b| ==> IsVersionChar(b[i])
    ensures ScanFrom(st, a + b) == ScanFrom(ScanFrom(st, a), b)
    decreases a
  {
    assert forall i :: 0 <= i < |a| ==> (a + b)[i] == a[i];
    assert forall i :: 0 <= i < |b| ==> (a + b)[|a| + i] == b[i];
    if a == [] {
      assert a + b == b;
    } else {
      assert (a + b)[1..] == a[1..] + b;
      ScanAppend(Step(st, a[0]), a[1..], b);
    }
  }

  // ---------------------------------------------------------------- the form is canonical

  ghost predicate LegalForm(xs: seq<Item>) {
    forall q :: q in Qualifiers(xs) ==> LegalQualifier(q)
  }

  lemma {:induction false} SpineCanonical(t: seq<Item>, tail: seq<Item>)
    requires forall x :: x in t ==> LegalScalar(x)
    requires t == [] || !IsNull(t[|t| - 1])
    requires tail == [] || (|tail| == 1 && tail[0].Lst?)
    requires Canonical(tail) && LegalForm(tail)
    ensures Canonical(t + tail) && LegalForm(t + tail)
  {
    if t == [] {
      assert t + tail == tail;
    } else {
      assert t[0] in t;
      if t[0].Str? { LowerWord(t[0].s); }
      if |t| > 1 { assert t[1] in t; }
      SpineCanonical(t[1..], tail);
      assert (t + tail)[1..] == t[1..] + tail;
    }
  }

  lemma {:induction false} NestCanonical(segs: seq<seq<Item>>)
    requires segs != [] && forall s, x :: s in segs && x in s ==> LegalScalar(x)
    ensures Canonical(Nest(segs)) && LegalForm(Nest(segs))
  {
    var t := TrimNulls(segs[0]);
    assert forall x :: x in t ==> x in segs[0];
    if |segs| == 1 {
      SpineCanonical(t, []);
      assert t + [] == t;
    } else {
      NestCanonical(segs[1..]);
      var rest := Nest(segs[1..]);
      var tail := if rest == [] then [] else [Lst(rest)];
      assert rest != [] ==> tail[1..] == [];
      SpineCanonical(t, tail);
    }
  }

  /** Every parse is a trimmed spine: a nested list only in last place and never empty, and no
      null item before the end of a list or before a nested list. */
  lemma ParseCanonical(version: string)
    ensures Parse(version).Some? ==> Canonical(Parse(version).value) && LegalForm(Parse(version).value)
  {
    if WellFormed(Normalized(version)) {
      NestCanonical(Finish(ScanFrom(START, Normalized(version))));
    }
  }
}
