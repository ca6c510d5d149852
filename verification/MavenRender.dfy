/** Writing a canonical form back as a version string, the inverse of the parser
    (src/remediation_engine/contracts/version_policy.py:64-143). */
module MavenRender {
  import opened Wrappers
  import Text
  import opened MavenOrder
  import opened MavenParser

  function Token(x: Item): (s: string)
    requires LegalScalar(x)
    ensures s != "" && forall i :: 0 <= i < |s| ==> if x.Num? then Text.IsDigit(s[i]) else IsWordChar(s[i])
  {
    match x
    case Num(n) => Text.Digits(n)
    case Str(q) =>
      assert forall i :: 0 <= i < |q| ==> q[i] in q;
      if q == "" then "ga" else q
  }

  ghost predicate Renderable(c: seq<Item>) {
    Canonical(c) && LegalForm(c)
  }

  lemma RenderableParts(c: seq<Item>)
    requires Renderable(c) && c != []
    ensures if c[0].Lst? then c[0].items != [] && Renderable(c[0].items)
            else LegalScalar(c[0]) && Renderable(c[1..])
    ensures |c| > 1 && c[1].Lst? ==> |c| == 2 && c[1].items != [] && Renderable(c[1].items)
  {
    assert forall q :: q in Qualifiers(c[1..]) ==> q in Qualifiers(c);
    if c[0].Lst? {
      assert forall q :: q in Qualifiers(c[0].items) ==> q in Qualifiers(c);
    } else if c[0].Str? {
      assert c[0].s in Qualifiers(c);
    }
    if |c| > 1 && c[1].Lst? {
      assert c[1..][0] == c[1] && |c[1..]| == 1;
      assert forall q :: q in Qualifiers(c[1].items) ==> q in Qualifiers(c[1..]);
    }
  }

  // The first item to write, and what follows its separator.
  datatype Split = Last(x: Item) | More(x: Item, sep: char, rest: seq<Item>)

  // An absent scalar is written 0; a closing word is followed by ".0" so that it stays a scalar.
  ghost function SplitForm(c: seq<Item>): (r: Split)
    requires Renderable(c)
    ensures LegalScalar(r.x) && (r.Last? ==> r.x.Num?)
    ensures r.More? ==> IsSeparator(r.sep) && Renderable(r.rest) && SizeAll(r.rest) < SizeAll(c)
  {
    if c == [] then Last(Num(0)) else
      RenderableParts(c);
      if c[0].Lst? then
        SizeBelow(c);
        More(Num(0), '-', c[0].items)
      else if |c| == 1 then
        if c[0].Str? then More(c[0], '.', []) else Last(c[0])
      else if c[1].Lst? then
        SizeBelow(c[1..]);
        More(c[0], '-', c[1].items)
      else More(c[0], '.', c[1..])
  }

  // Text the grammar admits after a separator, ending in a digit.
  ghost predicate IsTail(s: string) {
    && s != "" && Text.IsDigit(s[|s| - 1]) && !IsSeparator(s[0])
    && (forall i :: 0 <= i < |s| ==> IsVersionChar(s[i])) && NoDoubleSeparator(s)
  }

  lemma LongerTail(token: string, sep: char, tail: string)
    requires token != "" && forall i :: 0 <= i < |token| ==> Text.IsDigit(token[i]) || IsWordChar(token[i])
    requires IsSeparator(sep) && IsTail(tail)
    ensures IsTail(token + [sep] + tail)
  {
  }

  ghost function Render(c: seq<Item>): (s: string)
    requires Renderable(c)
    ensures IsTail(s)
    decreases SizeAll(c)
  {
    match SplitForm(c)
    case Last(x) => Token(x)
    case More(x, sep, rest) =>
      LongerTail(Token(x), sep, Render(rest));
      Token(x) + [sep] + Render(rest)
  }

  // The segments the parser will see in the rendering.
  ghost function Segments(c: seq<Item>): (segs: seq<seq<Item>>)
    requires Renderable(c)
    ensures segs != []
    decreases SizeAll(c)
  {
    match SplitForm(c)
    case Last(x) => [[x]]
    case More(x, sep, rest) =>
      if sep == '.' then Prepend([x], Segments(rest)) else [[x]] + Segments(rest)
  }

  function Prepend(s: seq<Item>, segs: seq<seq<Item>>): seq<seq<Item>>
    requires segs != []
  {
    [s + segs[0]] + segs[1..]
  }

  lemma {:induction false} ScanDigits(st: Scan, s: string)
    requires st.Ok() && (st.pending == "" || st.isDigit) && s != "" && Text.AllDigits(s)
    ensures ScanFrom(st, s) == st.(isDigit := true, pending := st.pending + s)
    decreases s
  {
    var next := Step(st, s[0]);
    assert st.pending + s == next.pending + s[1..];
    if s[1..] != [] { ScanDigits(next, s[1..]); }
  }

  lemma {:induction false} ScanWord(st: Scan, s: string)
    requires st.Ok() && (st.pending == "" || !st.isDigit) && s != ""
    requires forall i :: 0 <= i < |s| ==> IsWordChar(s[i])
    ensures ScanFrom(st, s) == st.(isDigit := false, pending := st.pending + s)
    decreases s
  {
    var next := Step(st, s[0]);
    assert st.pending + s == next.pending + s[1..];
    if s[1..] != [] { ScanWord(next, s[1..]); }
  }

  lemma ScanToken(st: Scan, x: Item)
    requires st.Ok() && st.pending == "" && LegalScalar(x)
    ensures forall i :: 0 <= i < |Token(x)| ==> IsVersionChar(Token(x)[i])
    ensures ScanFrom(st, Token(x)) == st.(isDigit := x.Num?, pending := Token(x))
    ensures Flushed(ScanFrom(st, Token(x))) == x
  {
    assert st.pending + Token(x) == Token(x);
    if x.Num? {
      ScanDigits(st, Token(x));
    } else {
      ScanWord(st, Token(x));
      LowerWord(Token(x));
    }
  }

  // A token and its separator complete one item.
  lemma ScanTokenAnd(st: Scan, x: Item, sep: char)
    requires st.Ok() && st.pending == "" && LegalScalar(x) && IsSeparator(sep)
    ensures forall i :: 0 <= i <= |Token(x)| ==> IsVersionChar((Token(x) + [sep])[i])
    ensures var next := ScanFrom(st, Token(x) + [sep]);
            if sep == '.' then next == st.(current := st.current + [x], isDigit := x.Num?)
            else next == Scan(st.closed + [st.current + [x]], [], x.Num?, "")
  {
    ScanToken(st, x);
    ScanAppend(st, Token(x), [sep]);
  }

  // A completed item joins the open segment, or closes it.
  lemma PrependItem(closed: seq<seq<Item>>, current: seq<Item>, x: Item, segs: seq<seq<Item>>)
    requires segs != []
    ensures closed + Prepend(current + [x], segs) == closed + Prepend(current, Prepend([x], segs))
    ensures closed + [current + [x]] + Prepend([], segs) == closed + Prepend(current, [[x]] + segs)
  {
    assert current + [x] + segs[0] == current + ([x] + segs[0]);
    assert Prepend([], segs) == segs by { assert [] + segs[0] == segs[0]; }
  }

  lemma {:induction false} FinishRendered(c: seq<Item>, st: Scan)
    requires Renderable(c) && st.Ok() && st.pending == ""
    ensures Finish(ScanFrom(st, Render(c))) == st.closed + Prepend(st.current, Segments(c))
    decreases SizeAll(c)
  {
    match SplitForm(c)
    case Last(x) =>
      ScanToken(st, x);
    case More(x, sep, rest) =>
      var text, tail := Token(x) + [sep], Render(rest);
      assert Render(c) == text + tail;
      ScanTokenAnd(st, x, sep);
      ScanAppend(st, text, tail);
      FinishRendered(rest, ScanFrom(st, text));
      PrependItem(st.closed, st.current, x, Segments(rest));
  }

  lemma TrimKeeps(x: Item, s: seq<Item>)
    requires !IsNull(x) || TrimNulls(s) != []
    ensures TrimNulls([x] + s) == [x] + TrimNulls(s)
  {
    if s != [] {
      assert ([x] + s)[..|s|] == [x] + s[..|s| - 1];
      if IsNull(s[|s| - 1]) { TrimKeeps(x, s[..|s| - 1]); }
    }
  }

  lemma NestPrepend(x: Item, segs: seq<seq<Item>>)
    requires segs != []
    requires !IsNull(x) || (Nest(segs) != [] && !Nest(segs)[0].Lst?)
    ensures Nest(Prepend([x], segs)) == [x] + Nest(segs)
  {
    assert Prepend([x], segs)[1..] == segs[1..];
    TrimKeeps(x, segs[0]);
  }

  lemma NestClosed(x: Item, segs: seq<seq<Item>>)
    requires segs != [] && Nest(segs) != []
    ensures Nest([[x]] + segs) == (if IsNull(x) then [] else [x]) + [Lst(Nest(segs))]
  {
    assert ([[x]] + segs)[1..] == segs;
    assert TrimNulls([x]) == if IsNull(x) then [] else [x];
  }

  lemma SplitMeaning(c: seq<Item>)
    requires Renderable(c) && SplitForm(c).More?
    ensures var More(x, sep, rest) := SplitForm(c);
            if sep == '.' then c == [x] + rest && (IsNull(x) ==> rest != [] && !rest[0].Lst?)
            else rest != [] && c == (if IsNull(x) then [] else [x]) + [Lst(rest)]
  {
    RenderableParts(c);
  }

  lemma {:induction false} NestRendered(c: seq<Item>)
    requires Renderable(c)
    ensures Nest(Segments(c)) == c
    decreases SizeAll(c)
  {
    match SplitForm(c)
    case Last(x) =>
      assert TrimNulls([x]) == if IsNull(x) then [] else [x];
    case More(x, sep, rest) =>
      NestRendered(rest);
      SplitMeaning(c);
      if sep == '.' { NestPrepend(x, Segments(rest)); } else { NestClosed(x, Segments(rest)); }
  }

  // The version grammar's condition on the first character.
  predicate StartsAlphanumeric(c: seq<Item>) {
    c != [] && c[0].Str? && c[0].s != "" ==> Text.IsAlpha(c[0].s[0])
  }

  predicate StartsVersion(s: string) {
    s != "" && (Text.IsDigit(s[0]) || Text.IsAlpha(s[0]))
  }

  lemma RenderStarts(c: seq<Item>)
    requires Renderable(c) && StartsAlphanumeric(c)
    ensures StartsVersion(Render(c))
  {
    var x := SplitForm(c).x;
    assert Render(c)[0] == Token(x)[0];
    if x.Str? {
      assert x == c[0];
      assert Text.IsAlpha("ga"[0]);
    }
  }

  lemma RenderWellFormed(c: seq<Item>)
    requires Renderable(c) && StartsAlphanumeric(c) && |Render(c)| <= MAX_LENGTH
    ensures WellFormed(Render(c))
  {
    RenderStarts(c);
  }

  /** Every canonical form is the parse of its rendering: the parser inverts Render, so it
      confuses no two forms and misses none that fits the length limit. */
  lemma ParseRender(c: seq<Item>)
    requires Renderable(c) && StartsAlphanumeric(c) && |Render(c)| <= MAX_LENGTH
    ensures Parse(Render(c)) == Some(c)
  {
    NormalizedVersionText(Render(c));
    RenderWellFormed(c);
    FinishRendered(c, START);
    NestRendered(c);
    assert START.closed + Prepend(START.current, Segments(c)) == Segments(c) by {
      assert [] + Segments(c)[0] == Segments(c)[0];
    }
  }

  lemma WordStarts(value: string, followedByDigit: bool)
    requires value != "" && Text.IsAlpha(value[0]) && forall c :: c in value ==> IsWordChar(c)
    ensures StartsAlphanumeric([WordItem(value, followedByDigit)])
  {
    LowerWord(value);
  }

  // Before the first item is complete its text starts like a version.
  ghost predicate FirstOk(st: Scan) {
    var first := (st.closed + [st.current])[0];
    if first == [] then st.closed == [] && StartsVersion(st.pending) else StartsAlphanumeric(first)
  }

  lemma FirstOkStep(st: Scan, c: char)
    requires st.Ok() && FirstOk(st) && IsVersionChar(c)
    ensures FirstOk(Step(st, c))
  {
    if !st.isDigit && StartsVersion(st.pending) {
      assert st.pending[0] in st.pending;
      WordStarts(st.pending, false);
      WordStarts(st.pending, true);
    }
    if st.closed != [] {
      assert Step(st, c).closed[0] == st.closed[0];
    } else if st.current != [] {
      assert (Step(st, c).closed + [Step(st, c).current])[0][0] == st.current[0];
    }
  }

  lemma {:induction false} FirstOkScan(st: Scan, s: string)
    requires st.Ok() && FirstOk(st) && forall i :: 0 <= i < |s| ==> IsVersionChar(s[i])
    ensures FirstOk(ScanFrom(st, s))
    decreases s
  {
    if s != [] {
      FirstOkStep(st, s[0]);
      FirstOkScan(Step(st, s[0]), s[1..]);
    }
  }

  lemma {:induction false} NestFirst(segs: seq<seq<Item>>)
    requires segs != [] && Nest(segs) != [] && !Nest(segs)[0].Lst?
    requires forall s, x :: s in segs && x in s ==> LegalScalar(x)
    ensures segs[0] != [] && Nest(segs)[0] == segs[0][0]
  {
  }

  /** Conversely every parse is such a form. */
  lemma ParseRenderable(version: string)
    requires Parse(version).Some?
    ensures Renderable(Parse(version).value) && StartsAlphanumeric(Parse(version).value)
  {
    var value := Normalized(version);
    ParseCanonical(version);
    var st := Step(START, value[0]);
    FirstOkScan(st, value[1..]);
    var segs := Finish(ScanFrom(START, value));
    var c := Nest(segs);
    if c != [] && !c[0].Lst? {
      NestFirst(segs);
      var end := ScanFrom(START, value);
      assert end == ScanFrom(st, value[1..]);
      if !end.isDigit && StartsVersion(end.pending) {
        assert end.pending[0] in end.pending;
        WordStarts(end.pending, false);
      }
    }
  }

  /** So a form is the parse of its rendering if and only if the rendering is a version at all. */
  lemma ParseRenderExactly(c: seq<Item>)
    requires Renderable(c)
    ensures Parse(Render(c)) == Some(c) <==> StartsAlphanumeric(c) && |Render(c)| <= MAX_LENGTH
  {
    NormalizedVersionText(Render(c));
    if StartsAlphanumeric(c) && |Render(c)| <= MAX_LENGTH {
      ParseRender(c);
    } else if Parse(Render(c)).Some? {
      ParseRenderable(Render(c));
    }
  }
}
