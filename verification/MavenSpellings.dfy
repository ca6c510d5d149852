/** When a version keeps its canonical form under an appended ".0"
    (src/remediation_engine/contracts/version_policy.py:64-143). */
module MavenSpellings {
  import opened Wrappers
  import Text
  import opened MavenOrder
  import opened MavenParser

  // The text before the run of word characters at the end.
  function BeforeLastWord(s: string): (r: string)
    ensures r <= s && (r == "" || !IsWordChar(r[|r| - 1]))
  {
    if s != "" && IsWordChar(s[|s| - 1]) then BeforeLastWord(s[..|s| - 1]) else s
  }

  predicate EndsIn(s: string, c: char) {
    s != "" && s[|s| - 1] == c
  }

  predicate IsReleaseAlias(word: string) {
    word in {"ga", "final", "release"}
  }

  /** The text ends in a qualifier after a dot (as in 1.0.Final) that is not an alias of the plain
      release: the parser nests such a last word but not a word followed by another item. */
  predicate EndsInDottedQualifier(value: string) {
    var before := BeforeLastWord(value);
    && before < value
    && EndsIn(before, '.')
    && !IsReleaseAlias(value[|before|..])
  }

  lemma {:induction false} LastWord(before: string, word: string)
    requires before == "" || !IsWordChar(before[|before| - 1])
    requires forall i :: 0 <= i < |word| ==> IsWordChar(word[i])
    ensures BeforeLastWord(before + word) == before
  {
    if word == "" {
      assert before + word == before;
    } else {
      assert (before + word)[..|before + word| - 1] == before + word[..|word| - 1];
      LastWord(before, word[..|word| - 1]);
    }
  }

  // What the scan state says about the text before the pending one.
  ghost predicate Tracks(before: string, st: Scan) {
    && (st.pending == "" ==> before == "" || IsSeparator(before[|before| - 1]))
    && (!st.isDigit ==> before == "" || !IsWordChar(before[|before| - 1]))
    && (!st.isDigit || st.pending == "" ==> (st.current != [] <==> EndsIn(before, '.')))
  }

  lemma TracksStep(before: string, st: Scan, c: char) returns (after: string)
    requires st.Ok() && Tracks(before, st) && IsVersionChar(c)
    ensures Tracks(after, Step(st, c))
    ensures after + Step(st, c).pending == before + st.pending + [c]
  {
    var next := Step(st, c);
    if next.pending == "" {
      after := before + st.pending + [c];
    } else if next.pending == st.pending + [c] {
      after := before;
    } else {
      after := before + st.pending;
      assert after[|after| - 1] == st.pending[|st.pending| - 1];
    }
  }

  lemma CutFirst(p: string, t: string)
    requires t != ""
    ensures p + t == p + [t[0]] + t[1..]
  {
  }

  lemma {:induction false} TracksScan(before: string, st: Scan, t: string) returns (after: string)
    requires st.Ok() && Tracks(before, st) && forall i :: 0 <= i < |t| ==> IsVersionChar(t[i])
    ensures Tracks(after, ScanFrom(st, t))
    ensures after + ScanFrom(st, t).pending == before + st.pending + t
    decreases t
  {
    if t == "" {
      after := before;
    } else {
      var next := Step(st, t[0]);
      var middle := TracksStep(before, st, t[0]);
      after := TracksScan(middle, next, t[1..]);
      CutFirst(before + st.pending, t);
    }
  }

  // The spine with the open segment's items as last segment, closed or extended.
  lemma {:induction false} NestExtends(closed: seq<seq<Item>>, a: seq<seq<Item>>, b: seq<seq<Item>>)
    requires a != [] && b != []
    ensures Nest(a) == Nest(b) ==> Nest(closed + a) == Nest(closed + b)
    ensures Nest(a) != Nest(b) && Nest(a) != [] && Nest(b) != [] ==>
              Nest(closed + a) != Nest(closed + b) && Nest(closed + a) != [] && Nest(closed + b) != []
  {
    if closed == [] {
      assert closed + a == a && closed + b == b;
    } else {
      NestExtends(closed[1..], a, b);
      assert (closed + a)[1..] == closed[1..] + a && (closed + b)[1..] == closed[1..] + b;
      var t := TrimNulls(closed[0]);
      var ra, rb := Nest(closed[1..] + a), Nest(closed[1..] + b);
      if ra != rb && ra != [] && rb != [] {
        assert (t + [Lst(ra)])[|t|] != (t + [Lst(rb)])[|t|];
      }
    }
  }

  lemma TrimZero(s: seq<Item>)
    ensures TrimNulls(s + [Num(0)]) == TrimNulls(s)
  {
    assert (s + [Num(0)])[..|s|] == s;
  }

  lemma NumeralZero()
    ensures Text.Numeral("0") == 0
  {
    assert "0"[..0] == "";
  }

  lemma FinishZero(st: Scan)
    requires st.Ok() && st.pending == ""
    ensures Finish(Step(st, '0')) == st.closed + [st.current + [Num(0)]]
  {
    NumeralZero();
    assert [] + ['0'] == "0";
  }

  lemma ScanDotZero(st: Scan)
    requires st.Ok()
    ensures ScanFrom(st, ".0") == Step(Step(st, '.'), '0')
  {
    assert ".0"[1..] == "0" && "0"[1..] == "";
  }

  // Segments of the text with ".0" behind it.
  lemma ZeroSegments(st: Scan)
    requires st.Ok() && st.pending != ""
    ensures Finish(ScanFrom(st, ".0")) == st.closed + [st.current + [Flushed(st), Num(0)]]
  {
    var dotted := Step(st, '.');
    ScanDotZero(st);
    FinishZero(dotted);
    assert st.current + [Flushed(st)] + [Num(0)] == st.current + [Flushed(st), Num(0)];
  }

  // The last segments without and with the zero.
  lemma ZeroTail(current: seq<Item>, x: Item)
    ensures Nest([current + [x, Num(0)]]) == TrimNulls(current + [x])
    ensures Nest([current + [x]]) == TrimNulls(current + [x])
    ensures Nest([current, [x]]) == TrimNulls(current) + if IsNull(x) then [] else [Lst([x])]
    ensures TrimNulls(current + [x]) == if IsNull(x) then TrimNulls(current) else current + [x]
  {
    assert current + [x, Num(0)] == current + [x] + [Num(0)];
    TrimZero(current + [x]);
    assert (current + [x])[..|current|] == current;
    assert [current, [x]][1..] == [[x]];
    assert TrimNulls([x]) == if IsNull(x) then [] else [x];
  }

  // The segments after the closed ones, when the text ends in a pending piece.
  function LastSegments(current: seq<Item>, x: Item, nests: bool): seq<seq<Item>> {
    if nests then [current, [x]] else [current + [x]]
  }

  lemma FinishPlain(st: Scan)
    requires st.Ok() && st.pending != ""
    ensures Finish(st) == st.closed + LastSegments(st.current, Flushed(st), !st.isDigit && st.current != [])
  {
    assert st.current == [] ==> st.current + [Flushed(st)] == [Flushed(st)];
  }

  lemma ZeroOrNested(current: seq<Item>, x: Item, nests: bool)
    requires LegalScalar(x)
    ensures var plain, zero := Nest(LastSegments(current, x, nests)), Nest([current + [x, Num(0)]]);
            if nests && !IsNull(x) then plain != zero && plain != [] && zero != [] else plain == zero
  {
    ZeroTail(current, x);
    if nests && !IsNull(x) {
      var nested, flat := TrimNulls(current) + [Lst([x])], current + [x];
      assert nested[|nested| - 1].Lst? && !flat[|flat| - 1].Lst?;
    }
  }

  lemma ZeroForms(st: Scan)
    requires st.Ok() && st.pending != ""
    ensures Nest(Finish(ScanFrom(st, ".0"))) == Nest(Finish(st)) <==>
              st.isDigit || st.current == [] || IsNull(Flushed(st))
  {
    var x := Flushed(st);
    var nests := !st.isDigit && st.current != [];
    ZeroSegments(st);
    FinishPlain(st);
    ZeroOrNested(st.current, x, nests);
    NestExtends(st.closed, LastSegments(st.current, x, nests), [st.current + [x, Num(0)]]);
  }

  lemma ZeroWellFormed(value: string)
    requires WellFormed(value) && |value| + 2 <= MAX_LENGTH
    ensures WellFormed(value + ".0")
  {
    var s := value + ".0";
    forall i | 0 <= i < |s| - 1 ensures !(IsSeparator(s[i]) && IsSeparator(s[i + 1])) {
      if i < |value| - 1 { assert s[i] == value[i] && s[i + 1] == value[i + 1]; }
    }
  }

  lemma NormalizedZero(version: string)
    requires version != "" && !Text.IsSpace(version[|version| - 1])
    ensures Normalized(version + ".0") == Normalized(version) + ".0"
  {
    Text.StripAppend(version, ".0");
    var s := Text.Strip(version);
    assert Text.Lower(s + ".0") == Text.Lower(s) + ".0";
  }

  lemma NullWord(w: string)
    requires w != "" && forall c :: c in w ==> IsWordChar(c)
    ensures IsNull(WordItem(w, false)) <==> IsReleaseAlias(w)
  {
    LowerWord(w);
  }

  lemma PendingDigits(before: string, digits: string)
    requires digits != "" && Text.AllDigits(digits)
    ensures !EndsInDottedQualifier(before + digits)
  {
    var value := before + digits;
    assert value[|value| - 1] == digits[|digits| - 1];
  }

  lemma PendingWord(before: string, word: string)
    requires before == "" || !IsWordChar(before[|before| - 1])
    requires word != "" && forall c :: c in word ==> IsWordChar(c)
    ensures EndsInDottedQualifier(before + word) <==> EndsIn(before, '.') && !IsReleaseAlias(word)
  {
    assert forall i :: 0 <= i < |word| ==> word[i] in word;
    LastWord(before, word);
    assert (before + word)[|before|..] == word;
  }

  lemma PendingMeaning(value: string)
    requires WellFormed(value)
    ensures var st := ScanFrom(START, value);
            && st.pending != ""
            && (st.isDigit || st.current == [] || IsNull(Flushed(st)) <==> !EndsInDottedQualifier(value))
  {
    var before := TracksScan("", START, value);
    TrackedMeaning(value, before, ScanFrom(START, value));
  }

  lemma TrackedMeaning(value: string, before: string, st: Scan)
    requires WellFormed(value) && st.Ok() && Tracks(before, st) && before + st.pending == value
    ensures st.pending != ""
    ensures st.isDigit || st.current == [] || IsNull(Flushed(st)) <==> !EndsInDottedQualifier(value)
  {
    assert st.pending == "" ==> before == value;
    if st.isDigit {
      PendingDigits(before, st.pending);
    } else {
      NullWord(st.pending);
      PendingWord(before, st.pending);
    }
  }

  lemma AppendZeroText(value: string)
    requires WellFormed(value) && |value| + 2 <= MAX_LENGTH
    ensures WellFormed(value + ".0")
    ensures Nest(Finish(ScanFrom(START, value + ".0"))) == Nest(Finish(ScanFrom(START, value))) <==>
              !EndsInDottedQualifier(value)
  {
    ZeroWellFormed(value);
    PendingMeaning(value);
    ScanAppend(START, value, ".0");
    ZeroForms(ScanFrom(START, value));
  }

  // A trailing blank ends up inside the longer text, which is then malformed.
  lemma BlankInside(version: string)
    requires Parse(version).Some? && Text.IsSpace(version[|version| - 1])
    ensures Parse(version + ".0").None?
  {
    BlankPosition(version, ".0");
    BadCharacter(Normalized(version + ".0"), |Text.StripLeft(version)| - 1, version[|version| - 1]);
  }

  lemma BlankPosition(version: string, t: string)
    requires Text.StripLeft(version) != [] && t != "" && !Text.IsSpace(t[|t| - 1])
    ensures var value, k := Normalized(version + t), |Text.StripLeft(version)| - 1;
            k < |value| && value[k] == Text.LowerChar(version[|version| - 1])
  {
    Text.StripInside(version, t);
  }

  lemma BadCharacter(value: string, k: nat, c: char)
    requires k < |value| && value[k] == Text.LowerChar(c) && Text.IsSpace(c)
    ensures !WellFormed(value)
  {
    assert !IsVersionChar(value[k]);
  }

  lemma TooLong(version: string)
    requires Parse(version).Some? && !Text.IsSpace(version[|version| - 1])
    requires |Normalized(version)| + 2 > MAX_LENGTH
    ensures Parse(version + ".0").None?
  {
    NormalizedZero(version);
  }

  // Whether the text with ".0" behind it is still a version.
  predicate TakesZero(version: string) {
    version != "" && !Text.IsSpace(version[|version| - 1]) && |Normalized(version)| + 2 <= MAX_LENGTH
  }

  /** An appended ".0" keeps the canonical form of a version exactly when the longer text is still a
      version and the version does not end in a dotted qualifier. */
  lemma AppendZero(version: string)
    requires Parse(version).Some?
    ensures Parse(version + ".0").Some? <==> TakesZero(version)
    ensures Parse(version + ".0") == Parse(version) <==>
              TakesZero(version) && !EndsInDottedQualifier(Normalized(version))
  {
    if TakesZero(version) {
      NormalizedZero(version);
      AppendZeroText(Normalized(version));
    } else if Text.IsSpace(version[|version| - 1]) {
      BlankInside(version);
    } else {
      TooLong(version);
    }
  }

  /** The condition fails on real versions: 1.x and 1.x.0 are not the same. */
  lemma DottedWordDiffers(v: string, w: string)
    requires v == "1.x" && w == "1.x.0"
    ensures Parse(v).Some? && Parse(w).Some? && Parse(w) != Parse(v)
  {
    assert forall i :: 0 <= i < |v| ==> IsVersionChar(v[i]);
    NormalizedVersionText(v);
    EndsInX(v);
    AppendZero(v);
    assert v + ".0" == w;
  }

  lemma EndsInX(v: string)
    requires v == "1.x"
    ensures EndsInDottedQualifier(v)
  {
    LastWord("1.", "x");
    assert "1." + "x" == v && v[2..] == "x";
  }

  function WithZeros(version: string, n: nat): string {
    if n == 0 then version else WithZeros(version, n - 1) + ".0"
  }

  predicate EndsInDigit(s: string) {
    s != "" && Text.IsDigit(s[|s| - 1])
  }

  lemma DigitEnd(version: string)
    requires EndsInDigit(version)
    ensures !EndsInDottedQualifier(Normalized(version)) && !Text.IsSpace(version[|version| - 1])
  {
    Text.StripAppend(version, "0");
    var value := Normalized(version);
    assert EndsInDigit(value);
    assert BeforeLastWord(value) == value;
  }

  lemma ZeroAfterDigit(version: string)
    requires Parse(version).Some? && EndsInDigit(version)
    requires |Normalized(version)| + 2 <= MAX_LENGTH
    ensures Parse(version + ".0") == Parse(version) && EndsInDigit(version + ".0")
    ensures |Normalized(version + ".0")| == |Normalized(version)| + 2
  {
    DigitEnd(version);
    AppendZero(version);
    NormalizedZero(version);
    ZeroIsDigit(version);
  }

  lemma ZeroIsDigit(version: string)
    ensures EndsInDigit(version + ".0")
  {
  }

  lemma {:induction false} ZerosLength(version: string, n: nat)
    requires EndsInDigit(version)
    ensures EndsInDigit(WithZeros(version, n)) && |Normalized(WithZeros(version, n))| == |Normalized(version)| + 2 * n
  {
    if n > 0 {
      ZerosLength(version, n - 1);
      DigitEnd(WithZeros(version, n - 1));
      NormalizedZero(WithZeros(version, n - 1));
      ZeroIsDigit(WithZeros(version, n - 1));
    }
  }

  // One more zero at a time, for any reading of texts that one more zero keeps.
  lemma {:induction false} ZerosKept(parse: string -> Option<seq<Item>>, version: string, n: nat)
    requires parse(version).Some?
    requires forall k: nat :: k < n && parse(WithZeros(version, k)).Some? ==>
               parse(WithZeros(version, k) + ".0") == parse(WithZeros(version, k))
    ensures parse(WithZeros(version, n)) == parse(version)
  {
    if n > 0 {
      ZerosKept(parse, version, n - 1);
    }
  }

  lemma ZeroAt(version: string, k: nat)
    requires EndsInDigit(version) && |Normalized(version)| + 2 * k + 2 <= MAX_LENGTH && Parse(WithZeros(version, k)).Some?
    ensures Parse(WithZeros(version, k) + ".0") == Parse(WithZeros(version, k))
  {
    ZerosLength(version, k);
    ZeroAfterDigit(WithZeros(version, k));
  }

  /** Zero components after a version that ends in a digit leave the same version as long as the text
      stays within the length limit, and no version beyond it. */
  lemma TrailingZeros(version: string, n: nat)
    requires Parse(version).Some? && EndsInDigit(version)
    ensures Parse(WithZeros(version, n)) == Parse(version) <==> |Normalized(version)| + 2 * n <= MAX_LENGTH
  {
    ZerosLength(version, n);
    if |Normalized(version)| + 2 * n <= MAX_LENGTH {
      forall k: nat | k < n && Parse(WithZeros(version, k)).Some?
        ensures Parse(WithZeros(version, k) + ".0") == Parse(WithZeros(version, k))
      {
        ZeroAt(version, k);
      }
      ZerosKept(Parse, version, n);
    }
  }

  // ---------------------------------------------------------------- letters after digits

  lemma DashStep(st: Scan, c: char)
    requires st.Ok() && st.isDigit && st.pending != "" && IsWordChar(c)
    ensures Step(Step(st, '-'), c) == Step(st, c)
  {
    assert [] + [c] == [c];
  }

  lemma DashWellFormed(a: string, b: string)
    requires WellFormed(a + b) && |a + b| < MAX_LENGTH
    requires a != "" && Text.IsDigit(a[|a| - 1]) && b != "" && IsWordChar(b[0])
    ensures WellFormed(a + "-" + b)
  {
    var s, t := a + "-" + b, a + b;
    assert forall i :: 0 <= i < |a| ==> s[i] == t[i];
    assert forall i :: |a| < i < |s| ==> s[i] == t[i - 1];
    forall i | 0 <= i < |s| - 1 ensures !(IsSeparator(s[i]) && IsSeparator(s[i + 1])) {
      if i + 1 < |a| { assert s[i] == t[i] && s[i + 1] == t[i + 1]; }
      if i > |a| { assert s[i] == t[i - 1] && s[i + 1] == t[i - 1 + 1]; }
    }
  }

  // Where the scan stands after text that ends in a digit.
  lemma PendingDigit(a: string)
    requires a != "" && Text.IsDigit(a[|a| - 1]) && forall i :: 0 <= i < |a| ==> IsVersionChar(a[i])
    ensures ScanFrom(START, a).isDigit && ScanFrom(START, a).pending != ""
  {
    assert a == a[..|a| - 1] + [a[|a| - 1]];
    PendingAfter(a[..|a| - 1], a[|a| - 1]);
  }

  lemma PendingAfter(most: string, c: char)
    requires Text.IsDigit(c) && forall i :: 0 <= i < |most + [c]| ==> IsVersionChar((most + [c])[i])
    ensures ScanFrom(START, most + [c]).isDigit && ScanFrom(START, most + [c]).pending != ""
  {
    ScanAppend(START, most, [c]);
    DigitStep(ScanFrom(START, most), c);
  }

  lemma DigitStep(st: Scan, c: char)
    requires st.Ok() && Text.IsDigit(c)
    ensures ScanFrom(st, [c]).isDigit && ScanFrom(st, [c]).pending != ""
  {
    assert [c][1..] == [];
  }

  /** A word straight after digits reads as if a dash stood between, unless there is no room for the
      dash: 1rc is 1-rc. */
  lemma DashBeforeWord(a: string, b: string)
    requires WellFormed(a + b)
    requires a != "" && Text.IsDigit(a[|a| - 1]) && b != "" && IsWordChar(b[0])
    ensures Parse(a + "-" + b) == Parse(a + b) <==> |a + b| < MAX_LENGTH
  {
    NormalizedVersionText(a + b);
    DashedText(a, b);
    NormalizedVersionText(a + "-" + b);
    if |a + b| < MAX_LENGTH {
      DashWithin(a, b);
    }
  }

  lemma DashedText(a: string, b: string)
    requires forall i :: 0 <= i < |a + b| ==> IsVersionChar((a + b)[i])
    ensures forall i :: 0 <= i < |a + "-" + b| ==> IsVersionChar((a + "-" + b)[i])
  {
    var s, t := a + "-" + b, a + b;
    assert forall i :: 0 <= i < |a| ==> s[i] == t[i];
    assert forall i :: |a| < i < |s| ==> s[i] == t[i - 1];
  }

  lemma DashWithin(a: string, b: string)
    requires WellFormed(a + b) && |a + b| < MAX_LENGTH
    requires a != "" && Text.IsDigit(a[|a| - 1]) && b != "" && IsWordChar(b[0])
    ensures WellFormed(a + "-" + b) && ScanFrom(START, a + "-" + b) == ScanFrom(START, a + b)
  {
    DashWellFormed(a, b);
    assert a + ("-" + b) == a + "-" + b;
    DashScan(a, b, "-" + b);
  }

  lemma DashScan(a: string, b: string, d: string)
    requires a != "" && Text.IsDigit(a[|a| - 1]) && b != "" && IsWordChar(b[0]) && d == "-" + b
    requires forall i :: 0 <= i < |a + b| ==> IsVersionChar((a + b)[i])
    requires forall i :: 0 <= i < |a + d| ==> IsVersionChar((a + d)[i])
    ensures ScanFrom(START, a + d) == ScanFrom(START, a + b)
  {
    ScanAppend(START, a, b);
    ScanAppend(START, a, d);
    PendingDigit(a);
    DashThenWord(ScanFrom(START, a), b, d);
  }

  lemma DashThenWord(st: Scan, b: string, d: string)
    requires st.Ok() && st.isDigit && st.pending != "" && d == "-" + b
    requires b != "" && IsWordChar(b[0]) && forall i :: 0 <= i < |b| ==> IsVersionChar(b[i])
    requires forall i :: 0 <= i < |d| ==> IsVersionChar(d[i])
    ensures ScanFrom(st, d) == ScanFrom(st, b)
  {
    assert d[0] == '-' && d[1..] == b;
    DashStep(st, b[0]);
  }
}
