/** Which texts are versions, and which differences of texts do not matter: case, blanks around, and the
    synonyms of a word (src/remediation_engine/contracts/version_policy.py:27-143). */
module MavenTexts {
  import opened Wrappers
  import Text
  import opened MavenOrder
  import opened MavenParser
  import opened MavenRender
  import opened MavenVersions

  const DIGIT_CHARS := "0123456789"
  const WORD_CHARS := "abcdefghijklmnopqrstuvwxyz_+"
  const DOUBLE_SEPARATORS := {"..", ".-", "-.", "--"}

  lemma CharsExactly(c: char)
    ensures Text.IsDigit(c) <==> c in DIGIT_CHARS
    ensures IsWordChar(c) <==> c in WORD_CHARS
  {
    if Text.IsDigit(c) { assert DIGIT_CHARS[c as int - '0' as int] == c; }
    if 'a' <= c <= 'z' { assert WORD_CHARS[c as int - 'a' as int] == c; }
    if c == '_' { assert WORD_CHARS[26] == c; }
    if c == '+' { assert WORD_CHARS[27] == c; }
  }

  predicate DoubleAt(s: string, i: nat) {
    i + 1 < |s| && s[i..i + 2] in DOUBLE_SEPARATORS
  }

  lemma DoublesExactly(s: string)
    ensures NoDoubleSeparator(s) <==> forall i: nat :: !DoubleAt(s, i)
  {
    forall i: nat | i + 1 < |s| ensures DoubleAt(s, i) <==> IsSeparator(s[i]) && IsSeparator(s[i + 1]) {
      assert s[i..i + 2] == [s[i], s[i + 1]];
    }
    if NoDoubleSeparator(s) {
      forall i: nat ensures !DoubleAt(s, i) {
        assert i + 1 < |s| ==> !(IsSeparator(s[i]) && IsSeparator(s[i + 1]));
      }
    }
    if forall i: nat :: !DoubleAt(s, i) {
      forall i: nat | i < |s| - 1 ensures !(IsSeparator(s[i]) && IsSeparator(s[i + 1])) {
        assert !DoubleAt(s, i);
      }
    }
  }

  predicate KnownChar(c: char) {
    c in DIGIT_CHARS || c in WORD_CHARS || c == '.' || c == '-'
  }

  predicate IsSign(c: char) {
    c == '_' || c == '+' || c == '.' || c == '-'
  }

  lemma KnownExactly(c: char)
    ensures KnownChar(c) <==> IsVersionChar(c)
    ensures KnownChar(c) && !IsSign(c) ==> Text.IsDigit(c) || Text.IsAlpha(c)
    ensures IsSign(c) ==> !Text.IsDigit(c) && !Text.IsAlpha(c)
    ensures IsSign(c) <==> c in ".-_+"
  {
    CharsExactly(c);
    assert ".-_+"[0] == '.' && ".-_+"[1] == '-' && ".-_+"[2] == '_' && ".-_+"[3] == '+';
  }

  /** A text is a version exactly when, trimmed and in lower case, it is not empty, at most 512 long, made
      of digits, letters, dots, dashes, underscores and pluses, begins with a letter or digit, ends in
      none of the signs, and has no two dots or dashes in a row. */
  lemma AcceptsExactly(version: string)
    ensures Parse(version).Some? <==>
              var v := Text.Lower(Text.Strip(version));
              && 0 < |v| <= 512
              && (forall i :: 0 <= i < |v| ==> KnownChar(v[i]))
              && !IsSign(v[0]) && !IsSign(v[|v| - 1])
              && (forall i: nat :: !DoubleAt(v, i))
  {
    WellFormedExactly(Text.Lower(Text.Strip(version)));
  }

  lemma WellFormedExactly(v: string)
    ensures WellFormed(v) <==>
              && 0 < |v| <= 512
              && (forall i :: 0 <= i < |v| ==> KnownChar(v[i]))
              && !IsSign(v[0]) && !IsSign(v[|v| - 1])
              && (forall i: nat :: !DoubleAt(v, i))
  {
    forall c ensures KnownChar(c) == IsVersionChar(c) { KnownExactly(c); }
    DoublesExactly(v);
    if v != "" {
      KnownExactly(v[0]);
      KnownExactly(v[|v| - 1]);
    }
  }

  // ---------------------------------------------------------------- case and blanks

  lemma {:induction false} LowerStrips(s: string)
    ensures Text.Strip(Text.Lower(s)) == Text.Lower(Text.Strip(s))
  {
    LowerStripsLeft(s);
    LowerStripsRight(Text.StripLeft(s));
  }

  lemma {:induction false} LowerStripsLeft(s: string)
    ensures Text.StripLeft(Text.Lower(s)) == Text.Lower(Text.StripLeft(s))
  {
    if s != [] && Text.IsSpace(s[0]) {
      assert Text.Lower(s)[1..] == Text.Lower(s[1..]);
      LowerStripsLeft(s[1..]);
    }
  }

  lemma {:induction false} LowerStripsRight(s: string)
    ensures Text.StripRight(Text.Lower(s)) == Text.Lower(Text.StripRight(s))
  {
    if s != [] && Text.IsSpace(s[|s| - 1]) {
      assert Text.Lower(s)[..|s| - 1] == Text.Lower(s[..|s| - 1]);
      LowerStripsRight(s[..|s| - 1]);
    }
  }

  /** The case of letters does not matter. */
  lemma CaseIgnored(v: string, w: string)
    requires Text.Lower(v) == Text.Lower(w)
    ensures Parse(v) == Parse(w)
  {
    LowerStrips(v);
    LowerStrips(w);
  }

  lemma {:induction false} BlankFront(front: string, s: string)
    requires Text.Blank(front)
    ensures Text.StripLeft(front + s) == Text.StripLeft(s)
  {
    if front == "" {
      assert front + s == s;
    } else {
      assert (front + s)[1..] == front[1..] + s;
      BlankFront(front[1..], s);
    }
  }

  lemma {:induction false} BlankBack(s: string, back: string)
    requires Text.Blank(back)
    ensures Text.StripRight(s + back) == Text.StripRight(s)
  {
    if back == "" {
      assert s + back == s;
    } else {
      assert (s + back)[..|s + back| - 1] == s + back[..|back| - 1];
      BlankBack(s, back[..|back| - 1]);
    }
  }

  lemma {:induction false} BlankOnly(s: string)
    requires Text.Blank(s)
    ensures Text.StripLeft(s) == "" && Text.StripRight(s) == ""
  {
    BlankFront(s, "");
    BlankBack("", s);
    assert s + "" == s && "" + s == s;
  }

  lemma {:induction false} StripLeftBack(s: string, back: string)
    requires Text.Blank(back)
    ensures Text.Strip(s + back) == Text.Strip(s)
  {
    if s == "" {
      assert s + back == back;
      BlankOnly(back);
    } else if Text.IsSpace(s[0]) {
      assert (s + back)[1..] == s[1..] + back;
      StripLeftBack(s[1..], back);
    } else {
      BlankBack(s, back);
    }
  }

  /** Blanks around a version do not matter. */
  lemma BlanksIgnored(front: string, v: string, back: string)
    requires Text.Blank(front) && Text.Blank(back)
    ensures Parse(front + v + back) == Parse(v)
  {
    assert front + v + back == front + (v + back);
    BlankFront(front, v + back);
    StripLeftBack(v, back);
  }

  // ---------------------------------------------------------------- words

  // A scan with its pending number completed, as a word begins.
  function BeforeWord(st: Scan): Scan
    requires st.Ok()
  {
    if st.isDigit && st.pending != "" then Scan(st.closed + [st.current + [Num(Text.Numeral(st.pending))]], [], false, "")
    else st.(isDigit := false)
  }

  lemma WordAfter(st: Scan, w: string)
    requires st.Ok() && (st.pending == "" || st.isDigit) && w != "" && forall i :: 0 <= i < |w| ==> IsWordChar(w[i])
    ensures ScanFrom(st, w) == BeforeWord(st).(pending := w)
  {
    if st.isDigit && st.pending != "" {
      var next := Step(st, w[0]);
      assert w == [w[0]] + w[1..];
      if w[1..] != "" { ScanWord(next, w[1..]); } else { assert ScanFrom(next, w[1..]) == next; }
    } else {
      ScanWord(st, w);
      assert st.pending + w == w;
    }
  }

  predicate IsWord(w: string) {
    w != "" && forall i :: 0 <= i < |w| ==> IsWordChar(w[i])
  }

  // The front ends before a word, and the rest begins after one.
  predicate AroundWord(front: string, rest: string) {
    && (front == "" || !IsWordChar(front[|front| - 1]))
    && (rest == "" || !IsWordChar(rest[0]))
  }

  predicate FollowedByDigit(rest: string) {
    rest != "" && Text.IsDigit(rest[0])
  }

  lemma NoWordPending(front: string)
    requires (front == "" || !IsWordChar(front[|front| - 1])) && forall i :: 0 <= i < |front| ==> IsVersionChar(front[i])
    ensures var st := ScanFrom(START, front); st.pending == "" || st.isDigit
  {
    if front != "" {
      var most, last := front[..|front| - 1], front[|front| - 1];
      assert front == most + [last];
      ScanAppend(START, most, [last]);
      NoWordStep(ScanFrom(START, most), last);
    }
  }

  lemma NoWordStep(st: Scan, c: char)
    requires st.Ok() && IsVersionChar(c) && !IsWordChar(c)
    ensures var next := ScanFrom(st, [c]); next.pending == "" || next.isDigit
  {
    assert [c][1..] == [];
  }

  // Once the word is over, only its item is left of it.
  lemma AfterWord(st: Scan, w: string, v: string, c: char)
    requires st.Ok() && !st.isDigit && IsWord(w) && IsWord(v) && IsVersionChar(c) && !IsWordChar(c)
    requires st.(pending := w).Ok() && st.(pending := v).Ok()
    requires StringItem(w, Text.IsDigit(c)) == StringItem(v, Text.IsDigit(c))
    ensures Step(st.(pending := w), c) == Step(st.(pending := v), c)
  {
  }

  lemma WordsAlike(st: Scan, w: string, v: string, rest: string)
    requires st.Ok() && (st.pending == "" || st.isDigit) && IsWord(w) && IsWord(v)
    requires (rest == "" || !IsWordChar(rest[0])) && StringItem(w, FollowedByDigit(rest)) == StringItem(v, FollowedByDigit(rest))
    requires forall i :: 0 <= i < |rest| ==> IsVersionChar(rest[i])
    ensures Finish(ScanFrom(ScanFrom(st, w), rest)) == Finish(ScanFrom(ScanFrom(st, v), rest))
  {
    WordAfter(st, w);
    WordAfter(st, v);
    if rest != "" {
      AfterWord(BeforeWord(st), w, v, rest[0]);
    }
  }

  lemma ScanThree(front: string, w: string, rest: string)
    requires forall i :: 0 <= i < |front + w + rest| ==> IsVersionChar((front + w + rest)[i])
    ensures (forall i :: 0 <= i < |front| ==> IsVersionChar(front[i])) && (forall i :: 0 <= i < |w| ==> IsVersionChar(w[i]))
    ensures forall i :: 0 <= i < |rest| ==> IsVersionChar(rest[i])
    ensures ScanFrom(START, front + w + rest) == ScanFrom(ScanFrom(ScanFrom(START, front), w), rest)
  {
    ScanAppend(START, front + w, rest);
    ScanAppend(START, front, w);
  }

  /** Two words that stand for one item are interchangeable. */
  lemma SameWord(front: string, w: string, v: string, rest: string)
    requires WellFormed(front + w + rest) && WellFormed(front + v + rest) && IsWord(w) && IsWord(v) && AroundWord(front, rest)
    requires StringItem(w, FollowedByDigit(rest)) == StringItem(v, FollowedByDigit(rest))
    ensures Parse(front + w + rest) == Parse(front + v + rest)
  {
    NormalizedVersionText(front + w + rest);
    NormalizedVersionText(front + v + rest);
    ScanThree(front, w, rest);
    ScanThree(front, v, rest);
    NoWordPending(front);
    WordsAlike(ScanFrom(START, front), w, v, rest);
  }

  const SHORT_WORDS := ["a", "b", "m"]
  const LONG_WORDS := ["alpha", "beta", "milestone"]

  /** In front of a digit a, b and m are alpha, beta and milestone; anywhere cr is rc, and ga, final and
      release are one. */
  lemma Synonyms(front: string, rest: string, i: nat, w: string, v: string)
    requires i < 3 && AroundWord(front, rest) && WellFormed(front + w + rest) && WellFormed(front + v + rest)
    requires || (FollowedByDigit(rest) && w == SHORT_WORDS[i] && v == LONG_WORDS[i])
             || (w == "cr" && v == "rc")
             || (w in {"ga", "final", "release"} && v in {"ga", "final", "release"})
    ensures Parse(front + w + rest) == Parse(front + v + rest)
  {
    SynonymItems(i, w, v, FollowedByDigit(rest));
    SameWord(front, w, v, rest);
  }

  lemma SynonymItems(i: nat, w: string, v: string, followed: bool)
    requires i < 3
    requires (followed && w == SHORT_WORDS[i] && v == LONG_WORDS[i]) || (w == "cr" && v == "rc")
             || (w in {"ga", "final", "release"} && v in {"ga", "final", "release"})
    ensures IsWord(w) && IsWord(v) && StringItem(w, followed) == StringItem(v, followed)
  {
    LowerWordText(w);
    LowerWordText(v);
  }

  lemma LowerWordText(w: string)
    requires forall i :: 0 <= i < |w| ==> IsWordChar(w[i])
    ensures Text.Lower(w) == w
  {
    assert forall c :: c in w ==> IsWordChar(c);
    LowerWord(w);
  }

  /** A word is its own item unless it is one of those synonyms; a plain release is the empty word. */
  lemma WordItems(w: string, followed: bool)
    requires IsWord(w)
    ensures w !in {"a", "b", "m", "cr", "ga", "final", "release"} || (!followed && w in {"a", "b", "m"}) ==>
              StringItem(w, followed) == Str(w)
    ensures w in {"ga", "final", "release"} ==> StringItem(w, followed) == Str("")
  {
    LowerWordText(w);
  }

  // ---------------------------------------------------------------- stable versions

  /** A version is stable exactly when its words, at every depth, are only sp or plain-release words that
      another item follows, and its outermost list has a number. */
  lemma StableExactly(version: string)
    ensures IsStable(version) <==>
              && Parse(version).Some?
              && Qualifiers(Parse(version).value) <= {"", "sp"}
              && exists x :: x in Parse(version).value && x.Num?
  {
    if Parse(version).Some? {
      var form := Parse(version).value;
      StableQualifiers(form);
      if x :| x in form && x.Num? {
        var i :| 0 <= i < |form| && form[i] == x;
        assert HasNumber(form);
      }
      if i :| 0 <= i < |form| && form[i].Num? {
        assert form[i] in form;
      }
    }
  }
}
