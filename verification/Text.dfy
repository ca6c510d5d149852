/** Text operations shared by the models: ASCII trimming and case mapping, Python's
    code-point order on strings, and decimal numerals. */
module Text {

  predicate IsSpace(c: char) {
    '\t' <= c <= '\r' || 28 as char <= c <= ' '
  }

  predicate IsDigit(c: char) {
    '0' <= c <= '9'
  }

  predicate IsAlpha(c: char) {
    'a' <= c <= 'z' || 'A' <= c <= 'Z'
  }

  function LowerChar(c: char): char {
    if 'A' <= c <= 'Z' then (c as int + 32) as char else c
  }

  function UpperChar(c: char): char {
    if 'a' <= c <= 'z' then (c as int - 32) as char else c
  }

  /** Python's ASCII white space: tab to carriage return, the four separators, and the blank. */
  lemma SpacesExactly(c: char)
    ensures IsSpace(c) <==> c as int in {9, 10, 11, 12, 13, 28, 29, 30, 31, 32}
  {
  }

  const LOWER_LETTERS := "abcdefghijklmnopqrstuvwxyz"
  const UPPER_LETTERS := "ABCDEFGHIJKLMNOPQRSTUVWXYZ"

  lemma AlphabetAt(i: nat)
    requires i < 26
    ensures LOWER_LETTERS[i] as int == 'a' as int + i && UPPER_LETTERS[i] as int == 'A' as int + i
  {
  }

  /** Case mapping pairs the two alphabets, letter by letter. */
  lemma CaseOfLetters(i: nat)
    requires i < 26
    ensures LowerChar(UPPER_LETTERS[i]) == LOWER_LETTERS[i] == LowerChar(LOWER_LETTERS[i])
    ensures UpperChar(LOWER_LETTERS[i]) == UPPER_LETTERS[i] == UpperChar(UPPER_LETTERS[i])
    ensures IsAlpha(LOWER_LETTERS[i]) && IsAlpha(UPPER_LETTERS[i])
  {
    AlphabetAt(i);
  }

  /** It leaves everything else alone. */
  lemma CaseOfOthers(c: char)
    requires LowerChar(c) != c || UpperChar(c) != c || IsAlpha(c)
    ensures exists i: nat :: i < 26 && (c == LOWER_LETTERS[i] || c == UPPER_LETTERS[i])
  {
    var i: nat := if 'a' <= c <= 'z' then c as int - 'a' as int else c as int - 'A' as int;
    AlphabetAt(i);
  }

  function Lower(s: string): (r: string)
    ensures |r| == |s| && forall i :: 0 <= i < |s| ==> r[i] == LowerChar(s[i])
  {
    seq(|s|, i requires 0 <= i < |s| => LowerChar(s[i]))
  }

  function Upper(s: string): (r: string)
    ensures |r| == |s| && forall i :: 0 <= i < |s| ==> r[i] == UpperChar(s[i])
  {
    seq(|s|, i requires 0 <= i < |s| => UpperChar(s[i]))
  }

  function StripLeft(s: string): (r: string)
    ensures r == [] || !IsSpace(r[0])
  {
    if s != [] && IsSpace(s[0]) then StripLeft(s[1..]) else s
  }

  function StripRight(s: string): (r: string)
    ensures r <= s
    ensures r == [] || !IsSpace(r[|r| - 1])
  {
    if s != [] && IsSpace(s[|s| - 1]) then StripRight(s[..|s| - 1]) else s
  }

  function Strip(s: string): string {
    StripRight(StripLeft(s))
  }

  ghost predicate Blank(s: string) {
    forall i :: 0 <= i < |s| ==> IsSpace(s[i])
  }

  /** Stripping drops blanks from both ends and nothing else. */
  lemma StripMeaning(s: string) returns (front: string, back: string)
    ensures s == front + Strip(s) + back && Blank(front) && Blank(back)
    ensures Strip(s) != "" ==> !IsSpace(Strip(s)[0]) && !IsSpace(Strip(s)[|Strip(s)| - 1])
  {
    front := StripLeftMeaning(s);
    back := StripRightMeaning(StripLeft(s));
    assert front + (Strip(s) + back) == front + Strip(s) + back;
    if Strip(s) != "" { assert Strip(s)[0] == StripLeft(s)[0]; }
  }

  lemma {:induction false} StripLeftMeaning(s: string) returns (front: string)
    ensures s == front + StripLeft(s) && Blank(front)
  {
    if s != [] && IsSpace(s[0]) {
      var rest := StripLeftMeaning(s[1..]);
      front := [s[0]] + rest;
      assert s == [s[0]] + s[1..];
    } else {
      front := [];
      assert s == [] + s;
    }
  }

  lemma {:induction false} StripRightMeaning(s: string) returns (back: string)
    ensures s == StripRight(s) + back && Blank(back)
  {
    if s != [] && IsSpace(s[|s| - 1]) {
      var rest := StripRightMeaning(s[..|s| - 1]);
      back := rest + [s[|s| - 1]];
      assert s == s[..|s| - 1] + [s[|s| - 1]];
    } else {
      back := [];
      assert s == s + [];
    }
  }

  lemma {:induction false} StripIdempotent(s: string)
    ensures Strip(Strip(s)) == Strip(s)
  {
    var l := StripLeft(s);
    var r := StripRight(l);
    if r != [] {
      assert r[0] == l[0];
    }
  }

  // Text that ends in a non-blank keeps its tail when more such text is appended.
  lemma {:induction false} StripAppend(s: string, t: string)
    requires s != [] && !IsSpace(s[|s| - 1])
    requires t != [] && !IsSpace(t[|t| - 1])
    ensures Strip(s + t) == Strip(s) + t
    ensures Strip(s) != [] && Strip(s)[|Strip(s)| - 1] == s[|s| - 1]
  {
    if IsSpace(s[0]) {
      assert (s + t)[1..] == s[1..] + t;
      StripAppend(s[1..], t);
    }
  }

  // A blank before appended text stays inside.
  lemma {:induction false} StripInside(s: string, t: string)
    requires StripLeft(s) != [] && t != [] && !IsSpace(t[|t| - 1])
    ensures Strip(s + t) == StripLeft(s) + t && StripLeft(s)[|StripLeft(s)| - 1] == s[|s| - 1]
  {
    if IsSpace(s[0]) {
      assert (s + t)[1..] == s[1..] + t;
      StripInside(s[1..], t);
    }
  }

  // Python's order on strings, as -1, 0 or 1.
  function Compare(a: string, b: string): (r: int)
    ensures -1 <= r <= 1
  {
    if a == [] then (if b == [] then 0 else -1)
    else if b == [] then 1
    else if a[0] < b[0] then -1
    else if a[0] > b[0] then 1
    else Compare(a[1..], b[1..])
  }

  /** Strings are ordered by the first character in which they differ, a proper prefix before the
      longer string. */
  lemma {:induction false} CompareFirst(a: string, b: string, i: nat)
    requires i <= |a| && i <= |b| && a[..i] == b[..i]
    ensures i < |a| && i < |b| && a[i] < b[i] ==> Compare(a, b) == -1
    ensures i == |a| && i < |b| ==> Compare(a, b) == -1
  {
    if i > 0 {
      assert a[0] == a[..i][0] == b[..i][0] == b[0];
      assert a[1..][..i - 1] == a[..i][1..] && b[1..][..i - 1] == b[..i][1..];
      CompareFirst(a[1..], b[1..], i - 1);
    }
  }

  lemma {:induction false} CompareAntisymmetric(a: string, b: string)
    ensures Compare(a, b) == -Compare(b, a)
  {
    if a != [] && b != [] && a[0] == b[0] {
      CompareAntisymmetric(a[1..], b[1..]);
    }
  }

  lemma {:induction false} CompareZero(a: string, b: string)
    ensures Compare(a, b) == 0 <==> a == b
  {
    if a != [] && b != [] && a[0] == b[0] {
      CompareZero(a[1..], b[1..]);
      assert a == [a[0]] + a[1..] && b == [b[0]] + b[1..];
    }
  }

  lemma {:induction false} CompareTransitive(a: string, b: string, c: string)
    requires Compare(a, b) <= 0 && Compare(b, c) <= 0
    ensures Compare(a, c) <= 0
    ensures Compare(a, c) == 0 ==> Compare(a, b) == 0 && Compare(b, c) == 0
  {
    if a != [] && b != [] && c != [] && a[0] == b[0] == c[0] {
      CompareTransitive(a[1..], b[1..], c[1..]);
    }
  }

  predicate AllDigits(s: string) {
    forall i :: 0 <= i < |s| ==> IsDigit(s[i])
  }

  // Python's int() on a run of ASCII digits.
  function Numeral(s: string): nat
    requires AllDigits(s)
  {
    if s == [] then 0 else 10 * Numeral(s[..|s| - 1]) + (s[|s| - 1] as nat - '0' as nat)
  }

  function Digits(n: nat): (s: string)
    ensures s != [] && AllDigits(s)
    ensures Numeral(s) == n
  {
    var d := ('0' as nat + n % 10) as char;
    if n < 10 then [d] else
      var s := Digits(n / 10) + [d];
      assert s[..|s| - 1] == Digits(n / 10);
      s
  }

  const DIGITS := "0123456789"

  /** A single digit has its value. */
  lemma NumeralOfDigit(i: nat)
    requires i < 10
    ensures IsDigit(DIGITS[i]) && Numeral([DIGITS[i]]) == i
  {
    assert [DIGITS[i]][..0] == "";
  }

  /** Each further digit is worth its own value and makes the digits before it worth ten times as much. */
  lemma NumeralNext(s: string, i: nat)
    requires AllDigits(s) && i < 10
    ensures AllDigits(s + [DIGITS[i]]) && Numeral(s + [DIGITS[i]]) == 10 * Numeral(s) + i
  {
    NumeralOfDigit(i);
    assert (s + [DIGITS[i]])[..|s|] == s;
  }

  /** Of two numerals of one length the one with the smaller first differing digit is smaller. */
  lemma {:induction false} NumeralOrder(s: string, t: string, i: nat)
    requires AllDigits(s) && AllDigits(t) && |s| == |t| && i < |s| && s[..i] == t[..i] && s[i] < t[i]
    ensures Numeral(s) < Numeral(t)
    decreases |s|
  {
    var n := |s| - 1;
    if i < n {
      assert s[..n][..i] == s[..i] && t[..n][..i] == t[..i];
      NumeralOrder(s[..n], t[..n], i);
    }
  }

  /** Leading zeros change nothing. */
  lemma {:induction false} NumeralZeros(z: string, s: string)
    requires AllDigits(s) && forall i :: 0 <= i < |z| ==> z[i] == '0'
    ensures AllDigits(z + s) && Numeral(z + s) == Numeral(s)
    decreases |z| + |s|
  {
    if s != [] {
      assert (z + s)[..|z + s| - 1] == z + s[..|s| - 1];
      NumeralZeros(z, s[..|s| - 1]);
    } else if z != [] {
      assert z + s == z && z[..|z| - 1] + s == z[..|z| - 1];
      NumeralZeros(z[..|z| - 1], s);
    } else {
      assert z + s == s;
    }
  }

  lemma {:induction false} NumeralPositive(s: string)
    requires AllDigits(s) && s != [] && s[0] != '0'
    ensures Numeral(s) >= 1
  {
    if |s| > 1 { NumeralPositive(s[..|s| - 1]); }
  }

  /** Without a leading zero the longer numeral is the larger. */
  lemma {:induction false} NumeralLonger(s: string, t: string)
    requires AllDigits(s) && AllDigits(t) && |s| > |t| && s[0] != '0'
    ensures Numeral(s) > Numeral(t)
    decreases |t|
  {
    if t == [] {
      NumeralPositive(s);
    } else {
      NumeralLonger(s[..|s| - 1], t[..|t| - 1]);
    }
  }

  predicate IsLeast(s: set<string>, x: string) {
    x in s && forall y :: y in s ==> Compare(x, y) <= 0
  }

  // The first of some strings in Python's order.
  function Least(s: set<string>): (x: string)
    requires s != {}
    ensures IsLeast(s, x)
  {
    LeastExists(s);
    LeastUnique(s);
    var x :| x in s && IsLeast(s, x);
    x
  }

  lemma LeastUnique(s: set<string>)
    ensures forall x, y :: IsLeast(s, x) && IsLeast(s, y) ==> x == y
  {
    forall x, y | IsLeast(s, x) && IsLeast(s, y) ensures x == y {
      CompareAntisymmetric(x, y);
      CompareZero(x, y);
    }
  }

  // Adding one string to a set with a least one.
  lemma LeastOfMore(rest: set<string>, x: string, z: string)
    requires IsLeast(rest, x)
    ensures IsLeast(rest + {z}, if Compare(x, z) <= 0 then x else z)
  {
    CompareAntisymmetric(x, z);
    CompareZero(z, z);
    forall y | y in rest && Compare(x, z) > 0 ensures Compare(z, y) <= 0 {
      CompareTransitive(z, x, y);
    }
  }

  lemma {:induction false} LeastExists(s: set<string>)
    requires s != {}
    ensures exists x :: IsLeast(s, x)
  {
    var z :| z in s;
    var rest := s - {z};
    CompareZero(z, z);
    if rest == {} {
      assert s == {z};
      assert IsLeast(s, z);
    } else {
      LeastExists(rest);
      var x :| IsLeast(rest, x);
      assert s == rest + {z};
      LeastOfMore(rest, x, z);
    }
  }

  // Python's sorted() on a set.
  function Sorted(s: set<string>): (r: seq<string>)
    ensures forall x :: x in r <==> x in s
    ensures forall i, j :: 0 <= i < j < |r| ==> r[i] != r[j] && Compare(r[i], r[j]) <= 0
  {
    if s == {} then [] else
      var x := Least(s);
      [x] + Sorted(s - {x})
  }
}
