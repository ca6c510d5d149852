/** What the numbers in a version mean: versions that differ in one number, behind any common front, are
    ordered as those numbers, and numbers as their digits
    (src/remediation_engine/contracts/version_policy.py:64-143, 189-209). */
module MavenNumbers {
  import opened Wrappers
  import Text
  import opened MavenOrder
  import opened MavenParser
  import opened MavenRender
  import opened MavenVersions

  predicate EndsItem(front: string) {
    front == "" || IsSeparator(front[|front| - 1])
  }

  // After a separator nothing is pending.
  lemma NothingPending(front: string)
    requires EndsItem(front) && forall i :: 0 <= i < |front| ==> IsVersionChar(front[i])
    ensures ScanFrom(START, front).pending == ""
  {
    if front != "" {
      var most, last := front[..|front| - 1], front[|front| - 1];
      assert front == most + [last];
      ScanAppend(START, most, [last]);
      SeparatorEnds(ScanFrom(START, most), last);
    }
  }

  lemma SeparatorEnds(st: Scan, c: char)
    requires st.Ok() && IsSeparator(c)
    ensures ScanFrom(st, [c]).pending == ""
  {
    assert [c][1..] == [];
  }

  // The segments of a version that ends in a number.
  lemma FinishNumber(front: string, s: string)
    requires EndsItem(front) && s != "" && Text.AllDigits(s)
    requires forall i :: 0 <= i < |front + s| ==> IsVersionChar((front + s)[i])
    ensures forall i :: 0 <= i < |front| ==> IsVersionChar(front[i])
    ensures var st := ScanFrom(START, front);
            Finish(ScanFrom(START, front + s)) == st.closed + [st.current + [Num(Text.Numeral(s))]]
  {
    ScanAppend(START, front, s);
    NothingPending(front);
    ScanDigits(ScanFrom(START, front), s);
    assert [] + s == s;
  }

  lemma {:induction false} TrimAfter(current: seq<Item>, x: Item)
    ensures TrimNulls(current + [x]) == if IsNull(x) then TrimNulls(current) else current + [x]
  {
    assert (current + [x])[..|current|] == current;
  }

  // Trimmed items in front of a positive number count for nothing against it.
  lemma {:induction false} TrimmedBelow(current: seq<Item>, b: nat)
    requires b > 0
    ensures CompareLists(TrimNulls(current), current + [Num(b)]) < 0
  {
    if current != [] && IsNull(current[|current| - 1]) {
      var most, last := current[..|current| - 1], current[|current| - 1];
      TrimmedBelowNull(TrimNulls(most), most, last, b);
      assert current + [Num(b)] == most + [last, Num(b)];
    } else {
      PrefixCancels(current, [], [Num(b)]);
      assert current + [] == current;
    }
  }

  lemma {:induction false} TrimmedBelowNull(trimmed: seq<Item>, most: seq<Item>, last: Item, b: nat)
    requires trimmed == TrimNulls(most) && IsNull(last) && b > 0
    ensures CompareLists(trimmed, most + [last, Num(b)]) < 0
    decreases |most|
  {
    TrimmedRest(most);
    NullsThenNumber(most[|trimmed|..] + [last], b);
    assert most + [last, Num(b)] == trimmed + (most[|trimmed|..] + [last] + [Num(b)]);
    PrefixCancels(trimmed, [], most[|trimmed|..] + [last] + [Num(b)]);
    assert trimmed + [] == trimmed;
  }

  lemma {:induction false} TrimmedRest(s: seq<Item>)
    ensures forall i :: |TrimNulls(s)| <= i < |s| ==> IsNull(s[i])
  {
    if s != [] && IsNull(s[|s| - 1]) { TrimmedRest(s[..|s| - 1]); }
  }

  lemma {:induction false} NullsThenNumber(nulls: seq<Item>, b: nat)
    requires b > 0 && forall i :: 0 <= i < |nulls| ==> IsNull(nulls[i])
    ensures CompareLists([], nulls + [Num(b)]) < 0
  {
    if nulls == [] {
      assert nulls + [Num(b)] == [Num(b)];
    } else {
      assert (nulls + [Num(b)])[1..] == nulls[1..] + [Num(b)];
      NullsThenNumber(nulls[1..], b);
      NullItem(nulls[0]);
    }
  }

  lemma NullItem(x: Item)
    requires IsNull(x)
    ensures CompareToNull(x) == 0
  {
    if x.Str? { QualifiersZero(x.s, ""); }
  }

  // Two last segments that differ in their last number.
  lemma LastNumbers(current: seq<Item>, a: nat, b: nat)
    requires a < b
    ensures TrimNulls(current + [Num(b)]) != []
    ensures CompareLists(TrimNulls(current + [Num(a)]), TrimNulls(current + [Num(b)])) < 0
  {
    TrimAfter(current, Num(a));
    TrimAfter(current, Num(b));
    if a == 0 {
      TrimmedBelow(current, b);
    } else {
      PrefixCancels(current, [Num(a)], [Num(b)]);
    }
  }

  // Behind closed segments the order of the last ones decides.
  lemma {:induction false} NestBelow(closed: seq<seq<Item>>, a: seq<Item>, b: seq<Item>)
    requires TrimNulls(b) != [] && CompareLists(TrimNulls(a), TrimNulls(b)) < 0
    ensures Nest(closed + [b]) != [] && CompareLists(Nest(closed + [a]), Nest(closed + [b])) < 0
  {
    if closed == [] {
      assert closed + [a] == [a] && closed + [b] == [b];
    } else {
      var t, inner := TrimNulls(closed[0]), closed[1..];
      assert (closed + [a])[1..] == inner + [a] && (closed + [b])[1..] == inner + [b];
      NestBelow(inner, a, b);
      ListBelow(t, Nest(inner + [a]), Nest(inner + [b]));
    }
  }

  lemma ListBelow(t: seq<Item>, x: seq<Item>, y: seq<Item>)
    requires y != [] && CompareLists(x, y) < 0
    ensures CompareLists(t + if x == [] then [] else [Lst(x)], t + [Lst(y)]) < 0
  {
    PrefixCancels(t, if x == [] then [] else [Lst(x)], [Lst(y)]);
    CompareWithNothing(y);
    assert [Lst(y)][1..] == [] && [Lst(x)][1..] == [];
    assert CompareToNull(Lst(y)) == CompareAllToNull(y);
  }

  lemma FormOfNumber(front: string, s: string) returns (closed: seq<seq<Item>>, current: seq<Item>)
    requires EndsItem(front) && WellFormed(front + s) && s != "" && Text.AllDigits(s)
    ensures forall i :: 0 <= i < |front| ==> IsVersionChar(front[i])
    ensures closed == ScanFrom(START, front).closed && current == ScanFrom(START, front).current
    ensures Parse(front + s) == Some(Nest(closed + [current + [Num(Text.Numeral(s))]]))
  {
    NormalizedVersionText(front + s);
    FinishNumber(front, s);
    closed, current := ScanFrom(START, front).closed, ScanFrom(START, front).current;
  }

  lemma ParsedOrder(v: string, w: string, f: seq<Item>, g: seq<Item>)
    requires Parse(v) == Some(f) && Parse(w) == Some(g)
    ensures CompareVersions(v, w) == Some(CompareLists(f, g))
  {
  }

  // The order of the forms is the order of the numbers.
  lemma FormsDecide(closed: seq<seq<Item>>, current: seq<Item>, a: nat, b: nat)
    ensures CompareLists(Nest(closed + [current + [Num(a)]]), Nest(closed + [current + [Num(b)]])) == CompareInts(a, b)
  {
    if a < b {
      LastNumbers(current, a, b);
      NestBelow(closed, current + [Num(a)], current + [Num(b)]);
    } else if a == b {
      ListsReflexive(Nest(closed + [current + [Num(a)]]));
    } else {
      LastNumbers(current, b, a);
      NestBelow(closed, current + [Num(b)], current + [Num(a)]);
      ListsAntisymmetric(Nest(closed + [current + [Num(a)]]), Nest(closed + [current + [Num(b)]]));
    }
  }

  /** Two versions with a common front, empty or up to a dot or dash, and a number behind it compare as
      the numbers. */
  lemma NumbersDecide(front: string, s: string, t: string)
    requires EndsItem(front) && WellFormed(front + s) && WellFormed(front + t)
    requires s != "" && t != "" && Text.AllDigits(s) && Text.AllDigits(t)
    ensures CompareVersions(front + s, front + t) == Some(CompareInts(Text.Numeral(s), Text.Numeral(t)))
  {
    var closed, current := FormOfNumber(front, s);
    var c, d := FormOfNumber(front, t);
    var a, b := Text.Numeral(s), Text.Numeral(t);
    FormsDecide(closed, current, a, b);
    ParsedOrder(front + s, front + t, Nest(closed + [current + [Num(a)]]), Nest(closed + [current + [Num(b)]]));
  }

  /** So digits decide: of two numbers without leading zeros the longer is later, of equally long ones
      that with the larger first differing digit, and leading zeros do not count. */
  lemma DigitsDecide(front: string, s: string, t: string, z: string)
    requires EndsItem(front) && WellFormed(front + s) && WellFormed(front + t) && WellFormed(front + (z + s))
    requires s != "" && t != "" && Text.AllDigits(s) && Text.AllDigits(t) && forall i :: 0 <= i < |z| ==> z[i] == '0'
    ensures |s| < |t| && t[0] != '0' ==> CompareVersions(front + s, front + t) == Some(-1)
    ensures |s| == |t| ==> forall i :: 0 <= i < |s| && s[..i] == t[..i] && s[i] < t[i] ==> CompareVersions(front + s, front + t) == Some(-1)
    ensures CompareVersions(front + (z + s), front + s) == Some(0)
  {
    NumbersDecide(front, s, t);
    if |s| < |t| && t[0] != '0' { Text.NumeralLonger(t, s); }
    if |s| == |t| {
      forall i | 0 <= i < |s| && s[..i] == t[..i] && s[i] < t[i] ensures Text.Numeral(s) < Text.Numeral(t) {
        Text.NumeralOrder(s, t, i);
      }
    }
    Text.NumeralZeros(z, s);
    NumbersDecide(front, z + s, s);
  }
}
