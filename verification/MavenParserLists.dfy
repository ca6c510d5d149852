/** The Maven version parser as written: one pass that fills nested lists through aliases, an
    in-place trim from the innermost list outwards, and a freeze
    (src/remediation_engine/contracts/version_policy.py:49-143). */
module MavenParserLists {
  import opened Wrappers
  import Text
  import opened MavenOrder
  import opened MavenParser

  // What a list under construction holds: a scalar or a reference to another list.
  datatype Cell = Scalar(item: Item) | Ref(list: ItemList)

  class ItemList {
    var items: seq<Cell>

    constructor ()
      ensures items == []
    {
      items := [];
    }
  }

  function Cells(s: seq<Item>): (r: seq<Cell>)
    ensures |r| == |s| && forall i :: 0 <= i < |s| ==> r[i] == Scalar(s[i])
  {
    seq(|s|, i requires 0 <= i < |s| => Scalar(s[i]))
  }

  // The lists on the stack hold the segments, each but the last ending in the next list.
  ghost predicate Linked(stack: seq<ItemList>, segs: seq<seq<Item>>)
    reads stack
  {
    && |stack| == |segs| > 0
    && (forall i, j :: 0 <= i < j < |stack| ==> stack[i] != stack[j])
    && (forall i :: 0 <= i < |stack| - 1 ==> stack[i].items == Cells(segs[i]) + [Ref(stack[i + 1])])
    && stack[|stack| - 1].items == Cells(segs[|segs| - 1])
  }

  method Append(stack: seq<ItemList>, ghost segs: seq<seq<Item>>, x: Item)
    requires Linked(stack, segs)
    modifies stack[|stack| - 1]
    ensures Linked(stack, segs[..|segs| - 1] + [segs[|segs| - 1] + [x]])
  {
    var current := stack[|stack| - 1];
    current.items := current.items + [Scalar(x)];
  }

  method OpenSublist(stack: seq<ItemList>, ghost segs: seq<seq<Item>>) returns (deeper: seq<ItemList>)
    requires Linked(stack, segs)
    modifies stack[|stack| - 1]
    ensures |deeper| == |stack| + 1 && deeper[..|stack|] == stack && fresh(deeper[|stack|])
    ensures Linked(deeper, segs + [[]])
  {
    var current := new ItemList();
    var top := stack[|stack| - 1];
    top.items := top.items + [Ref(current)];
    deeper := stack + [current];
  }

  lemma ScanNext(value: string, index: nat)
    requires index < |value| && forall i :: 0 <= i < |value| ==> IsVersionChar(value[i])
    ensures ScanFrom(START, value[..index + 1]) == Step(ScanFrom(START, value[..index]), value[index])
  {
    assert value[..index + 1] == value[..index] + [value[index]];
    ScanAppend(START, value[..index], [value[index]]);
  }

  // The item a piece of text becomes.
  function PieceItem(text: string, isDigit: bool, followedByDigit: bool): Item
    requires isDigit ==> Text.AllDigits(text)
  {
    if isDigit then Num(Text.Numeral(text)) else StringItem(text, followedByDigit)
  }

  // The deeper stack extends the first with new lists.
  ghost predicate Deepens(stack: seq<ItemList>, deeper: seq<ItemList>) {
    |stack| <= |deeper| && deeper[..|stack|] == stack
  }

  // '.' or '-': the text so far, or a zero when there is none, is an item.
  method ReadSeparator(c: char, text: string, isDigit: bool, stack: seq<ItemList>, ghost st: Scan)
    returns (deeper: seq<ItemList>)
    requires IsSeparator(c) && st.Ok() && st.isDigit == isDigit && st.pending == text
    requires Linked(stack, st.closed + [st.current])
    modifies stack[|stack| - 1]
    ensures var next := Step(st, c); Linked(deeper, next.closed + [next.current])
    ensures Deepens(stack, deeper) && forall i :: |stack| <= i < |deeper| ==> fresh(deeper[i])
  {
    ghost var segs := st.closed + [st.current];
    assert segs[..|segs| - 1] == st.closed;
    var item := if text == "" then Num(0) else PieceItem(text, isDigit, false);
    assert item == Flushed(st);
    Append(stack, segs, item);
    deeper := stack;
    if c == '-' {
      deeper := OpenSublist(deeper, st.closed + [st.current + [item]]);
    }
  }

  // A digit after a word: the word opens a list of its own, unless it stands at the front of one.
  method EndWord(text: string, c: char, stack: seq<ItemList>, ghost st: Scan) returns (deeper: seq<ItemList>)
    requires Text.IsDigit(c) && text != "" && st.Ok() && !st.isDigit && st.pending == text
    requires Linked(stack, st.closed + [st.current])
    modifies stack[|stack| - 1]
    ensures var next := Step(st, c); Linked(deeper, next.closed + [next.current])
    ensures Deepens(stack, deeper) && forall i :: |stack| <= i < |deeper| ==> fresh(deeper[i])
  {
    deeper := stack;
    ghost var segs := st.closed + [st.current];
    ghost var word := WordItem(text, true);
    ghost var base := if st.current != [] then segs else st.closed;
    if deeper[|deeper| - 1].items != [] {
      deeper := OpenSublist(deeper, segs);
      segs := segs + [[]];
    }
    assert segs == base + [[]];
    var item := PieceItem(text, false, true);
    Append(deeper, segs, item);
    assert item == word && segs[..|segs| - 1] == base && segs[|segs| - 1] + [item] == [word];
    deeper := OpenSublist(deeper, base + [[word]]);
    assert Step(st, c).closed == base + [[word]];
  }

  // A letter after digits: the number ends its list and a new one is opened.
  method EndNumber(text: string, c: char, stack: seq<ItemList>, ghost st: Scan) returns (deeper: seq<ItemList>)
    requires IsWordChar(c) && text != "" && st.Ok() && st.isDigit && st.pending == text
    requires Linked(stack, st.closed + [st.current])
    modifies stack[|stack| - 1]
    ensures var next := Step(st, c); Linked(deeper, next.closed + [next.current])
    ensures Deepens(stack, deeper) && forall i :: |stack| <= i < |deeper| ==> fresh(deeper[i])
  {
    ghost var segs := st.closed + [st.current];
    assert segs[..|segs| - 1] == st.closed;
    var item := PieceItem(text, true, false);
    Append(stack, segs, item);
    deeper := OpenSublist(stack, st.closed + [st.current + [item]]);
    assert Step(st, c).closed == st.closed + [st.current + [item]];
  }

  // What the next character does to the pending text.
  lemma PendingStep(st: Scan, c: char)
    requires st.Ok() && IsVersionChar(c)
    ensures var next := Step(st, c); var turns := st.pending != "" && st.isDigit != Text.IsDigit(c);
            if IsSeparator(c) then next.isDigit == st.isDigit && next.pending == []
            else next.isDigit == Text.IsDigit(c) && next.pending == (if turns then [] else st.pending) + [c]
    ensures !IsSeparator(c) && (st.pending == "" || st.isDigit == Text.IsDigit(c)) ==>
              Step(st, c).closed == st.closed && Step(st, c).current == st.current
  {
  }

  // The lists hold a scan that stands at some pending text.
  ghost predicate Holds(stack: seq<ItemList>, isDigit: bool, text: string, st: Scan)
    reads stack
  {
    st.Ok() && st.isDigit == isDigit && st.pending == text && Linked(stack, st.closed + [st.current])
  }

  // The loop's state before the character at the index.
  ghost predicate Reading(value: string, index: nat, startIndex: nat, isDigit: bool, stack: seq<ItemList>, st: Scan)
    reads stack
  {
    startIndex <= index <= |value| && Holds(stack, isDigit, value[startIndex..index], st)
  }

  // One character after some pending text: whether it ends the text, and what the lists become.
  method ReadPiece(c: char, text: string, isDigit: bool, stack: seq<ItemList>, ghost st: Scan)
    returns (deeper: seq<ItemList>, digit: bool, ended: bool)
    requires IsVersionChar(c) && Holds(stack, isDigit, text, st)
    modifies stack[|stack| - 1]
    ensures Holds(deeper, digit, if IsSeparator(c) then [] else (if ended then [] else text) + [c], Step(st, c))
    ensures Deepens(stack, deeper) && forall i :: |stack| <= i < |deeper| ==> fresh(deeper[i])
  {
    deeper, digit, ended := stack, isDigit, true;
    PendingStep(st, c);
    if c == '.' || c == '-' {
      deeper := ReadSeparator(c, text, isDigit, stack, st);
    } else if Text.IsDigit(c) {
      ended := !isDigit && text != "";
      if ended {
        deeper := EndWord(text, c, stack, st);
      }
      digit := true;
    } else {
      ended := isDigit && text != "";
      if ended {
        deeper := EndNumber(text, c, stack, st);
      }
      digit := false;
    }
  }

  lemma LongerPiece(value: string, startIndex: nat, index: nat)
    requires startIndex <= index < |value|
    ensures value[startIndex..index + 1] == value[startIndex..index] + [value[index]]
    ensures value[index..index + 1] == [] + [value[index]] && value[index + 1..index + 1] == []
  {
  }

  // The body of the scanning loop, for the character at the index.
  method ReadCharacter(value: string, index: nat, startIndex: nat, isDigit: bool,
                       stack: seq<ItemList>, ghost st: Scan)
    returns (deeper: seq<ItemList>, digit: bool, start: nat)
    requires index < |value| && IsVersionChar(value[index])
    requires Reading(value, index, startIndex, isDigit, stack, st)
    modifies stack[|stack| - 1]
    ensures Reading(value, index + 1, start, digit, deeper, Step(st, value[index]))
    ensures Deepens(stack, deeper) && forall i :: |stack| <= i < |deeper| ==> fresh(deeper[i])
  {
    LongerPiece(value, startIndex, index);
    var ended;
    deeper, digit, ended := ReadPiece(value[index], value[startIndex..index], isDigit, stack, st);
    start := if value[index] == '.' || value[index] == '-' then index + 1 else if ended then index else startIndex;
  }

  // The text left when the characters have ended.
  method AppendLast(text: string, isDigit: bool, stack: seq<ItemList>, ghost st: Scan)
    returns (deeper: seq<ItemList>, ghost segs: seq<seq<Item>>)
    requires Holds(stack, isDigit, text, st)
    modifies stack[|stack| - 1]
    ensures segs == Finish(st) && Linked(deeper, segs)
    ensures Deepens(stack, deeper) && forall i :: |stack| <= i < |deeper| ==> fresh(deeper[i])
  {
    deeper, segs := stack, st.closed + [st.current];
    if text != "" {
      if !isDigit && deeper[|deeper| - 1].items != [] {
        deeper := OpenSublist(deeper, segs);
        segs := segs + [[]];
      }
      var item := PieceItem(text, isDigit, false);
      Append(deeper, segs, item);
      segs := segs[..|segs| - 1] + [segs[|segs| - 1] + [item]];
      assert segs == Finish(st) by {
        assert [] + [item] == [item];
        assert st.current == [] ==> st.current + [item] == [item];
      }
    }
  }

  // One turn of the loop, against the scan of the text read so far.
  method ReadNext(value: string, index: nat, startIndex: nat, isDigit: bool, stack: seq<ItemList>)
    returns (deeper: seq<ItemList>, digit: bool, start: nat)
    requires index < |value| && forall i :: 0 <= i < |value| ==> IsVersionChar(value[i])
    requires Reading(value, index, startIndex, isDigit, stack, ScanFrom(START, value[..index]))
    modifies stack[|stack| - 1]
    ensures Reading(value, index + 1, start, digit, deeper, ScanFrom(START, value[..index + 1]))
    ensures Deepens(stack, deeper) && forall i :: |stack| <= i < |deeper| ==> fresh(deeper[i])
  {
    ghost var st := ScanFrom(START, value[..index]);
    ScanNext(value, index);
    deeper, digit, start := ReadCharacter(value, index, startIndex, isDigit, stack, st);
  }

  method ScanCharacters(value: string) returns (stack: seq<ItemList>, isDigit: bool, startIndex: nat)
    requires forall i :: 0 <= i < |value| ==> IsVersionChar(value[i])
    ensures Reading(value, |value|, startIndex, isDigit, stack, ScanFrom(START, value[..|value|]))
    ensures forall i :: 0 <= i < |stack| ==> fresh(stack[i])
  {
    var root := new ItemList();
    stack := [root];
    isDigit, startIndex := false, 0;
    for index := 0 to |value|
      invariant Reading(value, index, startIndex, isDigit, stack, ScanFrom(START, value[..index]))
      invariant forall i :: 0 <= i < |stack| ==> fresh(stack[i])
    {
      stack, isDigit, startIndex := ReadNext(value, index, startIndex, isDigit, stack);
    }
  }

  // The lists after the last character, and the text still pending.
  method ScanText(value: string) returns (stack: seq<ItemList>, isDigit: bool, text: string)
    requires forall i :: 0 <= i < |value| ==> IsVersionChar(value[i])
    ensures Holds(stack, isDigit, text, ScanFrom(START, value))
    ensures forall i :: 0 <= i < |stack| ==> fresh(stack[i])
  {
    var startIndex;
    stack, isDigit, startIndex := ScanCharacters(value);
    assert value[..|value|] == value;
    text := value[startIndex..];
  }

  method ScanIntoLists(value: string) returns (stack: seq<ItemList>, ghost segs: seq<seq<Item>>)
    requires WellFormed(value)
    ensures segs == Finish(ScanFrom(START, value)) && Linked(stack, segs)
    ensures forall i :: 0 <= i < |stack| ==> fresh(stack[i])
  {
    var isDigit, text;
    stack, isDigit, text := ScanText(value);
    stack, segs := AppendLast(text, isDigit, stack, ScanFrom(START, value));
  }

  // ---------------------------------------------------------------- trimming in place

  ghost function KeptRef(sub: seq<ItemList>): seq<Cell>
    requires |sub| <= 1
    reads sub
  {
    if sub == [] || sub[0].items == [] then [] else [Ref(sub[0])]
  }

  lemma DeleteLastScalar(s: seq<Item>, tail: seq<Cell>)
    requires s != []
    ensures var cells := Cells(s) + tail; var last := |s| - 1;
            cells[last] == Scalar(s[last]) && cells[..last] + cells[last + 1..] == Cells(s[..last]) + tail
  {
  }

  // One list of the trim: drops nulls from the end, looking past a kept sublist.
  method TrimList(list: ItemList, ghost s: seq<Item>, ghost sub: seq<ItemList>)
    requires |sub| <= 1 && list !in sub
    requires list.items == Cells(s) + (if sub == [] then [] else [Ref(sub[0])])
    requires forall x :: x in s ==> !x.Lst?
    modifies list
    ensures list.items == Cells(TrimNulls(s)) + KeptRef(sub)
  {
    ghost var left, tail := s, KeptRef(sub);  // scalars still to look at; what stays behind them
    var index := |list.items| - 1;
    while index >= 0
      invariant left <= s && TrimNulls(s) == TrimNulls(left) && tail == KeptRef(sub)
      invariant if index == |left| then sub != [] && list.items == Cells(left) + [Ref(sub[0])]
                else index == |left| - 1 && list.items == Cells(left) + tail
      decreases index
    {
      var cell := list.items[index];
      if index < |left| {
        DeleteLastScalar(left, tail);
        assert left[index] in s;
      }
      var isNull := match cell case Scalar(x) => IsNull(x) case Ref(l) => l.items == [];
      if isNull {
        list.items := list.items[..index] + list.items[index + 1..];
        if index < |left| { left := left[..index]; }
      } else if !cell.Ref? {
        break;
      }
      index := index - 1;
    }
  }

  // One list after trimming: a sublist survives exactly when the rest nests to something.
  ghost predicate TrimmedAt(stack: seq<ItemList>, segs: seq<seq<Item>>, i: nat)
    requires |stack| == |segs| && i < |stack|
    reads stack[i]
  {
    stack[i].items == Cells(TrimNulls(segs[i])) + SublistRef(stack, segs, i)
  }

  ghost predicate Trimmed(stack: seq<ItemList>, segs: seq<seq<Item>>)
    reads stack
  {
    |stack| == |segs| && forall i :: 0 <= i < |stack| ==> TrimmedAt(stack, segs, i)
  }

  ghost function SublistRef(stack: seq<ItemList>, segs: seq<seq<Item>>, i: nat): seq<Cell>
    requires |stack| == |segs| && i < |stack|
  {
    if i + 1 < |stack| && Nest(segs[i + 1..]) != [] then [Ref(stack[i + 1])] else []
  }

  lemma NestEmpty(stack: seq<ItemList>, segs: seq<seq<Item>>)
    requires Trimmed(stack, segs) && stack != []
    ensures stack[0].items == [] <==> Nest(segs) == []
  {
    assert TrimmedAt(stack, segs, 0);
  }

  lemma TailAt(stack: seq<ItemList>, segs: seq<seq<Item>>, i: nat)
    requires |stack| == |segs| && i + 1 < |stack|
    ensures TrimmedAt(stack[1..], segs[1..], i) <==> TrimmedAt(stack, segs, i + 1)
  {
    assert segs[1..][i + 1..] == segs[i + 2..];
  }

  lemma TrimmedTail(stack: seq<ItemList>, segs: seq<seq<Item>>)
    requires Trimmed(stack, segs) && stack != []
    ensures Trimmed(stack[1..], segs[1..])
  {
    forall i: nat | i < |stack| - 1 ensures TrimmedAt(stack[1..], segs[1..], i) {
      assert TrimmedAt(stack, segs, i + 1);
      TailAt(stack, segs, i);
    }
  }

  lemma TrimmedCons(stack: seq<ItemList>, segs: seq<seq<Item>>)
    requires |stack| == |segs| > 0
    ensures Trimmed(stack[1..], segs[1..]) && TrimmedAt(stack, segs, 0) ==> Trimmed(stack, segs)
  {
    if Trimmed(stack[1..], segs[1..]) && TrimmedAt(stack, segs, 0) {
      forall i: nat | 0 < i < |stack| ensures TrimmedAt(stack, segs, i) {
        assert TrimmedAt(stack[1..], segs[1..], i - 1);
        TailAt(stack, segs, i - 1);
      }
    }
  }

  // One list of the trim, the lists inside it done.
  method TrimOne(stack: seq<ItemList>, ghost segs: seq<seq<Item>>)
    requires |stack| == |segs| > 0 && stack[0] !in stack[1..]
    requires Trimmed(stack[1..], segs[1..])
    requires stack[0].items == Cells(segs[0]) + (if |stack| == 1 then [] else [Ref(stack[1])])
    requires forall x :: x in segs[0] ==> !x.Lst?
    modifies stack[0]
    ensures Trimmed(stack, segs)
  {
    ghost var sub := if |stack| == 1 then [] else [stack[1]];
    if |stack| > 1 {
      NestEmpty(stack[1..], segs[1..]);
    }
    TrimList(stack[0], segs[0], sub);
    TrimmedCons(stack, segs);
  }

  method TrimAll(stack: seq<ItemList>, ghost segs: seq<seq<Item>>)
    requires Linked(stack, segs)
    requires forall s, x :: s in segs && x in s ==> !x.Lst?
    modifies stack
    ensures Trimmed(stack, segs)
  {
    for k := |stack| downto 0
      invariant Trimmed(stack[k..], segs[k..])
      invariant forall i :: 0 <= i < k ==> stack[i].items == old(stack[i].items)
    {
      assert stack[k..][1..] == stack[k + 1..] && segs[k..][1..] == segs[k + 1..];
      TrimOne(stack[k..], segs[k..]);
    }
    assert stack[0..] == stack && segs[0..] == segs;
  }

  // What a trimmed list holds, cell by cell, and what it is to become.
  lemma FrozenShape(stack: seq<ItemList>, segs: seq<seq<Item>>)
    requires Trimmed(stack, segs) && stack != []
    ensures |stack[0].items| == |Nest(segs)|
    ensures forall i :: 0 <= i < |stack[0].items| ==> CellFreezes(stack, segs, stack[0].items[i], Nest(segs)[i])
  {
    assert TrimmedAt(stack, segs, 0);
  }

  // A scalar is itself; a reference is to the next list.
  ghost predicate CellFreezes(stack: seq<ItemList>, segs: seq<seq<Item>>, cell: Cell, x: Item)
    requires |stack| == |segs|
  {
    match cell
    case Scalar(y) => x == y
    case Ref(l) => |stack| > 1 && l == stack[1] && x == Lst(Nest(segs[1..]))
  }

  method FreezeCell(cell: Cell, ghost stack: seq<ItemList>, ghost segs: seq<seq<Item>>, ghost x: Item) returns (r: Item)
    requires Trimmed(stack, segs) && stack != [] && CellFreezes(stack, segs, cell, x)
    ensures r == x
    decreases |stack|, 0
  {
    match cell
    case Scalar(y) => r := y;
    case Ref(l) =>
      TrimmedTail(stack, segs);
      var frozen := Freeze(l, stack[1..], segs[1..]);
      r := Lst(frozen);
  }

  // Nested lists copied into a value.
  method Freeze(list: ItemList, ghost stack: seq<ItemList>, ghost segs: seq<seq<Item>>) returns (r: seq<Item>)
    requires Trimmed(stack, segs) && stack != [] && list == stack[0]
    ensures r == Nest(segs)
    decreases |stack|, 1
  {
    ghost var form := Nest(segs);
    FrozenShape(stack, segs);
    r := [];
    for i := 0 to |list.items|
      invariant r == form[..i]
    {
      var x := FreezeCell(list.items[i], stack, segs, form[i]);
      r := r + [x];
    }
  }

  /** The in-place parser computes the scanned spine, and rejects exactly the malformed texts. */
  method ParseMavenVersion(version: string) returns (r: Option<seq<Item>>)
    ensures r == Parse(version)
  {
    var value := Normalized(version);
    if !WellFormed(value) {
      return None;
    }
    var stack; ghost var segs;
    stack, segs := ScanIntoLists(value);
    TrimAll(stack, segs);
    var items := Freeze(stack[0], stack, segs);
    r := Some(items);
  }
}
