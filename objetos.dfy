/** The list utilities of the Boost.Python module `objetos`: `get_int_list`
    keeps the elements of a Python list that convert to a C `int`, and
    `flatten_2D_list` concatenates the inner lists of a list of lists. Python
    lists are modelled as sequences of object values; both functions only read
    their argument and build a new list. */
module Objetos {

  /** The Python objects the lists hold. */
  datatype Obj =
    | Int(n: int)
    | Bool(b: bool)
    | Float(r: real)
    | Complex(re: real, im: real)
    | Str(s: string)
    | List(items: seq<Obj>)
    | Other(className: string)

  /** What `bp::extract<int>(o)` makes of an object: `check()` fails
      (NotConvertible), or it succeeds and the conversion gives a value, or it
      succeeds and the conversion itself raises (OverflowError for a Python
      int outside the range of a C int). */
  datatype IntConversion = Converted(v: int) | NotConvertible | Overflow

  /** The values `getIntList` appends, in order: the converted elements. */
  function IntsOf(l: seq<Obj>, extractInt: Obj -> IntConversion): seq<int> {
    if |l| == 0 then []
    else
      var prefix := IntsOf(l[..|l| - 1], extractInt);
      match extractInt(l[|l| - 1])
      case Converted(v) => prefix + [v]
      case _ => prefix
  }

  /** The positions of the elements the extractor accepts, in increasing
      order. */
  function AcceptedPositions(l: seq<Obj>, extractInt: Obj -> IntConversion): seq<nat> {
    if |l| == 0 then []
    else
      var prefix := AcceptedPositions(l[..|l| - 1], extractInt);
      if extractInt(l[|l| - 1]).Converted? then prefix + [|l| - 1] else prefix
  }

  /** The result of `getIntList` is the input's accepted elements in their
      original order: position k of the result is the converted element at
      the k-th accepted position, the positions strictly increase, and a
      position is listed exactly when its element is accepted. */
  lemma {:induction false} IntsOfIsOrderedSubsequence(l: seq<Obj>, extractInt: Obj -> IntConversion)
    ensures |AcceptedPositions(l, extractInt)| == |IntsOf(l, extractInt)|
    ensures forall k :: 0 <= k < |AcceptedPositions(l, extractInt)| ==>
              AcceptedPositions(l, extractInt)[k] < |l| &&
              extractInt(l[AcceptedPositions(l, extractInt)[k]]) == Converted(IntsOf(l, extractInt)[k])
    ensures forall k, m :: 0 <= k < m < |AcceptedPositions(l, extractInt)| ==>
              AcceptedPositions(l, extractInt)[k] < AcceptedPositions(l, extractInt)[m]
    ensures forall i :: 0 <= i < |l| ==> (i in AcceptedPositions(l, extractInt) <==> extractInt(l[i]).Converted?)
  {
    if |l| > 0 {
      var init := l[..|l| - 1];
      IntsOfIsOrderedSubsequence(init, extractInt);
      assert forall i :: 0 <= i < |init| ==> l[i] == init[i];
    }
  }

  /** The result is never longer than the input, and it is exactly as long
      when every element is accepted. */
  lemma {:induction false} IntsOfLength(l: seq<Obj>, extractInt: Obj -> IntConversion)
    ensures |IntsOf(l, extractInt)| <= |l|
    ensures |IntsOf(l, extractInt)| == |l| <==> forall i :: 0 <= i < |l| ==> extractInt(l[i]).Converted?
  {
    if |l| > 0 {
      var init := l[..|l| - 1];
      IntsOfLength(init, extractInt);
      assert forall i :: 0 <= i < |init| ==> l[i] == init[i];
    }
  }

  /** Filtering distributes over concatenation: the two halves of a list are
      filtered independently. */
  lemma {:induction false} IntsOfAppend(a: seq<Obj>, b: seq<Obj>, extractInt: Obj -> IntConversion)
    ensures IntsOf(a + b, extractInt) == IntsOf(a, extractInt) + IntsOf(b, extractInt)
  {
    if |b| > 0 {
      assert (a + b)[..|a + b| - 1] == a + b[..|b| - 1];
      IntsOfAppend(a, b[..|b| - 1], extractInt);
    } else {
      assert a + b == a;
    }
  }

  /** No element makes the conversion raise. */
  predicate NoOverflow(l: seq<Obj>, extractInt: Obj -> IntConversion) {
    forall i :: 0 <= i < |l| ==> extractInt(l[i]) != Overflow
  }

  /** The outcome of `getIntList`: the new list, or the OverflowError raised
      while converting the element at `index`. */
  datatype IntListResult = IntList(values: seq<int>) | OverflowAt(index: nat)

  /** `getIntList(l)`: walk the list and append every element the int
      extractor accepts; a conversion that raises aborts the walk. */
  method GetIntList(l: seq<Obj>, extractInt: Obj -> IntConversion) returns (r: IntListResult)
    ensures NoOverflow(l, extractInt) ==> r == IntList(IntsOf(l, extractInt))
    ensures !NoOverflow(l, extractInt) ==>
              r.OverflowAt? && r.index < |l| && extractInt(l[r.index]) == Overflow &&
              NoOverflow(l[..r.index], extractInt)
  {
    var intList := [];
    var length := |l|;
    var i := 0;
    while i < length
      invariant 0 <= i <= length
      invariant NoOverflow(l[..i], extractInt)
      invariant intList == IntsOf(l[..i], extractInt)
    {
      assert l[..i + 1][..i] == l[..i];
      var intExtractor := extractInt(l[i]);
      if intExtractor.Overflow? {
        return OverflowAt(i);
      }
      if intExtractor.Converted? {
        intList := intList + [intExtractor.v];
      }
      i := i + 1;
    }
    assert l[..i] == l;
    r := IntList(intList);
  }

  /** The in-order concatenation of a list of lists. */
  function Concat<T>(ls: seq<seq<T>>): seq<T> {
    if |ls| == 0 then [] else Concat(ls[..|ls| - 1]) + ls[|ls| - 1]
  }

  /** The sum of the lengths of the lists. */
  function SumLengths<T>(ls: seq<seq<T>>): nat {
    if |ls| == 0 then 0 else SumLengths(ls[..|ls| - 1]) + |ls[|ls| - 1]|
  }

  /** The concatenation is as long as all the inner lists together. */
  lemma {:induction false} ConcatLength<T>(ls: seq<seq<T>>)
    ensures |Concat(ls)| == SumLengths(ls)
  {
    if |ls| > 0 {
      ConcatLength(ls[..|ls| - 1]);
    }
  }

  /** The lengths of the first i lists, summed, are at most the total. */
  lemma {:induction false} SumLengthsPrefix<T>(ls: seq<seq<T>>, i: nat)
    requires i <= |ls|
    ensures SumLengths(ls[..i]) <= SumLengths(ls)
    ensures i < |ls| ==> SumLengths(ls[..i]) + |ls[i]| <= SumLengths(ls)
    decreases |ls|
  {
    if i < |ls| {
      var init := ls[..|ls| - 1];
      if i < |ls| - 1 {
        SumLengthsPrefix(init, i);
        assert init[..i] == ls[..i] && init[i] == ls[i];
      } else {
        assert ls[..i] == init;
      }
    } else {
      assert ls[..i] == ls;
    }
  }

  /** Element j of inner list i lands at offset (sum of the lengths of the
      earlier lists) + j. */
  lemma {:induction false} ConcatAt<T>(ls: seq<seq<T>>, i: nat, j: nat)
    requires i < |ls| && j < |ls[i]|
    ensures SumLengths(ls[..i]) + j < |Concat(ls)|
    ensures Concat(ls)[SumLengths(ls[..i]) + j] == ls[i][j]
    decreases |ls|
  {
    var init := ls[..|ls| - 1];
    ConcatLength(ls);
    SumLengthsPrefix(ls, i);
    ConcatLength(init);
    if i < |ls| - 1 {
      ConcatAt(init, i, j);
      assert init[..i] == ls[..i] && init[i] == ls[i];
    } else {
      assert ls[..i] == init;
    }
  }

  /** Concatenating no lists, or only empty ones, gives the empty list. */
  lemma {:induction false} ConcatOfEmpties<T>(ls: seq<seq<T>>)
    requires forall i :: 0 <= i < |ls| ==> ls[i] == []
    ensures Concat(ls) == []
  {
    if |ls| > 0 {
      ConcatOfEmpties(ls[..|ls| - 1]);
    }
  }

  /** The outcome of `flatten2DList`: the new list, or the extraction error
      Boost.Python raises at the first outer element that is not a list. */
  datatype Flattened = Flattened(items: seq<Obj>) | NotAList(index: nat)

  predicate AllLists(l: seq<Obj>) {
    forall i :: 0 <= i < |l| ==> l[i].List?
  }

  /** The inner lists of a list of lists. */
  function InnerLists(l: seq<Obj>): (ls: seq<seq<Obj>>)
    requires AllLists(l)
    ensures |ls| == |l| && forall i :: 0 <= i < |l| ==> ls[i] == l[i].items
  {
    seq(|l|, i requires 0 <= i < |l| => l[i].items)
  }

  /** The inner lists of a prefix are the prefix of the inner lists. */
  lemma InnerListsSnoc(l: seq<Obj>, i: nat)
    requires i < |l| && AllLists(l[..i + 1])
    ensures AllLists(l[..i])
    ensures InnerLists(l[..i + 1]) == InnerLists(l[..i]) + [l[i].items]
  {
    assert forall k :: 0 <= k < i ==> l[..i][k] == l[..i + 1][k];
  }

  /** The inner loop for one outer element: append the items of the inner
      list one by one. */
  method AppendInner(flattenedList: seq<Obj>, innerList: seq<Obj>) returns (appended: seq<Obj>)
    ensures appended == flattenedList + innerList
  {
    appended := flattenedList;
    var innerLength := |innerList|;
    var j := 0;
    while j < innerLength
      invariant 0 <= j <= innerLength
      invariant appended == flattenedList + innerList[..j]
    {
      assert innerList[..j + 1] == innerList[..j] + [innerList[j]];
      appended := appended + [innerList[j]];
      j := j + 1;
    }
    assert innerList[..j] == innerList;
  }

  /** `flatten2DList(l)`: when every outer element is a list, the in-order
      concatenation of the inner lists; otherwise the extraction fails at the
      first element that is not a list. */
  method Flatten2DList(l: seq<Obj>) returns (r: Flattened)
    ensures AllLists(l) ==> r == Flattened(Concat(InnerLists(l)))
    ensures !AllLists(l) ==> r.NotAList? && r.index < |l| && !l[r.index].List? && AllLists(l[..r.index])
  {
    var length := |l|;
    var flattenedList := [];
    var i := 0;
    while i < length
      invariant 0 <= i <= length
      invariant AllLists(l[..i])
      invariant flattenedList == Concat(InnerLists(l[..i]))
    {
      if !l[i].List? {
        return NotAList(i);
      }
      var innerList := l[i].items;
      InnerListsSnoc(l, i);
      flattenedList := AppendInner(flattenedList, innerList);
      i := i + 1;
    }
    assert l[..i] == l;
    r := Flattened(flattenedList);
  }
}
