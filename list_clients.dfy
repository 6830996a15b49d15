/**
 * The uses the repository makes of the list (DataStructs.Tests/DoublyLinkedListTests.cs
 * and DataStructs.Demo/Program.cs), stated over the corrected collection of
 * module LinkedList. Each scenario allocates its own list, so none of them
 * changes anything its caller can see.
 */
module ListClients {
  import opened Wrappers
  import opened ListSpec
  import opened LinkedList

  /** The values of a list of `int`, as the tests build them. */
  function Ints(xs: seq<int>): (r: seq<Option<int>>)
    ensures |r| == |xs| && forall i :: 0 <= i < |xs| ==> r[i] == Some(xs[i])
  {
    seq(|xs|, i requires 0 <= i < |xs| => Some(xs[i]))
  }

  /** The collection initializer `new DoublyLinkedList<T> { v0, v1, ... }`: `Add` in order. */
  method FromValues<T>(values: seq<Option<T>>, cmp: (T, T) -> int) returns (list: DoublyLinkedList<T>)
    ensures fresh(list) && fresh(list.Nodes) && list.Valid()
    ensures list.Elements() == values && list.cmp == cmp
  {
    list := new DoublyLinkedList(cmp);
    for i := 0 to |values|
      invariant fresh(list) && fresh(list.Nodes) && list.Valid()
      invariant list.Elements() == values[..i] && list.cmp == cmp
    {
      list.Add(values[i]);
      assert values[..i + 1] == values[..i] + [values[i]];
    }
    assert values[..|values|] == values;
  }

  /** `Contains` of each item in turn. */
  method ContainsEach<T>(list: DoublyLinkedList<T>, items: seq<Option<T>>) returns (found: seq<bool>)
    requires list.Valid()
    ensures |found| == |items|
    ensures forall i :: 0 <= i < |items| ==> found[i] == Contained(list.Elements(), items[i], list.cmp)
  {
    found := [];
    for i := 0 to |items|
      invariant |found| == i
      invariant forall j :: 0 <= j < i ==> found[j] == Contained(list.Elements(), items[j], list.cmp)
    {
      var f := list.Contains(items[i]);
      found := found + [f];
    }
  }

  /** What `string.Join` over the list prints, and its `Count`. */
  method EnumerateAndCount<T>(list: DoublyLinkedList<T>) returns (r: seq<Option<T>>, n: int)
    requires list.Valid()
    ensures r == list.Elements() && n == |r|
  {
    var e := list.GetEnumerator();
    r := Drain(e);
    n := list.Count();
  }

  /**
   * `AddElementsToDlsTest` and `DlsEnumerateElementsTest`: after adding the
   * values in order, an enumeration yields them in that order.
   */
  method AddAllThenEnumerate<T>(values: seq<Option<T>>, cmp: (T, T) -> int) returns (r: seq<Option<T>>)
    ensures r == values
  {
    var list := FromValues(values, cmp);
    var e := list.GetEnumerator();
    r := Drain(e);
  }

  /** `EnumeratorResetTest`: draining, `Reset`, and draining again yields the values twice. */
  method EnumerateResetEnumerate<T>(values: seq<Option<T>>, cmp: (T, T) -> int) returns (r: seq<Option<T>>)
    ensures r == values + values
  {
    var list := FromValues(values, cmp);
    var e := list.GetEnumerator();
    var first := Drain(e);
    e.Reset();
    var second := Drain(e);
    r := first + second;
  }

  /** `DlsClearTest`: after `Clear` nothing is enumerated and `Count` is zero. */
  method ClearedIsEmpty<T>(values: seq<Option<T>>, cmp: (T, T) -> int) returns (r: seq<Option<T>>, n: int)
    ensures r == [] && n == 0
  {
    var list := FromValues(values, cmp);
    list.Clear();
    var e := list.GetEnumerator();
    r := Drain(e);
    n := list.Count();
  }

  /** `CollectionsReadonlyTest`: a list is never read-only. */
  method NeverReadOnly<T>(values: seq<Option<T>>, cmp: (T, T) -> int) returns (readOnly: bool)
    ensures !readOnly
  {
    var list := FromValues(values, cmp);
    readOnly := list.IsReadOnly();
  }

  /**
   * What `Remove(v)` leaves of a list of distinct `int`s: `v` is gone (for
   * `Contains` and for enumeration), the list is one shorter exactly when
   * `v` was there, and every other value is still there.
   */
  lemma RemovalFromDistinct(values: seq<int>, v: int, after: seq<Option<int>>)
    requires forall i, j :: 0 <= i < j < |values| ==> values[i] != values[j]
    requires match RemovalIndex(Ints(values), Some(v), IntCompare)
      case Some(k) => k < |values| && after == Without(Ints(values), k)
      case None => after == Ints(values)
    ensures !Contained(after, Some(v), IntCompare) && Some(v) !in after
    ensures |after| == if v in values then |values| - 1 else |values|
    ensures forall i :: 0 <= i < |values| && values[i] != v ==> Some(values[i]) in after
  {
    var elems := Ints(values);
    ContainedIffFirstMatch(elems, Some(v), IntCompare);
    ContainedIntIsMembership(after, v);
    match FirstMatch(elems, Some(v), IntCompare)
    case Some(k) =>
      assert values[k] == v;
      forall i | 0 <= i < |values| && values[i] != v
        ensures Some(values[i]) in after
      {
        if i < k { assert after[i] == elems[i]; } else { assert after[i - 1] == elems[i]; }
      }
      forall j | 0 <= j < |after|
        ensures after[j] != Some(v)
      {
        if j < k { assert after[j] == elems[j]; } else { assert after[j] == elems[j + 1]; }
      }
    case None =>
      forall j | 0 <= j < |values|
        ensures values[j] != v
      {
        assert !Matches(elems[j], Some(v), IntCompare);
      }
      forall i | 0 <= i < |values|
        ensures Some(values[i]) in after
      {
        assert after[i] == Some(values[i]);
      }
  }

  /**
   * `RemoveTest`: in a list of distinct `int`s, after `Remove(v)` the value
   * is neither found by `Contains` nor enumerated, the list is one shorter
   * exactly when `v` was there, and every other value is still enumerated.
   */
  method RemoveThenLookUp(values: seq<int>, v: int) returns (found: bool, r: seq<Option<int>>)
    requires forall i, j :: 0 <= i < j < |values| ==> values[i] != values[j]
    ensures !found && Some(v) !in r
    ensures |r| == if v in values then |values| - 1 else |values|
    ensures forall i :: 0 <= i < |values| && values[i] != v ==> Some(values[i]) in r
  {
    var list := FromValues(Ints(values), IntCompare);
    var removed := list.Remove(Some(v));
    RemovalFromDistinct(values, v, list.Elements());
    found := list.Contains(Some(v));
    var e := list.GetEnumerator();
    r := Drain(e);
  }

  /**
   * The `Contains` reading of `DlsContainsElementTest`: the list's own
   * `Contains` finds the first value added, whether it is a value that
   * compares equal to itself or null. The test's `Assert.Contains` searches
   * the enumeration instead; that side is `AddAllThenEnumerate`.
   */
  method ContainsFirstAdded<T>(values: seq<Option<T>>, cmp: (T, T) -> int) returns (found: bool)
    requires |values| > 0 && SelfEqual(values[0], cmp)
    ensures found
  {
    var list := FromValues(values, cmp);
    FirstAddedIsContained(values, cmp);
    found := list.Contains(values[0]);
  }

  /** Every non-null value added, when it compares equal to itself, is then found. */
  method ContainsEveryAdded<T>(values: seq<Option<T>>, cmp: (T, T) -> int) returns (found: seq<bool>)
    ensures |found| == |values|
    ensures forall i :: 0 <= i < |values| && values[i].Some? && SelfEqual(values[i], cmp) ==> found[i]
  {
    var list := FromValues(values, cmp);
    EachIsContained(values, cmp);
    found := ContainsEach(list, values);
  }

  /**
   * The corrected `Add` links a first node to nothing, so `Contains` on a
   * one-value list returns, and answers false for a value that is not there.
   */
  method SingletonContainsAbsent(x: int, y: int) returns (found: bool)
    requires x != y
    ensures !found
  {
    var list := FromValues([Some(x)], IntCompare);
    found := list.Contains(Some(y));
  }

  /**
   * The corrected `Remove` of the head value of 1, 2, 3, 4 leaves 2, 3, 4
   * and a count of 3 (that 1 is then not found is `RemoveThenLookUp`).
   */
  method RemoveHeadOfOneToFour() returns (removed: bool, r: seq<Option<int>>, n: int)
    ensures removed && r == [Some(2), Some(3), Some(4)] && n == 3
  {
    var list := FromValues([Some(1), Some(2), Some(3), Some(4)], IntCompare);
    ghost var before := list.Elements();
    FirstMatchAt(before, Some(1), IntCompare, 0);
    ContainedIffFirstMatch(before, Some(1), IntCompare);
    removed := list.Remove(Some(1));
    assert list.Elements() == [Some(2), Some(3), Some(4)];
    r, n := EnumerateAndCount(list);
  }

  /**
   * The corrected `Remove` of the tail value of 1, 2, 3, 4 moves `tail`
   * back, so a later `Add(5)` is enumerated and counted.
   */
  method RemoveTailThenAdd() returns (r: seq<Option<int>>, n: int)
    ensures r == [Some(1), Some(2), Some(3), Some(5)] && n == 4
  {
    var list := FromValues([Some(1), Some(2), Some(3), Some(4)], IntCompare);
    ghost var before := list.Elements();
    FirstMatchAt(before, Some(4), IntCompare, 3);
    ContainedIffFirstMatch(before, Some(4), IntCompare);
    var removed := list.Remove(Some(4));
    assert list.Elements() == [Some(1), Some(2), Some(3)];
    list.Add(Some(5));
    r, n := EnumerateAndCount(list);
  }

  /**
   * The session of DataStructs.Demo/Program.cs, first step: 1..5 with 4
   * removed enumerates 1, 2, 3, 5.
   */
  method DemoRemove() returns (afterRemove: seq<Option<int>>, n: int)
    ensures afterRemove == [Some(1), Some(2), Some(3), Some(5)] && n == 4
  {
    var list := FromValues([Some(1), Some(2), Some(3), Some(4), Some(5)], IntCompare);
    ghost var before := list.Elements();
    FirstMatchAt(before, Some(4), IntCompare, 3);
    ContainedIffFirstMatch(before, Some(4), IntCompare);
    var removed := list.Remove(Some(4));
    assert list.Elements() == [Some(1), Some(2), Some(3), Some(5)];
    afterRemove, n := EnumerateAndCount(list);
  }

  /**
   * Second step: adding 4 to that list puts it last, and the length printed
   * before clearing is 5.
   */
  method DemoAddBack() returns (afterAdd: seq<Option<int>>, lengthBeforeClear: int)
    ensures afterAdd == [Some(1), Some(2), Some(3), Some(5), Some(4)] && lengthBeforeClear == 5
  {
    var list := FromValues([Some(1), Some(2), Some(3), Some(5)], IntCompare);
    list.Add(Some(4));
    assert list.Elements() == [Some(1), Some(2), Some(3), Some(5), Some(4)];
    var e := list.GetEnumerator();
    afterAdd := Drain(e);
    lengthBeforeClear := list.Count();
  }

  /**
   * Third step: that list cleared has size 0, and refilled with 1, 2, 3 it
   * enumerates them.
   */
  method DemoClearThenRefill() returns (sizeAfterClear: int, refilled: seq<Option<int>>)
    ensures sizeAfterClear == 0
    ensures refilled == [Some(1), Some(2), Some(3)]
  {
    var list := FromValues([Some(1), Some(2), Some(3), Some(5), Some(4)], IntCompare);
    list.Clear();
    sizeAfterClear := list.Count();
    list.Add(Some(1));
    list.Add(Some(2));
    list.Add(Some(3));
    assert list.Elements() == [Some(1), Some(2), Some(3)];
    var e := list.GetEnumerator();
    refilled := Drain(e);
  }

  /** Last step: the refilled list contains 1, 2 and 3. */
  method DemoContains() returns (found: seq<bool>)
    ensures found == [true, true, true]
  {
    assert SelfEqual(Some(1), IntCompare) && SelfEqual(Some(2), IntCompare) && SelfEqual(Some(3), IntCompare);
    found := ContainsEveryAdded([Some(1), Some(2), Some(3)], IntCompare);
  }
}
