/**
 * What the list's searches compute, stated on the sequence of stored values
 * (head first). The class in LinkedList is proved against these definitions.
 */
module ListSpec {
  import opened Wrappers

  /**
   * The source's equality test `data?.CompareTo(item) == 0`. A null stored
   * value never matches (the `?.` yields null, which is not 0), and a
   * non-null value does not match a null item: .NET orders every instance
   * after null, so `CompareTo(null)` is never 0.
   */
  function Matches<T>(data: Option<T>, item: Option<T>, cmp: (T, T) -> int): (r: bool)
    ensures data.None? ==> !r
    ensures item.None? ==> !r
  {
    data.Some? && item.Some? && cmp(data.value, item.value) == 0
  }

  /** The `IComparable` contract, for one value: it compares equal to itself. */
  predicate SelfEqual<T>(x: Option<T>, cmp: (T, T) -> int)
  {
    x.Some? ==> cmp(x.value, x.value) == 0
  }

  /** `Int32.CompareTo`: the comparator of the list of `int` the tests build. */
  function IntCompare(a: int, b: int): int
  {
    if a < b then -1 else if a == b then 0 else 1
  }

  /**
   * When `Contains(item)` answers true: the list is not empty, and either the
   * item is null and the HEAD holds null (the only place a null is looked
   * for), or some stored value matches the item.
   */
  ghost predicate Contained<T>(elems: seq<Option<T>>, item: Option<T>, cmp: (T, T) -> int)
  {
    |elems| > 0 &&
    ((item.None? && elems[0].None?) || exists i :: 0 <= i < |elems| && Matches(elems[i], item, cmp))
  }

  /** The index of the first stored value that matches the item, if any. */
  function FirstMatch<T>(elems: seq<Option<T>>, item: Option<T>, cmp: (T, T) -> int): (r: Option<nat>)
    ensures r.Some? ==> r.value < |elems| && Matches(elems[r.value], item, cmp)
    ensures r.Some? ==> forall j :: 0 <= j < r.value ==> !Matches(elems[j], item, cmp)
    ensures r.None? <==> forall j :: 0 <= j < |elems| ==> !Matches(elems[j], item, cmp)
  {
    if elems == [] then None
    else if Matches(elems[0], item, cmp) then Some(0)
    else match FirstMatch(elems[1..], item, cmp)
      case None => None
      case Some(k) => Some(k + 1)
  }

  /**
   * The one input on which `GetNode` dereferences null: no node matches a
   * non-null item and the scan ends on a tail that holds null, so
   * `reqNode.Data!.CompareTo(item)` throws.
   */
  ghost predicate GetNodeFaults<T>(elems: seq<Option<T>>, item: Option<T>, cmp: (T, T) -> int)
  {
    |elems| > 0 && item.Some? && elems[|elems| - 1].None? &&
    forall j :: 0 <= j < |elems| ==> !Matches(elems[j], item, cmp)
  }

  /**
   * The index of the node `GetNode(item)` returns. A non-null item is found
   * at its first match. A null item never matches inside the loop, so the
   * scan always reaches the tail, which is returned exactly when it holds null.
   */
  ghost function NodeIndex<T>(elems: seq<Option<T>>, item: Option<T>, cmp: (T, T) -> int): Option<nat>
  {
    if item.Some? then FirstMatch(elems, item, cmp)
    else if |elems| > 0 && elems[|elems| - 1].None? then Some(|elems| - 1)
    else None
  }

  /** The index of the node `Remove(item)` unlinks: `GetNode`'s, once `Contains` said yes. */
  ghost function RemovalIndex<T>(elems: seq<Option<T>>, item: Option<T>, cmp: (T, T) -> int): Option<nat>
  {
    if Contained(elems, item, cmp) then NodeIndex(elems, item, cmp) else None
  }

  /** The sequence without its k-th element. */
  function Without<X>(s: seq<X>, k: nat): (r: seq<X>)
    requires k < |s|
    ensures |r| == |s| - 1
    ensures forall j :: 0 <= j < k ==> r[j] == s[j]
    ensures forall j :: k <= j < |r| ==> r[j] == s[j + 1]
  {
    s[..k] + s[k + 1..]
  }

  /** An added non-null value is found again. */
  lemma AddedIsContained<T>(elems: seq<Option<T>>, x: Option<T>, cmp: (T, T) -> int)
    requires x.Some? && SelfEqual(x, cmp)
    ensures Contained(elems + [x], x, cmp)
  {
    assert Matches((elems + [x])[|elems|], x, cmp);
  }

  /** Every non-null value that compares equal to itself is found in the list holding it. */
  lemma EachIsContained<T>(elems: seq<Option<T>>, cmp: (T, T) -> int)
    ensures forall i :: 0 <= i < |elems| && elems[i].Some? && SelfEqual(elems[i], cmp) ==> Contained(elems, elems[i], cmp)
  {
    forall i | 0 <= i < |elems| && elems[i].Some? && SelfEqual(elems[i], cmp)
      ensures Contained(elems, elems[i], cmp)
    {
      assert Matches(elems[i], elems[i], cmp);
    }
  }

  /** The first value put into a list is found, whether it is null or not. */
  lemma FirstAddedIsContained<T>(elems: seq<Option<T>>, cmp: (T, T) -> int)
    requires |elems| > 0 && SelfEqual(elems[0], cmp)
    ensures Contained(elems, elems[0], cmp)
  {
    if elems[0].Some? {
      assert Matches(elems[0], elems[0], cmp);
    }
  }

  /** The first match is the matching index that no earlier value matches. */
  lemma FirstMatchAt<T>(elems: seq<Option<T>>, item: Option<T>, cmp: (T, T) -> int, k: nat)
    requires k < |elems| && Matches(elems[k], item, cmp)
    requires forall j :: 0 <= j < k ==> !Matches(elems[j], item, cmp)
    ensures FirstMatch(elems, item, cmp) == Some(k)
  {
    var r := FirstMatch(elems, item, cmp);
    assert r.Some?;
  }

  /** For a non-null item, `Contains` is true exactly when some value matches. */
  lemma ContainedIffFirstMatch<T>(elems: seq<Option<T>>, item: Option<T>, cmp: (T, T) -> int)
    requires item.Some?
    ensures Contained(elems, item, cmp) <==> FirstMatch(elems, item, cmp).Some?
    ensures RemovalIndex(elems, item, cmp) == FirstMatch(elems, item, cmp)
  {
    match FirstMatch(elems, item, cmp)
    case Some(k) =>
      assert Matches(elems[k], item, cmp);
    case None =>
  }

  /** Over `int`, `Contains` of a value is membership. */
  lemma ContainedIntIsMembership(elems: seq<Option<int>>, v: int)
    ensures Contained(elems, Some(v), IntCompare) <==> Some(v) in elems
  {
    if Some(v) in elems {
      var i :| 0 <= i < |elems| && elems[i] == Some(v);
      assert Matches(elems[i], Some(v), IntCompare);
    }
  }

  /**
   * `Remove(null)` unlinks a node only when both the head and the tail hold
   * null, and then it is the tail it unlinks.
   */
  lemma RemovalIndexOfNull<T>(elems: seq<Option<T>>, cmp: (T, T) -> int)
    ensures RemovalIndex(elems, None, cmp) ==
      if |elems| > 0 && elems[0].None? && elems[|elems| - 1].None? then Some(|elems| - 1) else None
  {
  }

  /** After `Contains` said yes, `GetNode` cannot reach its null dereference. */
  lemma ContainedDoesNotFault<T>(elems: seq<Option<T>>, item: Option<T>, cmp: (T, T) -> int)
    requires Contained(elems, item, cmp)
    ensures !GetNodeFaults(elems, item, cmp)
  {
  }

  /**
   * Removing the only occurrence of a non-null value leaves a list that
   * does not contain it.
   */
  lemma RemovedOnlyOccurrenceIsGone<T>(elems: seq<Option<T>>, item: Option<T>, cmp: (T, T) -> int, k: nat)
    requires item.Some? && RemovalIndex(elems, item, cmp) == Some(k)
    requires forall j :: 0 <= j < |elems| && j != k ==> !Matches(elems[j], item, cmp)
    ensures k < |elems| && !Contained(Without(elems, k), item, cmp)
  {
    ContainedIffFirstMatch(elems, item, cmp);
    var rest := Without(elems, k);
    forall j | 0 <= j < |rest| ensures !Matches(rest[j], item, cmp) {
      if j < k { assert rest[j] == elems[j]; } else { assert rest[j] == elems[j + 1]; }
    }
  }

  /** A value nothing matches is still absent after any removal. */
  lemma AbsentStaysAbsent<T>(elems: seq<Option<T>>, item: Option<T>, cmp: (T, T) -> int, k: nat)
    requires item.Some? && !Contained(elems, item, cmp) && k < |elems|
    ensures !Contained(Without(elems, k), item, cmp)
  {
    var rest := Without(elems, k);
    forall j | 0 <= j < |rest| ensures !Matches(rest[j], item, cmp) {
      if j < k { assert rest[j] == elems[j]; } else { assert rest[j] == elems[j + 1]; }
    }
  }
}
