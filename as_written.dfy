/**
 * DataStructs/DoublyLinkedList.cs exactly as written, on an explicit heap of
 * nodes, so that its two defects can be exhibited:
 *
 *  - `Add` on an empty list has no `else`, so the first node's `Next` and
 *    `Prev` both point back at itself;
 *  - `Remove` rewires the neighbours but never moves `Head` or `Tail` nor
 *    decrements `Count`.
 *
 * Node n of the heap is `data[n]` with links `links[n]`; a reference is an
 * `Option<nat>` (None is null). The source's loops can run forever here, so
 * each scan takes a `fuel` bound and says whether it returned, was still
 * running when the fuel ran out, or dereferenced null.
 */
module AsWritten {
  import opened Wrappers
  import opened ListSpec

  datatype Links = Links(prev: Option<nat>, next: Option<nat>)

  /** The list object (`Head`, `Tail`, `Count`) together with every node allocated so far. */
  datatype Arena<T> = Arena(data: seq<Option<T>>, links: seq<Links>, head: Option<nat>, tail: Option<nat>, count: int)

  /** The outcome of running a loop of the source for at most some number of iterations. */
  datatype Run<R> = Returned(value: R) | StillRunning | NullDereference

  predicate InArena<T>(a: Arena<T>, r: Option<nat>)
  {
    r.Some? ==> r.value < |a.data|
  }

  /** Every reference points at an allocated node, and `Head` is null exactly when `Tail` is. */
  predicate WellFormed<T>(a: Arena<T>)
  {
    |a.links| == |a.data| && InArena(a, a.head) && InArena(a, a.tail) &&
    (a.head.None? <==> a.tail.None?) &&
    forall n :: 0 <= n < |a.links| ==> InArena(a, a.links[n].prev) && InArena(a, a.links[n].next)
  }

  /** A new list: no nodes, null ends, `Count` zero. */
  function Empty<T>(): (a: Arena<T>)
    ensures WellFormed(a) && a.head.None? && a.count == 0
  {
    Arena([], [], None, None, 0)
  }

  /**
   * `Add` as written: the new node is linked after `Tail` even when it has
   * just become `Head` and `Tail` itself.
   */
  function AddAsWritten<T>(a: Arena<T>, x: Option<T>): (r: Arena<T>)
    requires WellFormed(a)
    ensures WellFormed(r)
    ensures r.data == a.data + [x] && r.count == a.count + 1 && r.tail == Some(|a.data|)
    ensures a.head.None? ==> r.head == Some(|a.data|) && r.links[|a.data|] == Links(Some(|a.data|), Some(|a.data|))
    ensures a.head.Some? ==> r.head == a.head && r.links[|a.data|] == Links(a.tail, None)
    ensures a.head.Some? ==> r.links[a.tail.value].next == Some(|a.data|)
    ensures forall n :: 0 <= n < |a.data| && (a.head.None? || n != a.tail.value) ==> r.links[n] == a.links[n]
  {
    var t := |a.data|;
    var grown := a.(data := a.data + [x], links := a.links + [Links(None, None)]);
    var started := if grown.head.None? then grown.(head := Some(t), tail := Some(t)) else grown;
    var last := started.tail.value;
    var linked := started.(links := started.links[last := started.links[last].(next := Some(t))]);
    var back := linked.(links := linked.links[t := linked.links[t].(prev := Some(last))]);
    back.(tail := Some(t), count := a.count + 1)
  }

  /** The `while (temp?.Next != null)` loop of `Contains` and what follows it, from node `temp`. */
  function ContainsLoop<T>(a: Arena<T>, temp: nat, item: Option<T>, cmp: (T, T) -> int, fuel: nat): (r: Run<bool>)
    requires WellFormed(a) && temp < |a.data|
    ensures r != NullDereference
    ensures r == Returned(true) ==> exists n :: 0 <= n < |a.data| && Matches(a.data[n], item, cmp)
    decreases fuel
  {
    if a.links[temp].next.None? then Returned(Matches(a.data[temp], item, cmp))
    else if Matches(a.data[temp], item, cmp) then Returned(true)
    else if fuel == 0 then StillRunning
    else ContainsLoop(a, a.links[temp].next.value, item, cmp, fuel - 1)
  }

  /** `Contains` as written. */
  function ContainsAsWritten<T>(a: Arena<T>, item: Option<T>, cmp: (T, T) -> int, fuel: nat): (r: Run<bool>)
    requires WellFormed(a)
    ensures r != NullDereference
    ensures a.head.None? ==> r == Returned(false)
    ensures r == Returned(true) ==>
      (item.None? && a.data[a.head.value].None?) || exists n :: 0 <= n < |a.data| && Matches(a.data[n], item, cmp)
  {
    match a.head
    case None => Returned(false)
    case Some(h) =>
      if item.None? && a.data[h].None? then Returned(true) else ContainsLoop(a, h, item, cmp, fuel)
  }

  /** The `while (reqNode!.Next != null)` loop of `GetNode` and what follows it. */
  function GetNodeLoop<T>(a: Arena<T>, req: nat, item: Option<T>, cmp: (T, T) -> int, fuel: nat): (r: Run<Option<nat>>)
    requires WellFormed(a) && req < |a.data|
    ensures r.Returned? ==> InArena(a, r.value)
    ensures r.Returned? && r.value.Some? ==>
      Matches(a.data[r.value.value], item, cmp) || (item.None? && a.data[r.value.value].None?)
    ensures r == NullDereference ==> item.Some?
    decreases fuel
  {
    if a.links[req].next.None? then
      if a.data[req].None? && item.None? then Returned(Some(req))
      else if a.data[req].None? then NullDereference
      else Returned(if Matches(a.data[req], item, cmp) then Some(req) else None)
    else if Matches(a.data[req], item, cmp) then Returned(Some(req))
    else if fuel == 0 then StillRunning
    else GetNodeLoop(a, a.links[req].next.value, item, cmp, fuel - 1)
  }

  /** `GetNode` as written. */
  function GetNodeAsWritten<T>(a: Arena<T>, item: Option<T>, cmp: (T, T) -> int, fuel: nat): (r: Run<Option<nat>>)
    requires WellFormed(a)
    ensures r.Returned? ==> InArena(a, r.value)
    ensures r.Returned? && r.value.Some? ==>
      Matches(a.data[r.value.value], item, cmp) || (item.None? && a.data[r.value.value].None?)
    ensures r == NullDereference ==> item.Some?
  {
    match a.head
    case None => Returned(None)
    case Some(h) => GetNodeLoop(a, h, item, cmp, fuel)
  }

  /**
   * The relinking of `Remove` as written: the predecessor's `Next` and the
   * successor's `Prev` are rewired, and nothing else changes.
   */
  function UnlinkAsWritten<T>(a: Arena<T>, n: nat): (r: Arena<T>)
    requires WellFormed(a) && n < |a.data|
    ensures WellFormed(r)
    ensures r.data == a.data && r.head == a.head && r.tail == a.tail && r.count == a.count
  {
    var p := a.links[n].prev;
    var q := a.links[n].next;
    var relinked := if p.Some? then a.(links := a.links[p.value := a.links[p.value].(next := q)]) else a;
    if q.Some? then relinked.(links := relinked.links[q.value := relinked.links[q.value].(prev := p)]) else relinked
  }

  /** `Remove` as written: `Contains`, then `GetNode`, then the relinking. */
  function RemoveAsWritten<T>(a: Arena<T>, item: Option<T>, cmp: (T, T) -> int, fuel: nat): (r: Run<(bool, Arena<T>)>)
    requires WellFormed(a)
    ensures r == NullDereference ==> item.Some?
    ensures r.Returned? ==> WellFormed(r.value.1)
    ensures r.Returned? && !r.value.0 ==> r.value.1 == a
    ensures r.Returned? ==>
      r.value.1.data == a.data && r.value.1.head == a.head && r.value.1.tail == a.tail && r.value.1.count == a.count
  {
    match ContainsAsWritten(a, item, cmp, fuel)
    case StillRunning => StillRunning
    case NullDereference => NullDereference
    case Returned(found) =>
      if !found then Returned((false, a))
      else match GetNodeAsWritten(a, item, cmp, fuel)
        case StillRunning => StillRunning
        case NullDereference => NullDereference
        case Returned(node) =>
          if node.None? then Returned((false, a)) else Returned((true, UnlinkAsWritten(a, node.value)))
  }

  /**
   * Where the `Contains` loop answers true for a non-null item, the `GetNode`
   * loop, walking the same nodes on the same fuel, returns a node.
   */
  lemma {:induction false} LoopsAgree<T>(a: Arena<T>, n: nat, item: Option<T>, cmp: (T, T) -> int, fuel: nat)
    requires WellFormed(a) && n < |a.data| && item.Some?
    requires ContainsLoop(a, n, item, cmp, fuel) == Returned(true)
    ensures GetNodeLoop(a, n, item, cmp, fuel).Returned? && GetNodeLoop(a, n, item, cmp, fuel).value.Some?
    decreases fuel
  {
    if a.links[n].next.Some? && !Matches(a.data[n], item, cmp) && fuel > 0 {
      LoopsAgree(a, a.links[n].next.value, item, cmp, fuel - 1);
    }
  }

  /**
   * `Remove` as written never dereferences null: `GetNode` runs only after
   * `Contains` answered true, and then finds its node before line 173.
   */
  lemma RemoveAsWrittenNeverThrows<T>(a: Arena<T>, item: Option<T>, cmp: (T, T) -> int, fuel: nat)
    requires WellFormed(a)
    ensures RemoveAsWritten(a, item, cmp, fuel) != NullDereference
  {
    if item.Some? && ContainsAsWritten(a, item, cmp, fuel) == Returned(true) {
      LoopsAgree(a, a.head.value, item, cmp, fuel);
    }
  }

  /**
   * Repeated `MoveNext` from `cursor`: each step publishes the cursor's value
   * and moves to `Next`, stopping at null or on returning to `Head`.
   */
  function WalkAsWritten<T>(a: Arena<T>, cursor: Option<nat>, fuel: nat): (r: Run<seq<Option<T>>>)
    requires WellFormed(a) && InArena(a, cursor)
    ensures r != NullDereference
    ensures r.Returned? ==> |r.value| <= fuel && forall i :: 0 <= i < |r.value| ==> r.value[i] in a.data
    decreases fuel
  {
    if cursor.None? then Returned([])
    else if fuel == 0 then StillRunning
    else
      var next := a.links[cursor.value].next;
      match WalkAsWritten(a, if next == a.head then None else next, fuel - 1)
      case Returned(rest) => Returned([a.data[cursor.value]] + rest)
      case StillRunning => StillRunning
      case NullDereference => NullDereference
  }

  /** A fresh enumerator drained by `MoveNext`: the values `string.Join` or `foreach` sees. */
  function EnumerateAsWritten<T>(a: Arena<T>, fuel: nat): (r: Run<seq<Option<T>>>)
    requires WellFormed(a)
    ensures r != NullDereference
    ensures a.head.None? ==> r == Returned([])
    ensures r.Returned? ==> |r.value| <= fuel && forall i :: 0 <= i < |r.value| ==> r.value[i] in a.data
  {
    WalkAsWritten(a, a.head, fuel)
  }

  /** 1, 2, 3, 4 added in order to a new list, as the source's `RemoveTest` builds it. */
  function OneToFourAsWritten(): (a: Arena<int>)
    ensures WellFormed(a)
  {
    AddAsWritten(AddAsWritten(AddAsWritten(AddAsWritten(Empty(), Some(1)), Some(2)), Some(3)), Some(4))
  }

  /** The nodes of `OneToFourAsWritten`: a chain, except that the head's `Prev` is the head. */
  function OneToFourLinked(): (a: Arena<int>)
    ensures WellFormed(a)
  {
    Arena([Some(1), Some(2), Some(3), Some(4)],
          [Links(Some(0), Some(1)), Links(Some(0), Some(2)), Links(Some(1), Some(3)), Links(Some(2), None)],
          Some(0), Some(3), 4)
  }

  /** The arena after adding 1, 2 and then 3 to a new list. */
  lemma OneToThreeLinks()
    ensures AddAsWritten(AddAsWritten(AddAsWritten(Empty(), Some(1)), Some(2)), Some(3)) ==
      Arena([Some(1), Some(2), Some(3)],
            [Links(Some(0), Some(1)), Links(Some(0), Some(2)), Links(Some(1), None)], Some(0), Some(2), 3)
  {
    var a1 := AddAsWritten(Empty(), Some(1));
    assert a1 == Arena([Some(1)], [Links(Some(0), Some(0))], Some(0), Some(0), 1);
    assert AddAsWritten(a1, Some(2)) ==
      Arena([Some(1), Some(2)], [Links(Some(0), Some(1)), Links(Some(0), None)], Some(0), Some(1), 2);
  }

  lemma OneToFourLinks()
    ensures OneToFourAsWritten() == OneToFourLinked()
  {
    OneToThreeLinks();
  }

  /** A self-linked node that does not match keeps the `Contains` loop where it is, for ever. */
  lemma {:induction false} ContainsStaysAtSelfLink<T>(a: Arena<T>, n: nat, item: Option<T>, cmp: (T, T) -> int, fuel: nat)
    requires WellFormed(a) && n < |a.data| && a.links[n].next == Some(n)
    requires !Matches(a.data[n], item, cmp)
    ensures ContainsLoop(a, n, item, cmp, fuel) == StillRunning
    decreases fuel
  {
    if fuel > 0 {
      ContainsStaysAtSelfLink(a, n, item, cmp, fuel - 1);
    }
  }

  /** The same for the loop of `GetNode`. */
  lemma {:induction false} GetNodeStaysAtSelfLink<T>(a: Arena<T>, n: nat, item: Option<T>, cmp: (T, T) -> int, fuel: nat)
    requires WellFormed(a) && n < |a.data| && a.links[n].next == Some(n)
    requires !Matches(a.data[n], item, cmp)
    ensures GetNodeLoop(a, n, item, cmp, fuel) == StillRunning
    decreases fuel
  {
    if fuel > 0 {
      GetNodeStaysAtSelfLink(a, n, item, cmp, fuel - 1);
    }
  }

  /**
   * On a list holding one value, `Contains` of anything that value does not
   * match never returns, however long it runs (unless both are null, which
   * the head test answers before the loop).
   */
  lemma SingletonContainsDiverges<T>(x: Option<T>, item: Option<T>, cmp: (T, T) -> int, fuel: nat)
    requires !Matches(x, item, cmp) && !(item.None? && x.None?)
    ensures ContainsAsWritten(AddAsWritten(Empty(), x), item, cmp, fuel) == StillRunning
  {
    var a := AddAsWritten(Empty(), x);
    ContainsStaysAtSelfLink(a, 0, item, cmp, fuel);
  }

  /**
   * Enumeration survives the self-link only because `MoveNext` treats a
   * return to `Head` as the end: a one-value list enumerates that value once.
   */
  lemma SingletonEnumeratesOnce<T>(x: Option<T>, fuel: nat)
    requires fuel >= 1
    ensures EnumerateAsWritten(AddAsWritten(Empty(), x), fuel) == Returned([x])
  {
    var a := AddAsWritten(Empty(), x);
    assert WalkAsWritten(a, None, fuel - 1) == Returned([]);
    WalkStep(a, 0, fuel, [], [x]);
  }

  /**
   * `GetNode` has no head test, so on a one-value list it never returns for
   * an item that value does not match, both null included; hence neither does
   * `Remove`, whether its `Contains` spun (the case above) or answered true
   * at the head test (both null).
   */
  lemma SingletonRemoveDiverges<T>(x: Option<T>, item: Option<T>, cmp: (T, T) -> int, fuel: nat)
    requires !Matches(x, item, cmp)
    ensures RemoveAsWritten(AddAsWritten(Empty(), x), item, cmp, fuel) == StillRunning
    ensures GetNodeAsWritten(AddAsWritten(Empty(), x), item, cmp, fuel) == StillRunning
  {
    var a := AddAsWritten(Empty(), x);
    if !(item.None? && x.None?) {
      SingletonContainsDiverges(x, item, cmp, fuel);
    }
    GetNodeStaysAtSelfLink(a, 0, item, cmp, fuel);
  }

  /** One `MoveNext` of a walk: publish the cursor's value, then walk on from its successor. */
  lemma WalkStep<T>(a: Arena<T>, c: nat, fuel: nat, rest: seq<Option<T>>, all: seq<Option<T>>)
    requires WellFormed(a) && c < |a.data| && fuel > 0
    requires WalkAsWritten(a, if a.links[c].next == a.head then None else a.links[c].next, fuel - 1) == Returned(rest)
    requires all == [a.data[c]] + rest
    ensures WalkAsWritten(a, Some(c), fuel) == Returned(all)
  {
  }

  /** `OneToFourLinked` enumerates 1, 2, 3, 4: the walk reaches the null after the tail. */
  lemma OneToFourEnumerates()
    ensures EnumerateAsWritten(OneToFourLinked(), 5) == Returned([Some(1), Some(2), Some(3), Some(4)])
  {
    var a := OneToFourLinked();
    WalkStep(a, 3, 2, [], [Some(4)]);
    WalkStep(a, 2, 3, [Some(4)], [Some(3), Some(4)]);
    WalkStep(a, 1, 4, [Some(3), Some(4)], [Some(2), Some(3), Some(4)]);
    WalkStep(a, 0, 5, [Some(2), Some(3), Some(4)], [Some(1), Some(2), Some(3), Some(4)]);
  }

  /**
   * The head's `Prev` points at the head itself, so removing the head value
   * of 1, 2, 3, 4 rewires nothing: `Remove` answers true, the list is exactly
   * as before, still enumerates 1, 2, 3, 4 and still contains 1.
   */
  lemma RemoveHeadAsWrittenIsNoOp()
    ensures
      var a := OneToFourAsWritten();
      RemoveAsWritten(a, Some(1), IntCompare, 4) == Returned((true, a)) &&
      EnumerateAsWritten(a, 5) == Returned([Some(1), Some(2), Some(3), Some(4)]) &&
      ContainsAsWritten(a, Some(1), IntCompare, 4) == Returned(true)
  {
    OneToFourLinks();
    OneToFourEnumerates();
    var a := OneToFourLinked();
    assert ContainsAsWritten(a, Some(1), IntCompare, 4) == Returned(true);
    assert GetNodeAsWritten(a, Some(1), IntCompare, 4) == Returned(Some(0));
    assert a.links[0 := a.links[0].(next := Some(1))] == a.links;
    assert a.links[1 := a.links[1].(prev := Some(0))] == a.links;
    assert UnlinkAsWritten(a, 0) == a;
  }

  /** Removing 4 from `OneToFourLinked` as written clears the `Next` of node 2 and nothing else. */
  lemma OneToFourRemoveTail()
    ensures RemoveAsWritten(OneToFourLinked(), Some(4), IntCompare, 4) ==
      Returned((true, OneToFourLinked().(links := OneToFourLinked().links[2 := Links(Some(1), None)])))
  {
    var a := OneToFourLinked();
    assert ContainsLoop(a, 3, Some(4), IntCompare, 1) == Returned(true);
    assert ContainsLoop(a, 2, Some(4), IntCompare, 2) == Returned(true);
    assert ContainsLoop(a, 1, Some(4), IntCompare, 3) == Returned(true);
    assert ContainsAsWritten(a, Some(4), IntCompare, 4) == Returned(true);
    assert GetNodeLoop(a, 3, Some(4), IntCompare, 1) == Returned(Some(3));
    assert GetNodeLoop(a, 2, Some(4), IntCompare, 2) == Returned(Some(3));
    assert GetNodeLoop(a, 1, Some(4), IntCompare, 3) == Returned(Some(3));
    assert GetNodeAsWritten(a, Some(4), IntCompare, 4) == Returned(Some(3));
  }

  /** The values added in order to a new list, as written. */
  function Build<T>(vs: seq<Option<T>>): (a: Arena<T>)
    ensures WellFormed(a) && a.data == vs && a.count == |vs|
  {
    if vs == [] then Empty() else AddAsWritten(Build(vs[..|vs| - 1]), vs[|vs| - 1])
  }

  /**
   * The arena `Build(vs)` produces: node i holds `vs[i]`, `Prev` and `Next`
   * point at the neighbours, except that the head's `Prev` is the head and,
   * for a single node, so is its `Next`.
   */
  ghost predicate Shape<T>(a: Arena<T>, vs: seq<Option<T>>)
  {
    a.data == vs && |a.links| == |vs| && a.count == |vs| &&
    (vs == [] ==> a.head.None? && a.tail.None?) &&
    (vs != [] ==>
      a.head == Some(0) && a.tail == Some(|vs| - 1) && a.links[0].prev == Some(0) &&
      (forall i :: 0 < i < |vs| ==> a.links[i].prev == Some(i - 1)) &&
      (forall i :: 0 <= i < |vs| - 1 ==> a.links[i].next == Some(i + 1)) &&
      a.links[|vs| - 1].next == if |vs| == 1 then Some(0) else None)
  }

  lemma {:induction false} BuildShape<T>(vs: seq<Option<T>>)
    ensures Shape(Build(vs), vs)
    decreases |vs|
  {
    if vs != [] {
      BuildShape(vs[..|vs| - 1]);
    }
  }

  /** From node i of such an arena, the walk publishes `vs[i..]` and stops. */
  lemma {:induction false} WalkBuilt<T>(a: Arena<T>, vs: seq<Option<T>>, i: nat, fuel: nat)
    requires WellFormed(a) && Shape(a, vs) && i < |vs| && fuel >= |vs| - i
    ensures WalkAsWritten(a, Some(i), fuel) == Returned(vs[i..])
    decreases |vs| - i
  {
    var next := if a.links[i].next == a.head then None else a.links[i].next;
    if i == |vs| - 1 {
      assert next == None;
      assert vs[i..] == [vs[i]];
      WalkStep(a, i, fuel, [], vs[i..]);
    } else {
      assert next == Some(i + 1);
      WalkBuilt(a, vs, i + 1, fuel - 1);
      assert vs[i..] == [vs[i]] + vs[i + 1..];
      WalkStep(a, i, fuel, vs[i + 1..], vs[i..]);
    }
  }

  /**
   * However many values are added, an enumeration yields them in order: the
   * head test of `MoveNext` stops the one-node walk, and the null after the
   * tail every longer one.
   */
  lemma BuiltEnumerates<T>(vs: seq<Option<T>>, fuel: nat)
    requires fuel >= |vs|
    ensures EnumerateAsWritten(Build(vs), fuel) == Returned(vs)
  {
    BuildShape(vs);
    if vs != [] {
      WalkBuilt(Build(vs), vs, 0, fuel);
      assert vs[0..] == vs;
    }
  }

  /** On two or more nodes, the `Contains` loop from node i answers whether some later node matches. */
  lemma {:induction false} ContainsLoopBuilt<T>(a: Arena<T>, vs: seq<Option<T>>, i: nat, item: Option<T>, cmp: (T, T) -> int, fuel: nat)
    requires WellFormed(a) && Shape(a, vs) && |vs| >= 2 && i < |vs| && fuel >= |vs| - 1 - i
    ensures ContainsLoop(a, i, item, cmp, fuel) == Returned(exists j :: i <= j < |vs| && Matches(vs[j], item, cmp))
    decreases |vs| - i
  {
    if i < |vs| - 1 && !Matches(vs[i], item, cmp) {
      ContainsLoopBuilt(a, vs, i + 1, item, cmp, fuel - 1);
      assert (exists j :: i <= j < |vs| && Matches(vs[j], item, cmp)) ==
        (exists j :: i + 1 <= j < |vs| && Matches(vs[j], item, cmp));
    }
  }

  /**
   * On every list of two or more values built by `Add`, `Contains` as written
   * answers exactly what the corrected list answers.
   */
  lemma BuiltContains<T>(vs: seq<Option<T>>, item: Option<T>, cmp: (T, T) -> int, fuel: nat)
    requires |vs| >= 2 && fuel >= |vs|
    ensures ContainsAsWritten(Build(vs), item, cmp, fuel) == Returned(Contained(vs, item, cmp))
  {
    BuildShape(vs);
    ContainsLoopBuilt(Build(vs), vs, 0, item, cmp, fuel);
  }

  /** `OneToFourLinked` after `Remove(4)` as written: node 2's `Next` is cleared. */
  function OneToFourTailUnlinked(): (a: Arena<int>)
    ensures WellFormed(a)
  {
    Arena([Some(1), Some(2), Some(3), Some(4)],
          [Links(Some(0), Some(1)), Links(Some(0), Some(2)), Links(Some(1), None), Links(Some(2), None)],
          Some(0), Some(3), 4)
  }

  /** `Add(5)` after that hangs the new node off the stale `Tail`, node 3. */
  lemma StrandedAddLinks()
    ensures AddAsWritten(OneToFourTailUnlinked(), Some(5)) ==
      Arena([Some(1), Some(2), Some(3), Some(4), Some(5)],
        [Links(Some(0), Some(1)), Links(Some(0), Some(2)), Links(Some(1), None), Links(Some(2), Some(4)), Links(Some(3), None)],
        Some(0), Some(4), 5)
  {
  }

  /** The walk from the head of that arena stops at node 2, before the stranded nodes. */
  lemma StrandedEnumerates()
    ensures EnumerateAsWritten(AddAsWritten(OneToFourTailUnlinked(), Some(5)), 6) == Returned([Some(1), Some(2), Some(3)])
  {
    StrandedAddLinks();
    var b := AddAsWritten(OneToFourTailUnlinked(), Some(5));
    WalkStep(b, 2, 4, [], [Some(3)]);
    WalkStep(b, 1, 5, [Some(3)], [Some(2), Some(3)]);
    WalkStep(b, 0, 6, [Some(2), Some(3)], [Some(1), Some(2), Some(3)]);
  }

  /**
   * Removing the tail value 4 of 1, 2, 3, 4 leaves `Tail` on the unlinked
   * node, so a later `Add(5)` hangs 5 off that node, out of reach: the list
   * enumerates 1, 2, 3 while `Count` is 5.
   */
  lemma RemoveTailAsWrittenStrandsLaterAdd()
    ensures
      var removed := RemoveAsWritten(OneToFourAsWritten(), Some(4), IntCompare, 4);
      removed.Returned? && removed.value.0 &&
      var b := AddAsWritten(removed.value.1, Some(5));
      EnumerateAsWritten(b, 6) == Returned([Some(1), Some(2), Some(3)]) && b.count == 5
  {
    OneToFourLinks();
    OneToFourRemoveTail();
    assert OneToFourLinked().(links := OneToFourLinked().links[2 := Links(Some(1), None)]) == OneToFourTailUnlinked();
    StrandedEnumerates();
  }
}
