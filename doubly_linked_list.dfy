/**
 * The collection of DataStructs/DoublyLinkedList.cs: a chain of `Node`s
 * reached from `head`, with a resettable enumerator.
 *
 * Two defects of the source are corrected here (each is modelled as written
 * in module AsWritten): `Add` on an empty list also runs the append branch
 * and links the first node to itself, and `Remove` never moves `head` or
 * `tail` nor decrements `count`.
 */
module LinkedList {
  import opened Wrappers
  import opened Nodes
  import opened ListSpec

  /** The stored values of a run of nodes, in order. */
  ghost function Values<T>(nodes: seq<Node<T>>): (r: seq<Option<T>>)
    ensures |r| == |nodes|
    ensures forall i :: 0 <= i < |nodes| ==> r[i] == nodes[i].data
  {
    seq(|nodes|, i requires 0 <= i < |nodes| => nodes[i].data)
  }

  /**
   * The nodes form an acyclic doubly-linked chain: all distinct, each `prev`
   * and `next` pointing at the neighbour, null at both ends.
   */
  ghost predicate Chain<T>(nodes: seq<Node<T>>)
    reads nodes
  {
    (forall i, j :: 0 <= i < j < |nodes| ==> nodes[i] != nodes[j]) &&
    (forall i {:trigger nodes[i].prev} :: 0 <= i < |nodes| ==> nodes[i].prev == if i == 0 then null else nodes[i - 1]) &&
    (forall i {:trigger nodes[i].next} :: 0 <= i < |nodes| ==> nodes[i].next == if i == |nodes| - 1 then null else nodes[i + 1])
  }

  /**
   * Unlinking node k keeps a chain: once its predecessor's `next` is its
   * successor and its successor's `prev` its predecessor, and every other
   * node (but k itself) is still linked as before, the rest is a chain.
   */
  lemma UnlinkKeepsChain<T>(nodes: seq<Node<T>>, k: nat)
    requires k < |nodes|
    requires forall i, j :: 0 <= i < j < |nodes| ==> nodes[i] != nodes[j]
    requires forall i {:trigger nodes[i].prev} :: 0 <= i < |nodes| && i != k && i != k + 1 ==>
      nodes[i].prev == if i == 0 then null else nodes[i - 1]
    requires forall i {:trigger nodes[i].next} :: 0 <= i < |nodes| && i != k && i != k - 1 ==>
      nodes[i].next == if i == |nodes| - 1 then null else nodes[i + 1]
    requires k > 0 ==> nodes[k - 1].next == if k == |nodes| - 1 then null else nodes[k + 1]
    requires k + 1 < |nodes| ==> nodes[k + 1].prev == if k == 0 then null else nodes[k - 1]
    ensures Chain(Without(nodes, k))
  {
    var rest := Without(nodes, k);
    forall i | 0 <= i < |rest|
      ensures rest[i].prev == if i == 0 then null else rest[i - 1]
      ensures rest[i].next == if i == |rest| - 1 then null else rest[i + 1]
    {
      if i < k {
        assert rest[i] == nodes[i];
        assert nodes[i].prev == if i == 0 then null else nodes[i - 1];
      } else {
        assert rest[i] == nodes[i + 1];
        assert nodes[i + 1].next == if i + 1 == |nodes| - 1 then null else nodes[i + 2];
      }
    }
  }

  /**
   * The link surgery of `Remove`: the predecessor's `next` takes the node's
   * successor and the successor's `prev` its predecessor. No other link
   * changes, and the node keeps its own links.
   */
  method Bypass<T>(node: Node<T>, ghost nodes: seq<Node<T>>, ghost k: nat)
    requires k < |nodes| && node == nodes[k] && Chain(nodes)
    modifies nodes
    ensures Chain(Without(nodes, k))
    ensures forall j :: 0 <= j < |nodes| && j != k - 1 && j != k + 1 ==> unchanged(nodes[j])
    ensures node.prev == old(node.prev) && node.next == old(node.next)
  {
    assert node.prev == if k == 0 then null else nodes[k - 1];
    assert node.next == if k == |nodes| - 1 then null else nodes[k + 1];
    var prevNode := node.prev;
    var nextNode := node.next;
    if prevNode != null {
      prevNode.next := nextNode;
    }
    if nextNode != null {
      nextNode.prev := prevNode;
    }
    UnlinkKeepsChain(nodes, k);
  }

  /** `first` and `last` are the ends of the run, both null when it is empty. */
  predicate Ends<T>(nodes: seq<Node<T>>, first: Node?<T>, last: Node?<T>)
  {
    (nodes == [] ==> first == null && last == null) &&
    (nodes != [] ==> first == nodes[0] && last == nodes[|nodes| - 1])
  }

  /**
   * Unlinking node k of a chain moves an end onto the node's neighbour when
   * the node was that end, and leaves it alone otherwise.
   */
  lemma UnlinkMovesEnds<T>(nodes: seq<Node<T>>, k: nat, first: Node?<T>, last: Node?<T>)
    requires k < |nodes| && Ends(nodes, first, last)
    requires forall i, j :: 0 <= i < j < |nodes| ==> nodes[i] != nodes[j]
    ensures Ends(Without(nodes, k),
      if nodes[k] == first then (if k == |nodes| - 1 then null else nodes[k + 1]) else first,
      if nodes[k] == last then (if k == 0 then null else nodes[k - 1]) else last)
  {
    assert nodes[k] == first <==> k == 0;
    assert nodes[k] == last <==> k == |nodes| - 1;
  }

  /** Dropping a node drops its value. */
  lemma ValuesWithout<T>(nodes: seq<Node<T>>, k: nat)
    requires k < |nodes|
    ensures Values(Without(nodes, k)) == Without(Values(nodes), k)
  {
  }

  class DoublyLinkedList<T> {
    var head: Node?<T>
    var tail: Node?<T>
    var count: int
    /** The element type's `CompareTo`, fixed for the list's lifetime. */
    const cmp: (T, T) -> int

    /** The nodes reachable from `head` through `next`, head first. */
    ghost var Nodes: seq<Node<T>>

    /**
     * The nodes form a chain, `head`/`tail` are its ends (both null exactly
     * when it is empty) and `count` is its length.
     */
    ghost predicate Valid()
      reads this, Nodes
    {
      count == |Nodes| && Ends(Nodes, head, tail) && Chain(Nodes)
    }

    /** The values an enumeration yields, in order. */
    ghost function Elements(): seq<Option<T>>
      reads this
    {
      Values(Nodes)
    }

    /** An empty list (the C# parameterless constructor, over T's comparison). */
    constructor (cmp: (T, T) -> int)
      ensures Valid() && Nodes == [] && this.cmp == cmp
    {
      head, tail, count := null, null, 0;
      this.cmp := cmp;
      Nodes := [];
    }

    /** `Count`: the number of stored elements; zero exactly when there is no head and no tail. */
    function Count(): (n: int)
      reads this, Nodes
      requires Valid()
      ensures n == |Elements()|
      ensures n == 0 <==> head == null
      ensures n == 0 <==> tail == null
    {
      count
    }

    /** `IsReadOnly`: the list always accepts changes. */
    function IsReadOnly(): (r: bool)
      ensures !r
    {
      false
    }

    /**
     * Appends a new node holding `x` after the tail; it becomes the tail and
     * `count` grows by one. Only the old tail's `next` and the new node's
     * `prev` are written.
     */
    method Add(x: Option<T>)
      requires Valid()
      modifies this, Nodes
      ensures Valid()
      ensures Elements() == old(Elements()) + [x]
      ensures count == old(count) + 1
      ensures tail != null && fresh(tail) && tail.data == x
      ensures Nodes == old(Nodes) + [tail]
      ensures old(Nodes) != [] ==> head == old(head)
    {
      var temp := new Node(x);
      if head == null {
        head := temp;
        tail := temp;
      } else {
        // The source has no `else`: on an empty list it also runs these three
        // statements and leaves the first node linked to itself.
        tail.next := temp;
        temp.prev := tail;
        tail := temp;
      }
      count := count + 1;
      Nodes := Nodes + [temp];
      assert Elements() == old(Elements()) + [x];
    }

    /** `Contains`: a scan from the head, with the null-at-head special case. */
    method Contains(item: Option<T>) returns (found: bool)
      requires Valid()
      ensures found == Contained(Elements(), item, cmp)
    {
      var temp := head;
      if temp == null {
        return false;
      }
      if item.None? && temp.data.None? {
        return true;
      }
      ghost var i := 0;
      while temp.next != null
        invariant Valid() && 0 <= i < |Nodes| && temp == Nodes[i]
        invariant forall j :: 0 <= j < i ==> !Matches(Elements()[j], item, cmp)
        decreases |Nodes| - i
      {
        if Matches(temp.data, item, cmp) {
          assert Matches(Elements()[i], item, cmp);
          return true;
        }
        assert Nodes[i].next != null;
        temp := temp.next;
        i := i + 1;
      }
      assert Nodes[i].next == null;
      found := Matches(temp.data, item, cmp);
      assert Matches(Elements()[i], item, cmp) == found;
    }

    /** `GetNode`: the node `Remove` unlinks; null when there is none. */
    method GetNode(item: Option<T>) returns (node: Node?<T>)
      requires Valid()
      requires !GetNodeFaults(Elements(), item, cmp)
      ensures match NodeIndex(Elements(), item, cmp)
        case Some(k) => k < |Nodes| && node == Nodes[k]
        case None => node == null
    {
      if head == null {
        return null;
      }
      var reqNode := head;
      ghost var i := 0;
      while reqNode.next != null
        invariant Valid() && 0 <= i < |Nodes| && reqNode == Nodes[i]
        invariant forall j :: 0 <= j < i ==> !Matches(Elements()[j], item, cmp)
        decreases |Nodes| - i
      {
        if Matches(reqNode.data, item, cmp) {
          assert Matches(Elements()[i], item, cmp);
          return reqNode;
        }
        assert Nodes[i].next != null;
        reqNode := reqNode.next;
        i := i + 1;
      }
      assert Nodes[i].next == null;
      assert Elements()[i] == reqNode.data;
      if reqNode.data.None? && item.None? {
        return reqNode;
      }
      // `reqNode.Data!`: the precondition rules out a null tail value here.
      assert reqNode.data.Some?;
      node := if Matches(reqNode.data, item, cmp) then reqNode else null;
    }

    /**
     * `Remove`: unlinks the node `GetNode` finds once `Contains` said yes,
     * and answers whether it did; when it does not, nothing changes.
     * Corrected: `head`, `tail` and `count` follow the removal.
     */
    method Remove(item: Option<T>) returns (removed: bool)
      requires Valid()
      modifies this, Nodes
      ensures Valid()
      ensures removed == RemovalIndex(old(Elements()), item, cmp).Some?
      ensures !removed ==> unchanged(this) && unchanged(old(Nodes))
      ensures removed ==>
        var k := RemovalIndex(old(Elements()), item, cmp).value;
        k < |old(Nodes)| &&
        Nodes == Without(old(Nodes), k) &&
        Elements() == Without(old(Elements()), k) &&
        count == old(count) - 1 &&
        forall j :: 0 <= j < |old(Nodes)| && j != k - 1 && j != k + 1 ==> unchanged(old(Nodes)[j])
    {
      var contained := Contains(item);
      if !contained {
        return false;
      }
      ContainedDoesNotFault(Elements(), item, cmp);
      var nodeToRemove := GetNode(item);
      if nodeToRemove == null {
        return false;
      }
      ghost var k := NodeIndex(Elements(), item, cmp).value;
      assert RemovalIndex(Elements(), item, cmp) == Some(k);
      Unlink(nodeToRemove, k);
      return true;
    }

    /**
     * The unlinking step of `Remove`: the node's neighbours are linked to
     * each other (`Bypass`). Corrected: `head`, `tail` and `count` follow.
     */
    method Unlink(node: Node<T>, ghost k: nat)
      requires Valid() && k < |Nodes| && node == Nodes[k]
      modifies this, Nodes
      ensures Valid()
      ensures Nodes == Without(old(Nodes), k) && count == old(count) - 1
      ensures Elements() == Without(old(Elements()), k)
      ensures forall j :: 0 <= j < |old(Nodes)| && j != k - 1 && j != k + 1 ==> unchanged(old(Nodes)[j])
    {
      ghost var before := Nodes;
      UnlinkMovesEnds(before, k, head, tail);
      var prevNode := node.prev;
      var nextNode := node.next;
      Bypass(node, before, k);
      // The source stops here: `head`, `tail` and `count` stay as they were.
      if node == head {
        head := nextNode;
      }
      if node == tail {
        tail := prevNode;
      }
      count := count - 1;
      Nodes := Without(Nodes, k);
      assert Chain(Nodes);
      assert Ends(Nodes, head, tail);
      ValuesWithout(before, k);
    }

    /** `Clear`: drops the whole chain at once; the nodes' own links are not touched. */
    method Clear()
      requires Valid()
      modifies this
      ensures Valid()
      ensures Nodes == [] && Elements() == []
      ensures head == null && tail == null && count == 0
    {
      head := null;
      tail := null;
      count := 0;
      Nodes := [];
    }

    /** `GetEnumerator`: a fresh cursor over the current chain. */
    method GetEnumerator() returns (e: Enumerator<T>)
      requires Valid()
      ensures fresh(e) && e.Valid() && e.list == this
      ensures e.Remaining == Elements()
      ensures e.current == if head != null then head.data else None
    {
      e := new Enumerator(this);
    }
  }

  /**
   * `DoublyLinkedListEnumerator`: a cursor bound to a list. `pos` is how many
   * values it has published; it is meaningful while the list is not changed.
   */
  class Enumerator<T> {
    const list: DoublyLinkedList<T>
    var cursor: Node?<T>
    var current: Option<T>
    ghost var pos: nat
    /** The values `MoveNext` has still to publish. */
    ghost var Remaining: seq<Option<T>>

    ghost predicate Valid()
      reads this, list, list.Nodes
    {
      list.Valid() && pos <= |list.Nodes| &&
      cursor == (if pos < |list.Nodes| then list.Nodes[pos] else null) &&
      Remaining == list.Elements()[pos..]
    }

    /** Binds the cursor to the list's head; `Current` starts as the head's value (or null). */
    constructor (list: DoublyLinkedList<T>)
      requires list.Valid()
      ensures Valid() && this.list == list && pos == 0
      ensures current == if list.head != null then list.head.data else None
    {
      this.list := list;
      cursor := list.head;
      current := if list.head != null then list.head.data else None;
      pos := 0;
      Remaining := list.Elements();
    }

    /**
     * `MoveNext`: false once the cursor is null; otherwise publishes the
     * cursor's value and steps to `next`, treating a return to the head as
     * the end.
     */
    method MoveNext() returns (moved: bool)
      requires Valid()
      modifies this
      ensures Valid()
      ensures moved == (old(cursor) != null)
      ensures moved == (old(Remaining) != [])
      ensures moved ==> current == old(Remaining)[0] && Remaining == old(Remaining)[1..]
      ensures !moved ==> unchanged(this)
    {
      if cursor == null {
        return false;
      }
      current := cursor.data;
      var next := cursor.next;
      // Running back into the head means the end. In an acyclic chain this never
      // happens; the source relies on it for its self-linked first node.
      cursor := if next == list.head then null else next;
      pos := pos + 1;
      Remaining := Remaining[1..];
      return true;
    }

    /** `Reset`: rebinds the cursor to the list's current head and clears `Current`. */
    method Reset()
      requires list.Valid()
      modifies this
      ensures Valid() && pos == 0
      ensures cursor == list.head && current == None
      ensures Remaining == list.Elements()
    {
      cursor := list.head;
      current := None;
      pos := 0;
      Remaining := list.Elements();
    }
  }

  /**
   * Runs `while (e.MoveNext()) out += e.Current`, the loop `string.Join` and
   * the tests run: it yields exactly the values the cursor had still to publish.
   */
  method Drain<T>(e: Enumerator<T>) returns (r: seq<Option<T>>)
    requires e.Valid()
    modifies e
    ensures e.Valid() && r == old(e.Remaining) && e.Remaining == []
  {
    r := [];
    while true
      invariant e.Valid() && old(e.Remaining) == r + e.Remaining
      decreases |e.Remaining|
    {
      ghost var rest := e.Remaining;
      var more := e.MoveNext();
      if !more {
        break;
      }
      MoveOne(old(e.Remaining), r, rest, e.current, e.Remaining);
      r := r + [e.current];
    }
  }

  /** Sequence step of `Drain`: moving the head of what is left to what is taken. */
  lemma MoveOne<X>(all: seq<X>, taken: seq<X>, left: seq<X>, x: X, rest: seq<X>)
    requires all == taken + left && |left| > 0 && left[0] == x && rest == left[1..]
    ensures all == (taken + [x]) + rest
  {
    assert left == [x] + rest;
  }
}
