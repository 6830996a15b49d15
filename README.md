# DataStructs doubly-linked list in Dafny

This project models the generic `DoublyLinkedList<T>` collection of the
DataStructs library and proves properties of the model. The list is a chain of
`Node<T>` objects reached from `Head`, with a `Tail` and a `Count`. It supports
`Add`, `Contains`, `Remove`, `Clear` and `IsReadOnly`, and its enumerator
(`DoublyLinkedListEnumerator`) supports `MoveNext` and `Reset`.

Layout:

- `wrappers.dfy` (`Wrappers`): `Option<T>`. A stored value or an item is
  `Option<T>`, with `None` standing for C#'s null.
- `node.dfy` (`Nodes`): the `Node<T>` class. Its `data` is a `const`, because
  `Data` has only a getter. Its `prev` and `next` are mutable fields.
- `list_spec.dfy` (`ListSpec`): what the searches compute, defined on the
  sequence of stored values. This covers the match rule, the answer of
  `Contains`, the node `GetNode` returns and the node `Remove` unlinks. It also
  holds lemmas about these definitions.
- `doubly_linked_list.dfy` (`LinkedList`): the list and enumerator classes as
  heap objects. A ghost field `Nodes` lists the chain's nodes, head first; it
  serves both as the abstraction and as the frame. Each method is proved
  against the `ListSpec` definitions. This module models the corrected
  behaviour (see "## Findings").
- `as_written.dfy` (`AsWritten`): `Add`, `Contains`, `GetNode`, `Remove` and
  the enumeration of a fresh enumerator, exactly as written, on a value heap of
  indexed nodes. The source's loops may not terminate there, so they run on
  fuel. Lemmas in this module show that, on every list built by `Add`, the
  as-written enumeration and (from two values on) `Contains` agree with the
  corrected list. Other lemmas exhibit the defects on concrete lists.
- `list_clients.dfy` (`ListClients`): the scenarios of the unit tests and the
  demo program, stated over the corrected list.

How the source's behaviour is stated here:

- The element type's `CompareTo` is the comparator `cmp`, a `const` of the
  list that is given at construction.
- A stored value matches an item when both are non-null and `cmp` gives 0.
  - `Data?.CompareTo(item)` is null for a null `Data`, so a null stored value
    never matches.
  - .NET orders every instance after null, so `CompareTo(null)` is taken as
    non-zero.
- The model follows the code, except for the defects listed under
  "## Findings":
  - A null item is looked for only at the head in `Contains`
    (`DoublyLinkedList.cs:39-42`). The loop body never matches null.
  - `GetNode(null)` finds no node in its loop, so it returns the tail when the
    tail holds null. On the corrected (acyclic) list, `Remove(null)` therefore
    unlinks the tail, and only when the head and the tail both hold null
    (`ListSpec.RemovalIndexOfNull`). As written, on a one-node list holding
    null, that same call never returns (`AsWritten.SingletonRemoveDiverges`).
  - `CollectionUpdateEventHandler.cs` declares `CollectionActionType` (item
    added, item removed, collection cleared) and an argument type, but the
    list declares no event and never raises one. No notification is modelled.
  - The enumerator ends when it steps back onto `Head`, as the code does
    (`DoublyLinkedList.cs:204-206`). It does not use an absent-next test.

## Model

| member | source | states |
|---|---|---|
| Nodes.Node.constructor | DataStructs/Node.cs:9-13 | the new node holds the given value and has null `Prev` and `Next` |
| ListSpec.Matches | DataStructs/DoublyLinkedList.cs:44-54 | the `Data?.CompareTo(item) == 0` test (also at lines 160 and 173): a null stored value never matches, and neither does a null item |
| ListSpec.FirstMatch | DataStructs/DoublyLinkedList.cs:44-54 | the result is an index whose value matches and before which none does; it is None exactly when no value matches |
| ListSpec.AddedIsContained | DataStructs/DoublyLinkedList.cs:12-55 | a non-null value that compares equal to itself is found after it is appended, whatever the list held before |
| ListSpec.EachIsContained | DataStructs/DoublyLinkedList.cs:30-55 | every non-null stored value that compares equal to itself is found by `Contains`, whatever else the list holds |
| ListSpec.FirstAddedIsContained | DataStructs.Tests/DoublyLinkedListTests.cs:101-120 | the head value is found, whether it is null or a value that compares equal to itself |
| ListSpec.FirstMatchAt | DataStructs/DoublyLinkedList.cs:44-54 | a matching index with no match before it is the first match |
| ListSpec.ContainedIffFirstMatch | DataStructs/DoublyLinkedList.cs:62-73 | for a non-null item, `Contains` is true exactly when some value matches, and `Remove` then unlinks the first match |
| ListSpec.ContainedIntIsMembership | DataStructs/DoublyLinkedList.cs:44-54 | over `int` with `Int32.CompareTo`, `Contains(v)` is true exactly when `v` is stored |
| ListSpec.RemovalIndexOfNull | DataStructs/DoublyLinkedList.cs:149-174 | `Remove(null)` unlinks a node exactly when the head and the tail both hold null, and then it unlinks the tail |
| ListSpec.ContainedDoesNotFault | DataStructs/DoublyLinkedList.cs:149-174 | once `Contains` said yes, `GetNode` cannot reach the null dereference `Data!` at line 173 |
| ListSpec.RemovedOnlyOccurrenceIsGone | DataStructs/DoublyLinkedList.cs:62-89 | after the only occurrence of a non-null value is removed, `Contains` of it is false |
| ListSpec.AbsentStaysAbsent | DataStructs/DoublyLinkedList.cs:62-89 | a non-null value that is not contained is still not contained after any removal |
| LinkedList.UnlinkKeepsChain | DataStructs/DoublyLinkedList.cs:75-86 | once a node's predecessor and successor point at each other, the other nodes form an acyclic doubly-linked chain |
| LinkedList.Bypass | DataStructs/DoublyLinkedList.cs:75-86 | the rewiring leaves a chain without the node and changes no node but its two neighbours; the node keeps its own links |
| LinkedList.UnlinkMovesEnds | DataStructs/DoublyLinkedList.cs:62-89 | removing the first or the last node moves that end onto the neighbour; any other removal leaves both ends |
| LinkedList.ValuesWithout | DataStructs/DoublyLinkedList.cs:75-86 | dropping a node from the chain drops exactly its value from the enumerated values |
| LinkedList.DoublyLinkedList.constructor | DataStructs/DoublyLinkedList.cs:7-9 | a new list is empty: no head, no tail, count zero |
| LinkedList.DoublyLinkedList.Count | DataStructs/DoublyLinkedList.cs:9 | `Count` is the number of enumerated values, and it is zero exactly when there is no head and exactly when there is no tail |
| LinkedList.DoublyLinkedList.IsReadOnly | DataStructs/DoublyLinkedList.cs:10 | the list is never read-only |
| LinkedList.DoublyLinkedList.Add | DataStructs/DoublyLinkedList.cs:12-28 | the value is appended at the end of the enumeration, in a fresh node that becomes the tail; `Count` grows by one; a nonempty list keeps its head; the chain invariant is kept |
| LinkedList.DoublyLinkedList.Contains | DataStructs/DoublyLinkedList.cs:30-55 | false on an empty list; true when the item is null and the head holds null; otherwise true exactly when some stored value, the tail's included, matches |
| LinkedList.DoublyLinkedList.GetNode | DataStructs/DoublyLinkedList.cs:149-174 | returns the node of the first match for a non-null item, the tail for a null item when the tail holds null, and null otherwise |
| LinkedList.DoublyLinkedList.Remove | DataStructs/DoublyLinkedList.cs:62-89 | answers true exactly when there is a node to unlink; the nodes and values are then the old ones without it, `Count` drops by one and only its neighbours change; when it answers false, nothing changes |
| LinkedList.DoublyLinkedList.Unlink | DataStructs/DoublyLinkedList.cs:75-86 | after the unlinking step the chain invariant holds, the node and its value are gone, `Count` drops by one and only the neighbours change |
| LinkedList.DoublyLinkedList.Clear | DataStructs/DoublyLinkedList.cs:132-137 | the list is empty: no head, no tail, count zero, nothing enumerated |
| LinkedList.DoublyLinkedList.GetEnumerator | DataStructs/DoublyLinkedList.cs:139-142 | a fresh enumerator over this list that will publish exactly its values, in order, with `Current` starting as the head's value, or null when the list is empty |
| LinkedList.Enumerator.constructor | DataStructs/DoublyLinkedList.cs:185-194 | the cursor is at the head, and `Current` is the head's value, or null when the list is empty |
| LinkedList.Enumerator.MoveNext | DataStructs/DoublyLinkedList.cs:196-209 | answers false exactly when the cursor is null, which is exactly when nothing is left, and then changes nothing; otherwise `Current` is the next value in order, and it is dropped from what is left |
| LinkedList.Enumerator.Reset | DataStructs/DoublyLinkedList.cs:211-215 | the cursor is back at the head, `Current` is null, and all the values are to be published again |
| LinkedList.Drain | DataStructs.Tests/DoublyLinkedListTests.cs:59-62 | the `while (MoveNext())` loop yields exactly the values the enumerator had still to publish, in order |
| AsWritten.Empty | DataStructs/DoublyLinkedList.cs:7-9 | a new list has no nodes, null ends and count zero |
| AsWritten.AddAsWritten | DataStructs/DoublyLinkedList.cs:12-28 | as written, the value is stored in a new node that becomes the tail, and `Count` grows by one; on an empty list the new node is also the head and its `Prev` and `Next` are itself; otherwise the old tail's `Next` is the new node, the new node's `Prev` is the old tail and the head stays; no other node's links change |
| AsWritten.ContainsLoop | DataStructs/DoublyLinkedList.cs:44-54 | as written, the scan never dereferences null, and when it answers true some node's value matches |
| AsWritten.ContainsAsWritten | DataStructs/DoublyLinkedList.cs:30-55 | as written, `Contains` never throws, answers false on an empty list, and answers true only when both the item and the head's value are null or some node's value matches |
| AsWritten.GetNodeLoop | DataStructs/DoublyLinkedList.cs:158-173 | as written, a returned node is allocated and either matches or holds null for a null item; the `Data!` dereference fails only for a non-null item |
| AsWritten.GetNodeAsWritten | DataStructs/DoublyLinkedList.cs:149-174 | as written, a node `GetNode` returns is allocated and either matches the item or holds null for a null item; it can throw only for a non-null item |
| AsWritten.RemoveAsWritten | DataStructs/DoublyLinkedList.cs:62-89 | as written, `Remove` leaves `Head`, `Tail`, `Count` and the stored values as they were, whatever it answers; a false answer changes nothing; a null dereference needs a non-null item, and `RemoveAsWrittenNeverThrows` shows it never happens |
| AsWritten.LoopsAgree | DataStructs/DoublyLinkedList.cs:44-54 | where the `Contains` loop answers true for a non-null item, the `GetNode` loop of lines 158-166 from the same node on the same fuel returns a node, before the `Data!` of line 173 |
| AsWritten.RemoveAsWrittenNeverThrows | DataStructs/DoublyLinkedList.cs:62-73 | as written, `Remove` never dereferences null, on any list |
| AsWritten.WalkAsWritten | DataStructs/DoublyLinkedList.cs:196-209 | as written, repeated `MoveNext` never dereferences null, and publishes only stored values, at most one per step |
| AsWritten.EnumerateAsWritten | DataStructs/DoublyLinkedList.cs:185-209 | as written, an enumeration never throws, yields nothing for an empty list, and yields only stored values, at most one per step |
| AsWritten.UnlinkAsWritten | DataStructs/DoublyLinkedList.cs:75-86 | as written, unlinking leaves `Head`, `Tail`, `Count` and the stored values as they were |
| AsWritten.Build | DataStructs/DoublyLinkedList.cs:12-28 | adding values in order to a new list as written gives a well-formed arena holding exactly those values, with `Count` their number |
| AsWritten.BuildShape | DataStructs/DoublyLinkedList.cs:14-27 | that arena is a chain from node 0 to the last node, except that the head's `Prev` is the head and, for a single node, so is its `Next` |
| AsWritten.WalkBuilt | DataStructs/DoublyLinkedList.cs:196-209 | from node i of such an arena, repeated `MoveNext` publishes exactly the values from i on and stops |
| AsWritten.BuiltEnumerates | DataStructs/DoublyLinkedList.cs:185-209 | as written, a list built by adding any values enumerates exactly those values in order |
| AsWritten.ContainsLoopBuilt | DataStructs/DoublyLinkedList.cs:44-54 | on such an arena of two or more nodes, the `Contains` loop from node i answers whether some node from i on matches |
| AsWritten.BuiltContains | DataStructs/DoublyLinkedList.cs:30-55 | as written, `Contains` on a list built from two or more values answers exactly what the corrected list answers |
| AsWritten.OneToFourAsWritten | DataStructs.Tests/DoublyLinkedListTests.cs:91-94 | the list built from 1, 2, 3, 4 is well formed |
| AsWritten.OneToThreeLinks | DataStructs/DoublyLinkedList.cs:17-25 | adding 1, 2, 3 as written gives a chain whose head's `Prev` points at the head itself |
| AsWritten.OneToFourLinks | DataStructs/DoublyLinkedList.cs:17-25 | adding 1, 2, 3, 4 as written gives a chain whose head's `Prev` points at the head itself |
| AsWritten.ContainsStaysAtSelfLink | DataStructs/DoublyLinkedList.cs:44-52 | at a self-linked node that does not match, the `Contains` loop never returns, whatever the fuel |
| AsWritten.GetNodeStaysAtSelfLink | DataStructs/DoublyLinkedList.cs:158-166 | at a self-linked node that does not match, the `GetNode` loop never returns, whatever the fuel |
| AsWritten.SingletonContainsDiverges | DataStructs/DoublyLinkedList.cs:17-25 | as written, `Contains` on a one-value list does not terminate for an item that value does not match, unless both are null |
| AsWritten.SingletonEnumeratesOnce | DataStructs/DoublyLinkedList.cs:196-209 | as written, a one-value list is enumerated once, because of the head test in `MoveNext` |
| AsWritten.SingletonRemoveDiverges | DataStructs/DoublyLinkedList.cs:62-73 | as written, `Remove` and `GetNode` on a one-value list do not terminate for any item that value does not match, a null item on a null value included |
| AsWritten.WalkStep | DataStructs/DoublyLinkedList.cs:196-209 | one `MoveNext` publishes the cursor's value and walks on from its successor, or ends at `Head` |
| AsWritten.OneToFourEnumerates | DataStructs/DoublyLinkedList.cs:196-209 | as written, the list built from 1, 2, 3, 4 enumerates 1, 2, 3, 4 |
| AsWritten.RemoveHeadAsWrittenIsNoOp | DataStructs/DoublyLinkedList.cs:75-86 | as written, `Remove(1)` on 1, 2, 3, 4 answers true but leaves the list unchanged; it still enumerates 1, 2, 3, 4 and still contains 1 |
| AsWritten.OneToFourRemoveTail | DataStructs/DoublyLinkedList.cs:75-86 | as written, `Remove(4)` on 1, 2, 3, 4 only clears the `Next` of the node holding 3 |
| AsWritten.StrandedAddLinks | DataStructs/DoublyLinkedList.cs:23-25 | as written, `Add(5)` after `Remove(4)` on 1, 2, 3, 4 links the new node after the unlinked node 4, the stale `Tail` |
| AsWritten.StrandedEnumerates | DataStructs/DoublyLinkedList.cs:196-209 | the enumeration of that list stops after 1, 2, 3, before the stranded nodes |
| AsWritten.RemoveTailAsWrittenStrandsLaterAdd | DataStructs/DoublyLinkedList.cs:62-89 | as written, `Remove(4)` and then `Add(5)` on 1, 2, 3, 4 enumerates 1, 2, 3 while `Count` is 5 |
| ListClients.FromValues | DataStructs.Demo/Program.cs:5-12 | a collection initializer gives a valid list with exactly those values, in order |
| ListClients.ContainsEach | DataStructs.Demo/Program.cs:33-35 | each answer is `Contains` of the corresponding item |
| ListClients.AddAllThenEnumerate | DataStructs.Tests/DoublyLinkedListTests.cs:8-33 | the enumeration yields the added values in the order they were added |
| ListClients.EnumerateResetEnumerate | DataStructs.Tests/DoublyLinkedListTests.cs:48-72 | draining, `Reset` and draining again yields the values twice ("123123") |
| ListClients.ClearedIsEmpty | DataStructs.Tests/DoublyLinkedListTests.cs:35-46 | after `Clear`, nothing is enumerated and `Count` is 0 |
| ListClients.NeverReadOnly | DataStructs.Tests/DoublyLinkedListTests.cs:74-83 | `IsReadOnly` is false |
| ListClients.RemovalFromDistinct | DataStructs.Tests/DoublyLinkedListTests.cs:85-99 | after removing `v` from distinct ints, `v` is neither contained nor stored, the list is one shorter exactly when `v` was there, and every other value stays |
| ListClients.RemoveThenLookUp | DataStructs.Tests/DoublyLinkedListTests.cs:85-99 | after `Remove(v)` on distinct ints, `Contains(v)` is false and `v` is not enumerated, the list is one shorter exactly when `v` was there, and every other value is still enumerated |
| ListClients.ContainsFirstAdded | DataStructs.Tests/DoublyLinkedListTests.cs:101-120 | the first value added is found, null included |
| ListClients.ContainsEveryAdded | DataStructs.Tests/DoublyLinkedListTests.cs:101-113 | every non-null added value that compares equal to itself is found, whatever else was added |
| ListClients.SingletonContainsAbsent | DataStructs/DoublyLinkedList.cs:17-25 | corrected, `Contains` of an absent value on a one-value list returns false |
| ListClients.RemoveHeadOfOneToFour | DataStructs/DoublyLinkedList.cs:62-89 | corrected, `Remove(1)` on 1, 2, 3, 4 answers true and leaves 2, 3, 4 with `Count` 3 |
| ListClients.RemoveTailThenAdd | DataStructs/DoublyLinkedList.cs:62-89 | corrected, `Remove(4)` and then `Add(5)` on 1, 2, 3, 4 enumerates 1, 2, 3, 5 with `Count` 4 |
| ListClients.DemoRemove | DataStructs.Demo/Program.cs:5-16 | 1, 2, 3, 4, 5 with 4 removed enumerates 1, 2, 3, 5, with `Count` 4 |
| ListClients.DemoAddBack | DataStructs.Demo/Program.cs:18-22 | adding 4 back puts it last, giving 1, 2, 3, 5, 4, and the length printed before clearing is 5 |
| ListClients.DemoClearThenRefill | DataStructs.Demo/Program.cs:22-31 | the cleared list has size 0, and refilled with 1, 2, 3 it enumerates them |
| ListClients.DemoContains | DataStructs.Demo/Program.cs:33-35 | the refilled list contains 1, 2 and 3 |

## Left out

- Mutation notifications: the list declares no events and raises none, and `CollectionUpdateEventHandler.cs` only declares the argument type.
- `CopyTo` and `GetNodeByIndex` (`DoublyLinkedList.cs:91-130`): the code cannot be given a meaningful contract.
  - The guard at line 93 throws for every valid index.
  - The loop at lines 99-110 never advances `index`.
  - The `||` condition at line 123 walks past the tail and dereferences null.
- The non-generic `IEnumerable.GetEnumerator`, the boxed `IEnumerator.Current` and the empty `Dispose`: these are interface plumbing with no behaviour.
- `IComparable`: replaced by the comparator `cmp`. `SelfEqual` states the one property of it that the proofs use.
  - `CompareTo(null)` on a non-null value is taken as non-zero.
- `default(T)` for a value type is modelled as `None`. In C#, `Current` of an enumerator over an empty `int` list is 0, not null.
- LinkedList.DoublyLinkedList.Count: `Count` is an unbounded integer. The C# `int` would wrap after 2^31 - 1 additions.
- LinkedList.DoublyLinkedList.GetNode: it requires `!GetNodeFaults`, which excludes the one input on which the source throws `NullReferenceException` at line 173. `Remove`, its only caller, never passes that input (`ListSpec.ContainedDoesNotFault`).
- LinkedList.Enumerator.MoveNext: the enumerator is specified only while its list is unchanged. Mutation during enumeration is not modelled.
- LinkedList.DoublyLinkedList.Unlink: its frame ensures speaks of the nodes only. Its `head`/`tail` updates are the corrected behaviour.
- AsWritten.GetNodeAsWritten: the as-written model is on values, with fuel-bounded loops. Its contract does not say which matching node is returned; the concrete lemmas of `AsWritten` carry that.
  - The model does not capture object identity or aliasing beyond node indices.
- `AsWritten` has no `Clear`, `Reset`, `Count` or `IsReadOnly`: the source's versions of these are the ones `LinkedList` models, and no defect touches them.
- The demo and the unit tests are split into several scenarios, each building its own list. They are Dafny methods over the corrected list, and the console output itself is not modelled.
  - As written, the demo's `Remove(4)` leaves `Count` at 5, so the length printed before `Clear` is 6 rather than 5.

## Findings

| source | as written | input that shows it | evidently intended | confidence | as-written member | corrected member |
|---|---|---|---|---|---|---|
| DataStructs/DoublyLinkedList.cs:17-25 | with no `else`, the append statements also run for the first node, so its `Next` and `Prev` are itself | a list holding only 1, then `Contains(2)` or `Remove(2)`: the scan follows `Next` back to the same node for ever; likewise a list holding only null, then `Remove(null)`: `Contains` answers true at the head test, and `GetNode`, which has no head test, spins | the first node becomes head and tail with null links, and the scan ends | not executed | AsWritten.SingletonContainsDiverges | ListClients.SingletonContainsAbsent |
| DataStructs/DoublyLinkedList.cs:75-86 | the head's `Prev` is the head itself (the self-link above), so removing the head only re-stores the links it already had | 1, 2, 3, 4 then `Remove(1)`: it answers true, but the list still enumerates 1, 2, 3, 4 and still contains 1 | the head value is removed, leaving 2, 3, 4 | not executed | AsWritten.RemoveHeadAsWrittenIsNoOp | ListClients.RemoveHeadOfOneToFour |
| DataStructs/DoublyLinkedList.cs:62-89 | `Remove` never moves `Head` or `Tail` and never decrements `Count` | 1, 2, 3, 4 then `Remove(4)` and `Add(5)`: the list enumerates 1, 2, 3 while `Count` is 5 | the tail moves back to 3, `Count` drops to 3, and a later `Add(5)` gives 1, 2, 3, 5 with `Count` 4 | not executed | AsWritten.RemoveTailAsWrittenStrandsLaterAdd | ListClients.RemoveTailThenAdd |
