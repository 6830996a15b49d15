/** The linked cell of DataStructs/Node.cs. */
module Nodes {
  import opened Wrappers

  /**
   * A heap cell: its value is fixed when it is created (a `const`, as `Data`
   * has only a getter), and its two links are the only state the list
   * rewrites later. The value may be null (`None`), since `Data` is `T?`.
   */
  class Node<T> {
    var prev: Node?<T>
    var next: Node?<T>
    const data: Option<T>

    /** A new cell holds the given value and is linked to nothing. */
    constructor (data: Option<T>)
      ensures this.data == data
      ensures prev == null && next == null
    {
      this.data := data;
      prev, next := null, null;
    }
  }
}
