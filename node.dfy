/** The mutable tree node of package `base`: a key and two child links, nothing else. */
module Nodes {

  /**
   * One node of the ordered tree. The key is the node's number rounded
   * half-up to six decimal places and scaled by 10^6, so the ordering the
   * tree uses is exact. There is no count field: equal keys live in
   * separate nodes. All three fields are updated in place by the tree.
   */
  class Node {
    var value: int
    var left: Node?
    var right: Node?

    /** `Node.New(v)`: a fresh leaf holding `v`. */
    constructor New(v: int)
      ensures value == v
      ensures left == null && right == null
    {
      value := v;
      left := null;
      right := null;
    }
  }
}
