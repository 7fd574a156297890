/** The nodes of a binomial heap (`struct node` and its allocator `Node`)
    and the 32-bit key type they carry. */
module Nodes {

  /** The source's `int`: a 32-bit two's-complement integer. */
  newtype Int32 = x: int | -0x8000_0000 <= x < 0x8000_0000

  /** `numeric_limits<int>::max()`, the start value of the minimum scan. */
  const INT_MAX: Int32 := 0x7fff_ffff

  /** A tree vertex: its key, its degree (number of children), its leftmost
      child, its right sibling (in a child list or in the root list) and its
      parent (null for a root). */
  class Node {
    var key: Int32
    var degree: int
    var child: Node?
    var sibling: Node?
    var parent: Node?

    /** `Node(value)`: a fresh, isolated node of degree 0 holding `value`. */
    constructor (value: Int32)
      ensures key == value && degree == 0
      ensures child == null && sibling == null && parent == null
    {
      key := value;
      degree := 0;
      child := null;
      sibling := null;
      parent := null;
    }
  }
}
