/** The node record of the event tree: the fields of `RedBlackNode`, with the three links
    held as indices into the tree's node arena. */
module Nodes {
  /** `RedBlackNode.Color`: exactly the two values RED and BLACK. */
  datatype Color = Red | Black

  /** The arena index of the shared sentinel `nil`. */
  const NIL: int := 0

  /** `isNil`: a link is the sentinel exactly when it is index 0 (reference equality in the
      source). */
  predicate IsNil(node: int) {
    node == NIL
  }

  /** Java's `null` reference. It is not an arena index; the sentinel `nil` lives at slot 0. */
  const NULL: int := -1

  /** One node: links to the left child, right child and parent, colour, key and count. */
  datatype RedBlackNode = RedBlackNode(
    leftChild: int, rightChild: int, parent: int,
    color: Color, eventId: int, count: int)

  /** `new RedBlackNode(evid, count)`: stores the id and the count, is BLACK and has all
      three links null. */
  function NewNode(evid: int, count: int): (n: RedBlackNode)
    ensures n.eventId == evid && n.count == count
    ensures n.color == Black
    ensures n.leftChild == NULL && n.rightChild == NULL && n.parent == NULL
  {
    RedBlackNode(NULL, NULL, NULL, Black, evid, count)
  }

  /** `new RedBlackNode()`, which delegates to `this(0, 0)`; this is how the black sentinel
      `nil` is created. */
  function NewSentinel(): (n: RedBlackNode)
    ensures n.eventId == 0 && n.count == 0 && n.color == Black
    ensures n.leftChild == NULL && n.rightChild == NULL && n.parent == NULL
  {
    NewNode(0, 0)
  }
}
