# Event counter on a red-black tree, in Dafny

This project models `RedBlackEventTree`, an event counter. It maps integer event ids to counts
and keeps them in a red-black binary search tree. Every node has a parent link, and all nodes
share one BLACK sentinel `nil`. The model covers:

- the queries `count`, `next`, `prev` and `inRange`/`countInRange`;
- `increase` and `reduce`;
- `insertNode` with `adjustAfterInsert`;
- the linear-time sorted build (`buildTree`, driven the way `buildTreeFromFile` drives it);
- `deleteNode` with `nextMinNodeInSubtree` and `adjustAfterDelete`;
- `leftRotate` and `rightRotate`;
- the node record `RedBlackNode` with its constructors and its `Color`.

## How the model is built

- **Arena.** The Java objects live in an arena, the field `nodes: seq<RedBlackNode>`. A link
  (`leftChild`, `rightChild`, `parent`) is an index into it. Index 0 is the sentinel `nil`
  (`Nodes.NIL`, tested by `Nodes.IsNil`). Java's `null`, which `findNode` returns, is `NULL`
  (-1).
- **Class.** `EventTree.RedBlackEventTree` has the fields `nodes` and `root`. Every method
  updates them in place with the source's own sequence of writes. That includes the write to
  the sentinel's parent link in `deleteNode` and the read of it in `adjustAfterDelete`.
- **Shadow tree.** The class also keeps a ghost value `T: Shape.Tree`. Each of its nodes carries
  its arena index. `Arena.Linked` says that the arena's records and links represent `T`.
- **Abstract state.** `Events()` is the map from id to count that `T` stores. `Valid()` says:
  - the in-order keys are strictly increasing (BST order);
  - `T` is red-black (root BLACK, no red-red edge, equal black height);
  - ids are non-negative Java ints and counts are Java ints.
- **Parent pointers.** The fix-up loops carry a ghost zipper (`Shape.Path`). It is the chain of
  parent links from the cursor up to the root. Each case of each loop is a lemma in `Balance`
  that carries the loop invariant (`InsertInv`, `DeleteInv`) to the next round.
- **Java `int`.** Counts are added and subtracted with 32-bit wrap-around (`JavaInt.Wrap`), as
  `increase`, `reduce` and `countInRange` do.
- **Key comparisons.** The source compares keys by subtraction (`a - b < 0`). The model does the
  same, with a wrapped `JavaInt.Sub`. `JavaInt.CompareIds` shows that this decides the integer
  order for ids in [0, 2^31 - 1]. `JavaInt.SubtractionMisorders` shows that it does not for ints
  in general.

## Model

| member | source | states |
|---|---|---|
| `Nodes.NewNode` | RedBlackTree/src/RedBlackNode.java:26-34 | the two-argument constructor stores the given id and count, colours the node BLACK and leaves all three links null |
| `Nodes.IsNil` | RedBlackTree/src/RedBlackEventTree.java:491-493 | `isNil`: a link is `nil` exactly when it is the sentinel's index 0 (reference equality with `nil` in the source); the descent, the rotations, `deleteNode` and the queries branch on it |
| `Nodes.NewSentinel` | RedBlackTree/src/RedBlackNode.java:21-24 | the no-argument constructor, used for `nil`, gives id 0, count 0, BLACK, null links |
| `JavaInt.Wrap` | RedBlackTree/src/RedBlackEventTree.java:561 | Java `int` truncation always yields an int and leaves an int unchanged |
| `JavaInt.CompareIds` | RedBlackTree/src/RedBlackEventTree.java:302-314 | for two event ids the subtraction tests `< 0`, `<= 0`, `>= 0` and `== 0` never overflow and decide `<`, `<=`, `>=` and `==` |
| `JavaInt.SubtractionMisorders` | RedBlackTree/src/RedBlackEventTree.java:124 | for ints in general the subtraction test misorders: `MAX_INT - (-1) < 0` although `MAX_INT > -1` |
| `JavaInt.WrapSum3` | RedBlackTree/src/RedBlackEventTree.java:529 | summing a count and two wrapped subtree sums in Java arithmetic gives the wrapped true sum |
| `Shape.RotateLeftKeeps` | RedBlackTree/src/RedBlackEventTree.java:232-256 | a left rotation keeps the in-order (key, count) sequence, the in-order node order, the node set and index uniqueness |
| `Shape.RotateRightKeeps` | RedBlackTree/src/RedBlackEventTree.java:262-283 | the same for a right rotation |
| `Shape.MapOfInsert` | RedBlackTree/src/RedBlackEventTree.java:131-143 | a pair whose key lies strictly between the two halves of a sorted sequence keeps it sorted and adds exactly that entry, for a key that was absent |
| `Shape.MapOfDrop` | RedBlackTree/src/RedBlackEventTree.java:340-358 | dropping one pair from a sorted sequence keeps it sorted and removes exactly its key from the map |
| `Shape.SortedMapDetermines` | RedBlackTree/src/RedBlackEventTree.java:69-88 | two binary search trees that store the same map have the same in-order sequence, so a bulk-built tree and one filled by `increase` answer `inRange`, `next` and `prev` alike |
| `Balance.InsertStart` | RedBlackTree/src/RedBlackEventTree.java:141-147 | a fresh RED leaf at an empty position of a red-black tree satisfies the insertion fix-up's invariant |
| `Balance.InsertUncleRed` | RedBlackTree/src/RedBlackEventTree.java:178-186 | uncle RED: recolouring parent and uncle BLACK and grandparent RED keeps the invariant with the grandparent as cursor |
| `Balance.InsertUncleBlackOuter` | RedBlackTree/src/RedBlackEventTree.java:190-198 | uncle BLACK, LL or RR shape: recolouring and rotating at the grandparent leaves the cursor under a BLACK parent |
| `Balance.InsertUncleBlackInner` | RedBlackTree/src/RedBlackEventTree.java:199-204 | uncle BLACK, LR or RL shape: rotating at the parent keeps the invariant and yields the outer shape |
| `Balance.InsertFinish` | RedBlackTree/src/RedBlackEventTree.java:224-225 | when the cursor's parent is BLACK the tree is balanced with no red-red edge |
| `Balance.DeleteStart` | RedBlackTree/src/RedBlackEventTree.java:367-370 | splicing out a BLACK node leaves its child one black node short (the delete invariant); a RED one leaves a red-black tree |
| `Balance.DeleteCase1` | RedBlackTree/src/RedBlackEventTree.java:397-411 | sibling RED: recolour and rotate at the parent; the invariant holds with a BLACK sibling |
| `Balance.DeleteCase2` | RedBlackTree/src/RedBlackEventTree.java:413-419 | sibling and both its children BLACK: sibling RED, and the invariant holds at the parent |
| `Balance.DeleteCase3Near` | RedBlackTree/src/RedBlackEventTree.java:423-431 | only the near nephew RED: recolour and rotate at the sibling; the new sibling is BLACK with a RED far child |
| `Balance.DeleteCase3Far` | RedBlackTree/src/RedBlackEventTree.java:432-438 | far nephew RED: recolour and rotate at the parent; the whole tree is red-black |
| `Balance.DeleteFinish` | RedBlackTree/src/RedBlackEventTree.java:459-465 | a cursor at the root or RED, coloured BLACK, leaves a red-black tree |
| `Balance.HeightBound` | RedBlackTree/src/RedBlackEventTree.java:81-82 | a red-black tree with n nodes has 2^height at most (n + 1)^2, that is height at most 2 log2(n + 1) |
| `Removal.SpliceDelete` | RedBlackTree/src/RedBlackEventTree.java:329-358 | splicing out a node with at most one real child keeps BST order and removes exactly its key |
| `Removal.SuccessorDelete` | RedBlackTree/src/RedBlackEventTree.java:334-365 | copying the successor's key and count into a two-child target and splicing the successor out removes exactly the target's key and keeps the tree red-black until the splice |
| `Removal.RelabelRedBlack` | RedBlackTree/src/RedBlackEventTree.java:362-365 | overwriting a node's key and count does not affect the colour invariants |
| `Search.SearchStep` | RedBlackTree/src/RedBlackEventTree.java:302-315 | in a BST a present key below (above) a node's key lies in its left (right) subtree |
| `Search.DescendBetween` | RedBlackTree/src/RedBlackEventTree.java:120-129 | insertNode's descent keeps the new key strictly between the keys before and after the position |
| `Search.LeafInsert` | RedBlackTree/src/RedBlackEventTree.java:133-139 | a leaf placed where the descent ends keeps BST order and adds exactly its entry |
| `Search.Recount` | RedBlackTree/src/RedBlackEventTree.java:590 | overwriting one node's count keeps BST order and changes exactly that key's entry |
| `Search.MaxBetween` | RedBlackTree/src/RedBlackEventTree.java:71-78 | a key above every stored key belongs as right child of the last node in order |
| `Search.PrefixBelow` | RedBlackTree/src/RedBlackEventTree.java:49-53 | in sorted input every earlier id is below the next one, which is what each buildTree step needs |
| `Search.RangeSumStep` | RedBlackTree/src/RedBlackEventTree.java:526-538 | at a BST node the range sum is its count plus both subtrees' sums when in range, else the sum of the one subtree that can hold in-range keys |
| `Search.RangeSumEmpty` | RedBlackTree/src/RedBlackEventTree.java:503-506 | a range with hi < lo has sum 0 |
| `Arena.LeftRotatedLinked` | RedBlackTree/src/RedBlackEventTree.java:234-255 | leftRotate's writes in source order leave an arena representing the rotated tree, moving `root` when the node was the root and leaving the sentinel untouched |
| `Arena.RightRotatedLinked` | RedBlackTree/src/RedBlackEventTree.java:264-282 | the same for rightRotate |
| `Arena.SplicedLinked` | RedBlackTree/src/RedBlackEventTree.java:340-358 | deleteNode's splice leaves an arena representing the tree with the child in the spliced node's place; the child's (possibly the sentinel's) parent link names that place's parent |
| `Arena.AttachLeaf` | RedBlackTree/src/RedBlackEventTree.java:131-143 | linking a fresh RED leaf under its parent (or as root) represents the tree with that leaf added |
| `Arena.RelabelRep` | RedBlackTree/src/RedBlackEventTree.java:363-364 | overwriting one record's colour, key and count represents the same shape with that node relabelled |
| `Arena.InsertStepFacts` | RedBlackTree/src/RedBlackEventTree.java:163-176 | a RED parent is not the root; the parent, grandparent and uncle links read there are the zipper's |
| `Arena.DeleteStepFacts` | RedBlackTree/src/RedBlackEventTree.java:389-395 | a doubly black non-root cursor (the sentinel included) has a real sibling, found on the side opposite the cursor |
| `Arena.DeleteGuard` | RedBlackTree/src/RedBlackEventTree.java:385 | the loop test `node != root` holds exactly below the root, and the colour read is the subtree's (BLACK for the sentinel) |
| `Arena.NilExactlyEmpty` | RedBlackTree/src/RedBlackEventTree.java:491-493 | in an arena that represents a tree, `isNil` of a link holds exactly when the subtree it leads to is empty |
| `EventTree.RedBlackEventTree.constructor` | RedBlackTree/src/RedBlackEventTree.java:21-26 | the new tree is valid and empty, its root the sentinel linked to itself |
| `EventTree.RedBlackEventTree.SetColor` | RedBlackTree/src/RedBlackEventTree.java:182-184 | each `x.color = c` of the fix-ups (also lines 195-196, 210-211, 225, 401-402, 417, 427-428, 434-436, 443-444, 450-452, 465): only that record's colour changes; the tree is the same shape with that node repainted, and its in-order pairs and node order are unchanged |
| `EventTree.RedBlackEventTree.ReplaceChild` | RedBlackTree/src/RedBlackEventTree.java:243-251 | the parent's link to the rotated node, or the root when the parent is `nil`, takes the new subtree root |
| `EventTree.RedBlackEventTree.LeftRotate` | RedBlackTree/src/RedBlackEventTree.java:232-256 | the arena represents the left-rotated tree; in-order pairs unchanged; root updated when the node was the root; `nil` untouched |
| `EventTree.RedBlackEventTree.RightRotate` | RedBlackTree/src/RedBlackEventTree.java:262-283 | the same for the right rotation |
| `EventTree.RedBlackEventTree.InsertNode` | RedBlackTree/src/RedBlackEventTree.java:113-149 | for an absent id: the tree stays a valid red-black BST and the map gains exactly that entry |
| `EventTree.RedBlackEventTree.InsertPosition` | RedBlackTree/src/RedBlackEventTree.java:117-129 | the descent ends at the empty position where the key belongs, below `tempParent`, on the side the subtraction test picks |
| `EventTree.RedBlackEventTree.LinkLeaf` | RedBlackTree/src/RedBlackEventTree.java:131-143 | the new RED leaf is linked at that position (or as root) |
| `EventTree.RedBlackEventTree.AdjustAfterInsert` | RedBlackTree/src/RedBlackEventTree.java:157-226 | from one possible red-red edge at the cursor, the loop leaves a red-black tree with the same in-order pairs |
| `EventTree.RedBlackEventTree.RecolorUncle` | RedBlackTree/src/RedBlackEventTree.java:178-186 | the uncle-RED case on the arena; returns the grandparent as next cursor |
| `EventTree.RedBlackEventTree.RotateOuter` | RedBlackTree/src/RedBlackEventTree.java:192-197 | the LL/RR case on the arena |
| `EventTree.RedBlackEventTree.RotateInner` | RedBlackTree/src/RedBlackEventTree.java:199-204 | the LR/RL case on the arena; returns the old parent as next cursor |
| `EventTree.RedBlackEventTree.ColorRootBlack` | RedBlackTree/src/RedBlackEventTree.java:225 | colouring the root BLACK once the loop exits leaves a red-black tree |
| `EventTree.RedBlackEventTree.BuildTree` | RedBlackTree/src/RedBlackEventTree.java:69-88 | for an id above every stored one: valid tree, map gains exactly that entry, the pair is last in order, and the returned node is the new maximum with a `nil` right child |
| `EventTree.RedBlackEventTree.AttachMax` | RedBlackTree/src/RedBlackEventTree.java:74-79 | the new RED node becomes the right child of the last node in order |
| `EventTree.RedBlackEventTree.LastRecord` | RedBlackTree/src/RedBlackEventTree.java:84-87 | the last node in order has the sentinel as right child |
| `EventTree.RedBlackEventTree.BuildFromSorted` | RedBlackTree/src/RedBlackEventTree.java:39-53 | a BLACK first root followed by buildTree steps on sorted input gives a valid tree whose in-order sequence is exactly the input |
| `EventTree.RedBlackEventTree.DeleteNode` | RedBlackTree/src/RedBlackEventTree.java:324-372 | the tree stays a valid red-black BST and exactly the target's key is removed, every other key keeping its count |
| `EventTree.RedBlackEventTree.NextMinNodeInSubtree` | RedBlackTree/src/RedBlackEventTree.java:474-483 | returns the leftmost node of the right subtree, at the bottom of a left spine, with a `nil` left child |
| `EventTree.RedBlackEventTree.SpliceOut` | RedBlackTree/src/RedBlackEventTree.java:340-358 | the child (possibly `nil`, whose parent link is written) takes the spliced node's place |
| `EventTree.RedBlackEventTree.CopySuccessor` | RedBlackTree/src/RedBlackEventTree.java:362-365 | the target takes the successor's key and count and keeps its colour and links |
| `EventTree.RedBlackEventTree.AdjustAfterDelete` | RedBlackTree/src/RedBlackEventTree.java:379-466 | from one missing black node at the cursor (possibly `nil`), the loop leaves a red-black tree with the same in-order pairs |
| `EventTree.RedBlackEventTree.RedSibling` | RedBlackTree/src/RedBlackEventTree.java:397-411 | case 1 on the arena; returns the new, BLACK sibling |
| `EventTree.RedBlackEventTree.BlackSibling` | RedBlackTree/src/RedBlackEventTree.java:413-456 | case 2 moves the cursor to the parent; case 3 repairs the tree and moves the cursor to the root |
| `EventTree.RedBlackEventTree.RedNephew` | RedBlackTree/src/RedBlackEventTree.java:421-455 | case 3 on either side leaves a red-black tree |
| `EventTree.RedBlackEventTree.NearNephew` | RedBlackTree/src/RedBlackEventTree.java:426-431 | the LR/RL sub-case on the arena: the new sibling is BLACK with a RED far child |
| `EventTree.RedBlackEventTree.FarNephew` | RedBlackTree/src/RedBlackEventTree.java:434-438 | the LL/RR sub-case on the arena: a red-black tree |
| `EventTree.RedBlackEventTree.PaintCursor` | RedBlackTree/src/RedBlackEventTree.java:465 | colouring the final cursor BLACK leaves a red-black tree |
| `EventTree.RedBlackEventTree.FindNode` | RedBlackTree/src/RedBlackEventTree.java:290-318 | returns null exactly when the id is absent (the empty tree included), otherwise the node holding the id and its stored count |
| `EventTree.RedBlackEventTree.Count` | RedBlackTree/src/RedBlackEventTree.java:662-672 | the stored count of the id, or 0 when absent; changes nothing |
| `EventTree.RedBlackEventTree.Next` | RedBlackTree/src/RedBlackEventTree.java:602-624 | the stored (id, count) with the smallest id strictly above the argument, or (0, 0) when none; changes nothing |
| `EventTree.RedBlackEventTree.Prev` | RedBlackTree/src/RedBlackEventTree.java:632-655 | the stored (id, count) with the largest id strictly below the argument, or (0, 0) when none; changes nothing |
| `EventTree.RedBlackEventTree.CountInRange` | RedBlackTree/src/RedBlackEventTree.java:519-540 | the Java-int sum of the counts of the subtree's ids within [start, end] |
| `EventTree.RedBlackEventTree.InRange` | RedBlackTree/src/RedBlackEventTree.java:503-508 | the Java-int sum of the counts of all stored ids in [id1, id2]; 0 when id1 > id2 |
| `EventTree.RedBlackEventTree.SetCount` | RedBlackTree/src/RedBlackEventTree.java:561 | overwriting one node's count keeps the tree valid and changes exactly that id's entry |
| `EventTree.RedBlackEventTree.Increase` | RedBlackTree/src/RedBlackEventTree.java:550-564 | an absent id is inserted with the delta, which is returned; a present id gets old + delta (Java int), returned; other entries unchanged |
| `EventTree.RedBlackEventTree.Reduce` | RedBlackTree/src/RedBlackEventTree.java:574-595 | absent id: 0 and nothing changes; old count <= delta: id removed, 0; otherwise old - delta stored and returned |
| `Scenarios.CounterSession` | RedBlackTree/src/RedBlackEventTree.java:550-595 | increase(10,5), increase(10,3), reduce(10,8) on an empty tree give counts 5, 8, then 0, and next(5) is (0, 0) |
| `Scenarios.BulkSession` | RedBlackTree/src/RedBlackEventTree.java:503-540 | after a bulk build of (1,5), (3,7), (8,2): inRange(2,8) = 9, next(3) = (8,2), prev(8) = (3,7) |

## Left out

- `buildTreeFromFile` (RedBlackTree/src/RedBlackEventTree.java:33-59) is modelled only by its
  effect, `BuildFromSorted`. That covers a BLACK first root, then `buildTree` for every later
  pair. The file stream, `readInt` (lines 96-107) and the swallowed exceptions are I/O.
- `EventTree.RedBlackEventTree.BuildFromSorted` requires a non-empty input. With n = 0 the
  source still reads a first pair from the stream, and that behaviour depends on the file.
- `bbst.java` (command loop, parsing, printing, timing) is not part of this model. Neither is
  the formatting in `toString` (RedBlackNode.java:50, Event.java:43). `Event` is the datatype
  `Shape.Event`.
- The `Color` enum is the datatype `Nodes.Color` with exactly the two values `Red` and `Black`.
- `EventTree.RedBlackEventTree.Increase` requires the id to be in [0, 2^31 - 1]. The source's
  subtraction comparisons misorder ids whose difference overflows (see
  `JavaInt.SubtractionMisorders`). Ids from the bootstrap data have no sign.
- `EventTree.RedBlackEventTree.Reduce` requires an id in [0, 2^31 - 1], for the same reason.
- `EventTree.RedBlackEventTree.Count` requires an id in [0, 2^31 - 1], for the same reason.
- `EventTree.RedBlackEventTree.Next` requires an id in [0, 2^31 - 1], for the same reason.
- `EventTree.RedBlackEventTree.Prev` requires an id in [0, 2^31 - 1], for the same reason.
- `EventTree.RedBlackEventTree.InRange` requires both bounds in [0, 2^31 - 1], for the same
  reason.
- Counts are Java ints, and additions and subtractions wrap as in Java. Deltas may be any Java
  int, as in the code, although callers are expected to pass non-negative ones. `reduce`
  compares `currCount <= count` directly, so it removes the id when the old count does not
  exceed the delta, as the code does.
- Object identity and garbage collection: a removed node's arena slot stays in place,
  unreachable, where Java would reclaim it. No link of the tree names it again.
- Running time (O(log n) per operation, the amortised linear build) is not a functional
  property. `Balance.HeightBound` bounds the height instead.
