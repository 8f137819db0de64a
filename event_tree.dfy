/** `RedBlackEventTree`: an event counter kept as a red-black binary search tree of node records
    with parent links and one shared BLACK sentinel `nil`.

    The Java objects live in an arena: `nodes[i]` is the record of the node with index `i`, a
    link is an index, and index 0 is the sentinel. The ghost field `T` is the tree value the
    arena represents (`Linked`), and `Events()` the map from event id to count it stores. */
module EventTree {
  import opened JavaInt
  import opened Nodes
  import opened Shape
  import opened Balance
  import opened Arena
  import opened Search
  import opened Removal

  class RedBlackEventTree {
    var nodes: seq<RedBlackNode>
    var root: int
    ghost var T: Tree

    /** The arena represents `T` with root `root`. */
    ghost predicate Sound()
      reads this
    {
      Linked(nodes, T, root)
    }

    /** The class invariant: a binary search tree on event ids that is red-black, whose ids are
        non-negative Java ints and whose counts are Java ints. */
    ghost predicate Valid()
      reads this
    {
      Sound() && Sorted(Elements(T)) && IsRedBlack(T) && JavaEntries(Contents(T))
    }

    /** The abstract state: event id to count. */
    ghost function Events(): map<int, int>
      reads this
    {
      Contents(T)
    }

    /** The empty tree: root is the sentinel, whose links all point to itself. */
    constructor()
      ensures Valid() && Events() == map[]
      ensures root == 0 && nodes[0].parent == 0
    {
      nodes := [NewSentinel()];
      root := 0;
      T := Nil;
      new;
      nodes := nodes[root := nodes[root].(leftChild := 0)];
      nodes := nodes[root := nodes[root].(rightChild := 0)];
      nodes := nodes[root := nodes[root].(parent := 0)];
    }

    /** `x.color = c` for the root `x` of the subtree `t` at position `ctx`. */
    method SetColor(x: int, c: Color, ghost ctx: Path, ghost t: Tree)
      requires Sound() && T == Plug(ctx, t) && t.Br? && x == t.id
      modifies this
      ensures 0 < x < |old(nodes)| && nodes == old(nodes)[x := old(nodes)[x].(color := c)]
      ensures root == old(root) && T == Plug(ctx, Paint(t, c)) && Sound()
      ensures Elements(T) == Elements(old(T)) && Order(T) == Order(old(T))
    {
      PlugKeeps(ctx, t, Paint(t, c));
      RelabelRep(nodes, ctx, t, root, c, t.key, t.cnt);
      nodes := nodes[x := nodes[x].(color := c)];
      T := Plug(ctx, Paint(t, c));
    }

    /** The rotations' hand-over of the parent's link: the root index when `parent` is the
        sentinel, otherwise whichever of the parent's links pointed at `child`. */
    method ReplaceChild(parent: int, child: int, newChild: int)
      requires 0 <= parent < |nodes|
      modifies this
      ensures parent == 0 ==> root == newChild && nodes == old(nodes)
      ensures parent != 0 ==> root == old(root) && nodes == old(nodes)[parent :=
        if old(nodes)[parent].leftChild == child then old(nodes)[parent].(leftChild := newChild)
        else old(nodes)[parent].(rightChild := newChild)]
    {
      if IsNil(parent) {
        root := newChild;
      } else if child == nodes[parent].leftChild {
        nodes := nodes[parent := nodes[parent].(leftChild := newChild)];
      } else {
        nodes := nodes[parent := nodes[parent].(rightChild := newChild)];
      }
    }

    /** leftRotate at the root `node` of the subtree `t` at position `ctx`: its right child takes
        its place. */
    method LeftRotate(node: int, ghost ctx: Path, ghost t: Tree)
      requires Sound() && T == Plug(ctx, t) && t.Br? && t.right.Br? && node == t.id
      modifies this
      ensures T == Plug(ctx, RotateLeft(t)) && Sound()
      ensures Elements(T) == Elements(old(T)) && Order(T) == Order(old(T)) && |nodes| == |old(nodes)|
      ensures root == (if ctx.Top? then t.right.id else old(root))
      ensures nodes[0] == old(nodes[0])
    {
      ghost var a := nodes;
      LeftRotatedLinked(a, ctx, t, root);
      var rightChild := nodes[node].rightChild;
      nodes := nodes[node := nodes[node].(rightChild := nodes[rightChild].leftChild)];
      if !IsNil(nodes[rightChild].leftChild) {
        var b := nodes[rightChild].leftChild;
        nodes := nodes[b := nodes[b].(parent := node)];
      }
      nodes := nodes[rightChild := nodes[rightChild].(parent := nodes[node].parent)];
      var parent := nodes[node].parent;
      ReplaceChild(parent, node, rightChild);
      nodes := nodes[rightChild := nodes[rightChild].(leftChild := node)];
      nodes := nodes[node := nodes[node].(parent := rightChild)];
      assert nodes == LeftRotated(a, node);
      RotateLeftKeeps(t);
      PlugKeeps(ctx, t, RotateLeft(t));
      T := Plug(ctx, RotateLeft(t));
    }

    /** rightRotate at the root `node` of the subtree `t` at position `ctx`: its left child takes
        its place. */
    method RightRotate(node: int, ghost ctx: Path, ghost t: Tree)
      requires Sound() && T == Plug(ctx, t) && t.Br? && t.left.Br? && node == t.id
      modifies this
      ensures T == Plug(ctx, RotateRight(t)) && Sound()
      ensures Elements(T) == Elements(old(T)) && Order(T) == Order(old(T)) && |nodes| == |old(nodes)|
      ensures root == (if ctx.Top? then t.left.id else old(root))
      ensures nodes[0] == old(nodes[0])
    {
      ghost var a := nodes;
      RightRotatedLinked(a, ctx, t, root);
      var left := nodes[node].leftChild;
      nodes := nodes[node := nodes[node].(leftChild := nodes[left].rightChild)];
      if !IsNil(nodes[left].rightChild) {
        var b := nodes[left].rightChild;
        nodes := nodes[b := nodes[b].(parent := node)];
      }
      nodes := nodes[left := nodes[left].(parent := nodes[node].parent)];
      nodes := nodes[left := nodes[left].(rightChild := node)];
      var parent := nodes[node].parent;
      ReplaceChild(parent, node, left);
      nodes := nodes[node := nodes[node].(parent := left)];
      assert nodes == RightRotated(a, node);
      RotateRightKeeps(t);
      PlugKeeps(ctx, t, RotateRight(t));
      T := Plug(ctx, RotateRight(t));
    }

    // -------------------------------------------------------------------------------------
    // Insertion

    /** insertNode: a BST descent to an empty position, a fresh RED leaf there, and the fix-up.
        The event id must not be stored yet (increase only inserts absent ids). */
    method InsertNode(newEvent: Event)
      requires Valid() && newEvent.eventId !in Events()
      requires IsId(newEvent.eventId) && IsInt(newEvent.count)
      modifies this
      ensures Valid() && Events() == old(Events())[newEvent.eventId := newEvent.count]
      ensures |nodes| == |old(nodes)| + 1
    {
      var nodeToInsert := |nodes|;
      ghost var a0 := nodes;
      nodes := nodes + [NewNode(newEvent.eventId, newEvent.count)];
      LinkedExtend(a0, nodes, T, root);
      RepIds(a0, T, 0);
      ContentsKeys(T);
      var tempParent, p := InsertPosition(nodes[nodeToInsert].eventId);
      LinkLeaf(nodeToInsert, tempParent, p);
      ghost var leaf := Br(nodeToInsert, Red, newEvent.eventId, newEvent.count, Nil, Nil);
      LeafInsert(p, nodeToInsert, newEvent.eventId, newEvent.count);
      InsertStart(p, leaf);
      AdjustAfterInsert(nodeToInsert, p, leaf);
    }

    /** insertNode's descent: the last node passed (`tempParent`, the sentinel for an empty
        tree) and the empty position below it where the key belongs. */
    method InsertPosition(k: int) returns (tempParent: int, ghost p: Path)
      requires Sound() && Sorted(Elements(T)) && JavaEntries(Contents(T)) && IsId(k) && k !in KeySet(T)
      ensures Plug(p, Nil) == T && tempParent == ParentId(p) && Between(p, k)
      ensures p.Step? ==> (p.frame.side == Left <==> k < p.frame.key) && (p.frame.side == Left <==> Sub(k, p.frame.key) < 0)
    {
      var insertPtr := root;
      tempParent := 0;
      ghost var s := T;
      p := Top;
      while !IsNil(insertPtr)
        invariant Plug(p, s) == T && insertPtr == RootId(s) && tempParent == ParentId(p)
        invariant Between(p, k) && k !in KeySet(s)
        invariant p.Step? ==> (p.frame.side == Left <==> k < p.frame.key) && (p.frame.side == Left <==> Sub(k, p.frame.key) < 0)
        decreases s
      {
        RepAt(nodes, p, s, root);
        PlugSorted(p, s);
        DescendBetween(p, s, k);
        CompareIds(k, s.key);
        tempParent := insertPtr;
        if Sub(k, nodes[insertPtr].eventId) < 0 {
          insertPtr := nodes[insertPtr].leftChild;
          p, s := Down(p, s, Left), s.left;
        } else {
          insertPtr := nodes[insertPtr].rightChild;
          p, s := Down(p, s, Right), s.right;
        }
      }
      RepAt(nodes, p, s, root);
    }

    /** insertNode's linking of the fresh record `nodeToInsert` as a RED leaf at the empty
        position `p` below `tempParent`. */
    method LinkLeaf(nodeToInsert: int, tempParent: int, ghost p: Path)
      requires Sound() && Plug(p, Nil) == T && tempParent == ParentId(p)
      requires 0 < nodeToInsert < |nodes| && nodeToInsert !in Ids(T)
      requires p.Step? ==> (p.frame.side == Left <==> Sub(nodes[nodeToInsert].eventId, p.frame.key) < 0)
      modifies this
      ensures |nodes| == |old(nodes)|
      ensures T == Plug(p, Br(nodeToInsert, Red, old(nodes[nodeToInsert].eventId), old(nodes[nodeToInsert].count), Nil, Nil))
      ensures Sound()
    {
      ghost var a := nodes;
      if p.Step? {
        RepParent(nodes, p, Nil, root);
        IdsPlug(p, Nil);
        assert p.frame.id in PathIds(p);
      }
      RepAt(nodes, p, Nil, root);
      nodes := nodes[nodeToInsert := nodes[nodeToInsert].(parent := tempParent)];
      if IsNil(tempParent) {
        root := nodeToInsert;
      } else if Sub(nodes[nodeToInsert].eventId, nodes[tempParent].eventId) < 0 {
        nodes := nodes[tempParent := nodes[tempParent].(leftChild := nodeToInsert)];
      } else {
        nodes := nodes[tempParent := nodes[tempParent].(rightChild := nodeToInsert)];
      }
      nodes := nodes[nodeToInsert := nodes[nodeToInsert].(leftChild := 0)];
      nodes := nodes[nodeToInsert := nodes[nodeToInsert].(rightChild := 0)];
      nodes := nodes[nodeToInsert := nodes[nodeToInsert].(color := Red)];
      AttachLeaf(a, nodes, p, nodeToInsert, a[nodeToInsert].eventId, a[nodeToInsert].count, old(root), root);
      T := Plug(p, Br(nodeToInsert, Red, a[nodeToInsert].eventId, a[nodeToInsert].count, Nil, Nil));
    }

    /** adjustAfterInsert: repairs the one red-red edge the RED node `node` may have with its
        parent, moving up the tree, and colours the root BLACK. */
    method AdjustAfterInsert(node: int, ghost ctx0: Path, ghost t0: Tree)
      requires Sound() && T == Plug(ctx0, t0) && InsertInv(ctx0, t0) && node == t0.id
      modifies this
      ensures Sound() && IsRedBlack(T)
      ensures Elements(T) == Elements(old(T)) && Order(T) == Order(old(T)) && |nodes| == |old(nodes)|
    {
      var newNode := node;
      ghost var ctx, t := ctx0, t0;
      var uncle := 0;
      var parentIsLeftChild := true;
      RepAt(nodes, ctx, t, root);
      while nodes[nodes[newNode].parent].color == Red
        invariant Sound() && T == Plug(ctx, t) && InsertInv(ctx, t) && newNode == t.id
        invariant Elements(T) == Elements(old(T)) && Order(T) == Order(old(T)) && |nodes| == |old(nodes)|
        invariant 0 < newNode < |nodes| && 0 <= nodes[newNode].parent < |nodes| && nodes[newNode].parent == ParentId(ctx)
        decreases Depth(ctx), if Inner(ctx) then 1 else 0
      {
        assert ctx.Step?;
        ghost var d0 := Depth(ctx);
        InsertStepFacts(nodes, ctx, t, root);
        ghost var fp, fg, rest := ctx.frame, ctx.up.frame, ctx.up.up;
        assert ctx == Step(fp, Step(fg, rest));
        assert Depth(Step(fg, rest)) == 1 + Depth(rest);
        assert d0 == Depth(rest) + 2;
        assert Inner(ctx) <==> fp.side != fg.side;
        if nodes[newNode].parent == nodes[nodes[nodes[newNode].parent].parent].leftChild {
          uncle := nodes[nodes[nodes[newNode].parent].parent].rightChild;
          parentIsLeftChild := true;
        } else {
          uncle := nodes[nodes[nodes[newNode].parent].parent].leftChild;
          parentIsLeftChild := false;
        }
        if nodes[uncle].color == Red {
          newNode := RecolorUncle(newNode, uncle, fp, fg, rest, t);
          ctx, t := rest, Attach(fg.(color := Red, sib := Paint(fg.sib, Black)), Attach(fp.(color := Black), t));
        } else if (parentIsLeftChild && newNode == nodes[nodes[newNode].parent].leftChild)
               || (!parentIsLeftChild && newNode == nodes[nodes[newNode].parent].rightChild) {
          RotateOuter(newNode, parentIsLeftChild, fp, fg, rest, t);
          ctx := Step(fp.(color := Black, sib := Attach(fg.(color := Red), fp.sib)), rest);
        } else {
          newNode := RotateInner(newNode, parentIsLeftChild, fp, fg, rest, t);
          ctx, t := Step(Frame(Opp(fp.side), t.id, t.color, t.key, t.cnt, Child(t, fp.side)), Step(fg, rest)),
                    Attach(fp, Child(t, Opp(fp.side)));
          assert !Inner(ctx);
        }
        RepAt(nodes, ctx, t, root);
      }
      ColorRootBlack(newNode, ctx, t);
    }

    /** adjustAfterInsert's last step, `root.color = BLACK`, once the cursor's parent is BLACK
        (or the sentinel). */
    method ColorRootBlack(newNode: int, ghost ctx: Path, ghost t: Tree)
      requires Sound() && T == Plug(ctx, t) && InsertInv(ctx, t) && newNode == t.id
      requires 0 < newNode < |nodes| && 0 <= nodes[newNode].parent < |nodes| && nodes[newNode].parent == ParentId(ctx)
      requires nodes[nodes[newNode].parent].color != Red
      modifies this
      ensures Sound() && IsRedBlack(T)
      ensures Elements(T) == Elements(old(T)) && Order(T) == Order(old(T)) && |nodes| == |old(nodes)|
    {
      if ctx.Step? {
        RepParent(nodes, ctx, t, root);
      }
      InsertFinish(ctx, t);
      PlugBr(ctx, t);
      RepAt(nodes, Top, T, root);
      PaintRootBlack(T);
      SetColor(root, Black, Top, T);
    }

    /** Uncle RED: parent and uncle BLACK, grandparent RED; returns the grandparent, the next
        cursor. */
    method RecolorUncle(newNode: int, uncle: int, ghost fp: Frame, ghost fg: Frame, ghost rest: Path, ghost t: Tree)
      returns (grandparent: int)
      requires Sound() && T == Plug(Step(fp, Step(fg, rest)), t) && InsertInv(Step(fp, Step(fg, rest)), t)
      requires newNode == t.id && fp.color == Red && ColorOf(fg.sib) == Red && uncle == RootId(fg.sib)
      modifies this
      ensures Sound() && grandparent == fg.id
      ensures T == Plug(rest, Attach(fg.(color := Red, sib := Paint(fg.sib, Black)), Attach(fp.(color := Black), t)))
      ensures InsertInv(rest, Attach(fg.(color := Red, sib := Paint(fg.sib, Black)), Attach(fp.(color := Black), t)))
      ensures Elements(T) == Elements(old(T)) && Order(T) == Order(old(T)) && |nodes| == |old(nodes)|
    {
      ghost var pt := Attach(fp, t);
      InsertStepFacts(nodes, Step(fp, Step(fg, rest)), t, root);
      var parent := nodes[newNode].parent;
      grandparent := nodes[parent].parent;
      SetColor(parent, Black, Step(fg, rest), pt);
      ghost var pt' := Attach(fp.(color := Black), t);
      SetColor(uncle, Black, Step(Flip(fg, pt'), rest), fg.sib);
      ghost var g := Attach(fg.(sib := Paint(fg.sib, Black)), pt');
      SetColor(grandparent, Red, rest, g);
      InsertUncleRed(fp, fg, rest, t);
    }

    /** Uncle BLACK, LL or RR: parent BLACK, grandparent RED, and a rotation at the grandparent
        away from the cursor's side. */
    method RotateOuter(newNode: int, parentIsLeftChild: bool, ghost fp: Frame, ghost fg: Frame, ghost rest: Path, ghost t: Tree)
      requires Sound() && T == Plug(Step(fp, Step(fg, rest)), t) && InsertInv(Step(fp, Step(fg, rest)), t)
      requires newNode == t.id && fp.color == Red && ColorOf(fg.sib) == Black
      requires fp.side == fg.side && (parentIsLeftChild <==> fg.side == Left)
      modifies this
      ensures Sound() && T == Plug(Step(fp.(color := Black, sib := Attach(fg.(color := Red), fp.sib)), rest), t)
      ensures InsertInv(Step(fp.(color := Black, sib := Attach(fg.(color := Red), fp.sib)), rest), t)
      ensures Elements(T) == Elements(old(T)) && Order(T) == Order(old(T)) && |nodes| == |old(nodes)|
    {
      ghost var pt := Attach(fp, t);
      InsertStepFacts(nodes, Step(fp, Step(fg, rest)), t, root);
      var parent := nodes[newNode].parent;
      var grandparent := nodes[parent].parent;
      SetColor(parent, Black, Step(fg, rest), pt);
      ghost var pt' := Attach(fp.(color := Black), t);
      SetColor(grandparent, Red, rest, Attach(fg, pt'));
      ghost var g := Attach(fg.(color := Red), pt');
      if parentIsLeftChild {
        RightRotate(grandparent, rest, g);
      } else {
        LeftRotate(grandparent, rest, g);
      }
      InsertUncleBlackOuter(fp, fg, rest, t);
    }

    /** Uncle BLACK, LR or RL: a rotation at the parent toward the outside; the parent, now
        below the cursor's old node, is the next cursor. */
    method RotateInner(newNode: int, parentIsLeftChild: bool, ghost fp: Frame, ghost fg: Frame, ghost rest: Path, ghost t: Tree)
      returns (parent: int)
      requires Sound() && T == Plug(Step(fp, Step(fg, rest)), t) && InsertInv(Step(fp, Step(fg, rest)), t)
      requires newNode == t.id && fp.color == Red && ColorOf(fg.sib) == Black
      requires fp.side != fg.side && (parentIsLeftChild <==> fg.side == Left)
      modifies this
      ensures parent == fp.id && Sound()
      ensures T == Plug(Step(Frame(Opp(fp.side), t.id, t.color, t.key, t.cnt, Child(t, fp.side)), Step(fg, rest)),
                        Attach(fp, Child(t, Opp(fp.side))))
      ensures InsertInv(Step(Frame(Opp(fp.side), t.id, t.color, t.key, t.cnt, Child(t, fp.side)), Step(fg, rest)),
                        Attach(fp, Child(t, Opp(fp.side))))
      ensures Elements(T) == Elements(old(T)) && Order(T) == Order(old(T)) && |nodes| == |old(nodes)|
    {
      ghost var pt := Attach(fp, t);
      RepAt(nodes, Step(fp, Step(fg, rest)), t, root);
      parent := nodes[newNode].parent;
      if parentIsLeftChild {
        LeftRotate(parent, Step(fg, rest), pt);
      } else {
        RightRotate(parent, Step(fg, rest), pt);
      }
      InsertUncleBlackInner(fp, fg, rest, t);
    }

    // -------------------------------------------------------------------------------------
    // Sorted bulk build

    /** buildTree: one step of the linear-time build from sorted input. The new event's id is
        above every stored one and `insertPtr` is the last node in order; the new node becomes
        its RED right child, the insertion fix-up runs, and the new node, now the last in order
        with a sentinel right child, is returned as the next step's `insertPtr`. */
    method BuildTree(insertPtr: int, evid: int, count: int) returns (next: int)
      requires Valid() && T.Br? && insertPtr == Order(T)[|Order(T)| - 1]
      requires forall k :: k in Events() ==> k < evid
      requires IsId(evid) && IsInt(count)
      modifies this
      ensures Valid() && Events() == old(Events())[evid := count]
      ensures Order(T) == old(Order(T)) + [next] && |nodes| == |old(nodes)| + 1
      ensures Elements(T) == old(Elements(T)) + [Event(evid, count)]
      ensures 0 < next < |nodes| && nodes[next].rightChild == 0
    {
      ghost var q := EndRight(Top, T);
      forall x | x in Contents(T) ensures x < evid {
        assert x in Events();
      }
      MaxBetween(T, evid);
      next := AttachMax(insertPtr, evid, count, q);
      ghost var leaf := Br(next, Red, evid, count, Nil, Nil);
      LeafInsert(q, next, evid, count);
      RightSpineEnd(q, leaf);
      InsertStart(q, leaf);
      AdjustAfterInsert(next, q, leaf);
      LastRecord(next);
    }

    /** The effect of buildTreeFromFile on a fresh tree: the first event becomes the BLACK root
        with sentinel links, and buildTree adds every later one under the previous one, so a
        non-empty list of events in increasing id order yields a valid tree storing exactly
        them, in that order. */
    method BuildFromSorted(events: seq<Event>)
      requires Valid() && T.Nil? && |events| > 0 && Sorted(events)
      requires forall i :: 0 <= i < |events| ==> IsId(events[i].eventId) && IsInt(events[i].count)
      modifies this
      ensures Valid() && Elements(T) == events && Events() == MapOf(events)
    {
      ghost var a0 := nodes;
      var next := |nodes|;
      nodes := nodes + [NewNode(events[0].eventId, events[0].count)];
      root := next;
      nodes := nodes[next := nodes[next].(leftChild := 0)];
      nodes := nodes[next := nodes[next].(rightChild := 0)];
      nodes := nodes[next := nodes[next].(parent := 0)];
      T := Br(next, Black, events[0].eventId, events[0].count, Nil, Nil);
      assert nodes[0] == a0[0] && nodes[next] == RedBlackNode(0, 0, 0, Black, events[0].eventId, events[0].count);
      assert SentinelOK(nodes[0]);
      assert Rep(nodes, T, 0);
      assert Unique(T);
      assert Elements(T) == events[..1];
      var tempPtr := root;
      var i := 1;
      while i < |events|
        invariant 1 <= i <= |events|
        invariant Valid() && T.Br? && Elements(T) == events[..i]
        invariant tempPtr == Order(T)[|Order(T)| - 1]
      {
        PrefixBelow(events, i);
        tempPtr := BuildTree(tempPtr, events[i].eventId, events[i].count);
        assert events[..i + 1] == events[..i] + [events[i]];
        i := i + 1;
      }
      assert events[..i] == events;
    }

    /** buildTree's attachment: a fresh record for the event becomes the right child of the last
        node `insertPtr`, with sentinel children, parent `insertPtr` and colour RED. */
    method AttachMax(insertPtr: int, evid: int, count: int, ghost q: Path) returns (next: int)
      requires Sound() && Plug(q, Nil) == T && q.Step? && q.frame.side == Right && insertPtr == q.frame.id
      modifies this
      ensures next == |old(nodes)| && |nodes| == next + 1
      ensures T == Plug(q, Br(next, Red, evid, count, Nil, Nil)) && Sound()
    {
      ghost var a0 := nodes;
      next := |nodes|;
      nodes := nodes + [NewNode(evid, count)];
      LinkedExtend(a0, nodes, T, root);
      RepIds(a0, T, 0);
      ghost var a := nodes;
      RepParent(a, q, Nil, root);
      nodes := nodes[insertPtr := nodes[insertPtr].(rightChild := next)];
      nodes := nodes[next := nodes[next].(leftChild := 0)];
      nodes := nodes[next := nodes[next].(rightChild := 0)];
      nodes := nodes[next := nodes[next].(parent := insertPtr)];
      nodes := nodes[next := nodes[next].(color := Red)];
      AttachLeaf(a, nodes, q, next, evid, count, root, root);
      T := Plug(q, Br(next, Red, evid, count, Nil, Nil));
    }

    /** The last node in order has the sentinel as its right child. */
    lemma LastRecord(n: int)
      requires Sound() && T.Br? && n == Order(T)[|Order(T)| - 1]
      ensures 0 < n < |nodes| && nodes[n].rightChild == 0
    {
      EndRightFacts(Top, T);
      RepParent(nodes, EndRight(Top, T), Nil, root);
    }

    // -------------------------------------------------------------------------------------
    // Deletion

    /** deleteNode: splices out the node itself when it has at most one real child, otherwise
        its successor after copying the successor's key and count into it; a BLACK node spliced
        out leaves its position one black node short, which adjustAfterDelete repairs. */
    method DeleteNode(nodeToDel: int, ghost p: Path, ghost z: Tree)
      requires Valid() && T == Plug(p, z) && z.Br? && nodeToDel == z.id
      modifies this
      ensures Valid() && Events() == old(Events()) - {z.key}
      ensures |nodes| == |old(nodes)|
    {
      RepAt(nodes, p, z, root);
      var childOfDeletedNode := 0;
      var delPtr := 0;
      // py: the spliced-out node's position before the copy, q: after it
      ghost var py, q, l, y := p, p, Top, z;
      if IsNil(nodes[nodeToDel].leftChild) || IsNil(nodes[nodeToDel].rightChild) {
        delPtr := nodeToDel;
        SpliceDelete(p, z);
      } else {
        delPtr, l, y := NextMinNodeInSubtree(nodeToDel, p, z);
        py, q := SpinePath(p, z, l, z.key, z.cnt), SpinePath(p, z, l, y.key, y.cnt);
        SpinePlug(p, z, l, z.key, z.cnt, y);
        SuccessorDelete(p, z, l, y);
        assert ParentId(py) == ParentId(q);
      }
      ghost var x := SpliceChild(y);
      DeleteStart(q, y);
      childOfDeletedNode := SpliceOut(delPtr, py, y);
      if delPtr != nodeToDel {
        CopySuccessor(nodeToDel, delPtr, p, z, l, y);
      }
      assert T == Plug(q, x) && Sorted(Elements(T)) && Contents(T) == old(Events()) - {z.key};
      if nodes[delPtr].color == Black {
        AdjustAfterDelete(childOfDeletedNode, q, x);
      }
    }

    /** nextMinNodeInSubtree: the leftmost node of the right subtree of `node`, found by
        following left links; the sentinel when the right subtree is empty. */
    method NextMinNodeInSubtree(node: int, ghost p: Path, ghost z: Tree) returns (rightTree: int, ghost l: Path, ghost y: Tree)
      requires Sound() && T == Plug(p, z) && z.Br? && node == z.id
      ensures Plug(l, y) == z.right && LeftSpine(l) && rightTree == RootId(y)
      ensures y.Br? ==> y.left.Nil? && rightTree != node
      ensures y.Nil? ==> l.Top?
    {
      RepAt(nodes, p, z, root);
      UniquePlug(p, z);
      rightTree := nodes[node].rightChild;
      l, y := Top, z.right;
      while !IsNil(nodes[rightTree].leftChild)
        invariant Plug(l, y) == z.right && LeftSpine(l) && rightTree == RootId(y)
        invariant y.Nil? ==> l.Top?
        invariant Rep(nodes, y, if l.Top? then z.id else l.frame.id) && Ids(y) <= Ids(z.right)
        decreases y
      {
        RepIds(nodes, y, if l.Top? then z.id else l.frame.id);
        rightTree := nodes[rightTree].leftChild;
        l, y := Step(Frame(Left, y.id, y.color, y.key, y.cnt, y.right), l), y.left;
      }
      RepIds(nodes, y, if l.Top? then z.id else l.frame.id);
      if y.Br? {
        assert y.id in Ids(z.right);
      }
    }

    /** deleteNode's splice of `delPtr`, a node with at most one real child: the child (or the
        sentinel) takes `delPtr`'s parent, and the parent's link, or the root, takes the child. */
    method SpliceOut(delPtr: int, ghost py: Path, ghost y: Tree) returns (childOfDeletedNode: int)
      requires Sound() && T == Plug(py, y) && y.Br? && (y.left.Nil? || y.right.Nil?) && delPtr == y.id
      modifies this
      ensures childOfDeletedNode == RootId(SpliceChild(y)) && T == Plug(py, SpliceChild(y)) && Sound()
      ensures 0 <= childOfDeletedNode < |nodes| && nodes[childOfDeletedNode].parent == ParentId(py)
      ensures 0 < delPtr < |old(nodes)| == |nodes| && nodes[delPtr] == old(nodes)[delPtr]
      ensures nodes[delPtr] == RedBlackNode(RootId(y.left), RootId(y.right), ParentId(py), y.color, y.key, y.cnt)
    {
      ghost var a := nodes;
      SplicedLinked(a, py, y, root);
      if !IsNil(nodes[delPtr].leftChild) {
        childOfDeletedNode := nodes[delPtr].leftChild;
      } else {
        childOfDeletedNode := nodes[delPtr].rightChild;
      }
      nodes := nodes[childOfDeletedNode := nodes[childOfDeletedNode].(parent := nodes[delPtr].parent)];
      if IsNil(nodes[delPtr].parent) {
        root := childOfDeletedNode;
      } else if delPtr == nodes[nodes[delPtr].parent].leftChild {
        nodes := nodes[nodes[delPtr].parent := nodes[nodes[delPtr].parent].(leftChild := childOfDeletedNode)];
      } else if delPtr == nodes[nodes[delPtr].parent].rightChild {
        nodes := nodes[nodes[delPtr].parent := nodes[nodes[delPtr].parent].(rightChild := childOfDeletedNode)];
      }
      assert nodes == Spliced(a, delPtr);
      T := Plug(py, SpliceChild(y));
    }

    /** deleteNode's copy of the spliced-out successor `delPtr`'s key and count into
        `nodeToDel`, which keeps its colour and links. */
    method CopySuccessor(nodeToDel: int, delPtr: int, ghost p: Path, ghost z: Tree, ghost l: Path, ghost y: Tree)
      requires Sound() && z.Br? && y.Br? && nodeToDel == z.id && delPtr == y.id && nodeToDel != delPtr
      requires T == Plug(SpinePath(p, z, l, z.key, z.cnt), y.right)
      requires 0 < delPtr < |nodes| && nodes[delPtr].eventId == y.key && nodes[delPtr].count == y.cnt
      modifies this
      ensures Sound() && T == Plug(SpinePath(p, z, l, y.key, y.cnt), y.right) && root == old(root)
      ensures 0 < nodeToDel < |old(nodes)| && nodes == old(nodes)[nodeToDel := old(nodes)[nodeToDel].(eventId := y.key, count := y.cnt)]
    {
      SpinePlug(p, z, l, z.key, z.cnt, y.right);
      SpinePlug(p, z, l, y.key, y.cnt, y.right);
      ghost var a, z1 := nodes, z.(right := Plug(l, y.right));
      RelabelRep(a, p, z1, root, z.color, y.key, y.cnt);
      nodes := nodes[nodeToDel := nodes[nodeToDel].(eventId := nodes[delPtr].eventId)];
      nodes := nodes[nodeToDel := nodes[nodeToDel].(count := nodes[delPtr].count)];
      assert nodes == a[nodeToDel := a[nodeToDel].(color := z.color, eventId := y.key, count := y.cnt)];
      assert z1.(color := z.color, key := y.key, cnt := y.cnt) == z.(key := y.key, cnt := y.cnt, right := Plug(l, y.right));
      T := Plug(SpinePath(p, z, l, y.key, y.cnt), y.right);
    }

    /** adjustAfterDelete: the cursor `node` starts at the child that took the spliced-out BLACK
        node's place and climbs while it is a BLACK non-root; each round applies case 1 (RED
        sibling) and then case 2 (BLACK sibling with BLACK children, the cursor moves up) or
        case 3 (a RED nephew, rotations finish the repair and the cursor jumps to the root).
        The cursor may be the sentinel, whose parent link deleteNode has set. */
    method AdjustAfterDelete(node0: int, ghost ctx0: Path, ghost t0: Tree)
      requires Sound() && T == Plug(ctx0, t0) && DeleteInv(ctx0, t0) && node0 == RootId(t0)
      requires 0 <= node0 < |nodes| && nodes[node0].parent == ParentId(ctx0)
      modifies this
      ensures Sound() && IsRedBlack(T)
      ensures Elements(T) == Elements(old(T)) && |nodes| == |old(nodes)|
    {
      var node := node0;
      ghost var ctx, t := ctx0, t0;
      var sibling := 0;
      var siblingIsLeftChild := false;
      DeleteGuard(nodes, ctx, t, root);
      while node != root && nodes[node].color == Black
        invariant Sound() && T == Plug(ctx, t) && DeleteInv(ctx, t) && node == RootId(t)
        invariant 0 <= node < |nodes| && nodes[node].parent == ParentId(ctx)
        invariant (node != root <==> ctx.Step?) && nodes[node].color == ColorOf(t)
        invariant Elements(T) == Elements(old(T)) && |nodes| == |old(nodes)|
        decreases Depth(ctx), Weight(ColorOf(t))
      {
        ghost var d0 := Depth(ctx);
        ghost var fp, rest := ctx.frame, ctx.up;
        DeleteStepFacts(nodes, ctx, t, root);
        if node == nodes[nodes[node].parent].leftChild {
          siblingIsLeftChild := false;
          sibling := nodes[nodes[node].parent].rightChild;
        } else {
          siblingIsLeftChild := true;
          sibling := nodes[nodes[node].parent].leftChild;
        }
        if nodes[sibling].color == Red {
          sibling := RedSibling(node, sibling, siblingIsLeftChild, fp, rest, t);
          ghost var s, d := fp.sib, fp.side;
          rest := Step(Frame(d, s.id, Black, s.key, s.cnt, Child(s, Opp(d))), rest);
          fp := Frame(d, fp.id, Red, fp.key, fp.cnt, Child(s, d));
          assert Depth(rest) == d0;
        }
        node, ctx, t := BlackSibling(node, sibling, siblingIsLeftChild, fp, rest, t);
        DeleteGuard(nodes, ctx, t, root);
      }
      PaintCursor(node, ctx, t);
    }

    /** adjustAfterDelete, case 1: the RED sibling becomes BLACK, the parent RED, and a rotation
        at the parent toward the cursor gives the cursor a BLACK sibling, the returned one. */
    method RedSibling(node: int, sibling: int, siblingIsLeftChild: bool, ghost fp: Frame, ghost rest: Path, ghost t: Tree)
      returns (newSibling: int)
      requires Sound() && T == Plug(Step(fp, rest), t) && DeleteInv(Step(fp, rest), t) && ColorOf(t) == Black
      requires node == RootId(t) && 0 <= node < |nodes| && nodes[node].parent == fp.id
      requires ColorOf(fp.sib) == Red && sibling == RootId(fp.sib) && (siblingIsLeftChild <==> fp.side == Right)
      modifies this
      ensures fp.sib.Br?
      ensures var s, d := fp.sib, fp.side;
        var fp' := Frame(d, fp.id, Red, fp.key, fp.cnt, Child(s, d));
        var rest' := Step(Frame(d, s.id, Black, s.key, s.cnt, Child(s, Opp(d))), rest);
        && Sound() && T == Plug(Step(fp', rest'), t) && DeleteInv(Step(fp', rest'), t)
        && newSibling == RootId(fp'.sib) && ColorOf(fp'.sib) == Black
        && 0 <= node < |nodes| && nodes[node].parent == fp.id
      ensures Elements(T) == Elements(old(T)) && |nodes| == |old(nodes)|
    {
      DeleteStepFacts(nodes, Step(fp, rest), t, root);
      DeleteCase1(fp, rest, t);
      ghost var s, d := fp.sib, fp.side;
      ghost var fp' := Frame(d, fp.id, Red, fp.key, fp.cnt, Child(s, d));
      ghost var rest' := Step(Frame(d, s.id, Black, s.key, s.cnt, Child(s, Opp(d))), rest);
      var parent := nodes[node].parent;
      FlipAttach(fp, t, s);
      SetColor(sibling, Black, Step(Flip(fp, t), rest), s);
      ghost var q := Attach(fp.(sib := Paint(s, Black)), t);
      SetColor(parent, Red, rest, q);
      q := Attach(fp.(color := Red, sib := Paint(s, Black)), t);
      if siblingIsLeftChild {
        RightRotate(parent, rest, q);
        CursorParent(node, fp', rest', t);
        newSibling := nodes[nodes[node].parent].leftChild;
      } else {
        LeftRotate(parent, rest, q);
        CursorParent(node, fp', rest', t);
        newSibling := nodes[nodes[node].parent].rightChild;
      }
    }

    /** The cursor's parent link and the parent's record, the sentinel's link included, when the
        sentinel's parent link already names the parent. */
    lemma CursorParent(node: int, fp: Frame, rest: Path, t: Tree)
      requires Sound() && T == Plug(Step(fp, rest), t) && node == RootId(t)
      requires 0 < |nodes| && (node == 0 ==> nodes[0].parent == fp.id)
      ensures 0 <= node < |nodes| && nodes[node].parent == fp.id && 0 < fp.id < |nodes|
      ensures nodes[fp.id] == (if fp.side == Left then RedBlackNode(node, RootId(fp.sib), ParentId(rest), fp.color, fp.key, fp.cnt)
                               else RedBlackNode(RootId(fp.sib), node, ParentId(rest), fp.color, fp.key, fp.cnt))
    {
      RepParent(nodes, Step(fp, rest), t, root);
      RepAt(nodes, Step(fp, rest), t, root);
    }

    /** adjustAfterDelete with a BLACK sibling: case 2 when both its children are BLACK
        (sibling RED, the cursor moves to the parent), case 3 otherwise (the cursor moves to the
        root, the tree repaired). */
    method BlackSibling(node: int, sibling: int, siblingIsLeftChild: bool, ghost fp: Frame, ghost rest: Path, ghost t: Tree)
      returns (newNode: int, ghost ctx: Path, ghost t': Tree)
      requires Sound() && T == Plug(Step(fp, rest), t) && DeleteInv(Step(fp, rest), t) && ColorOf(t) == Black
      requires node == RootId(t) && 0 <= node < |nodes| && nodes[node].parent == fp.id
      requires ColorOf(fp.sib) == Black && sibling == RootId(fp.sib) && (siblingIsLeftChild <==> fp.side == Right)
      modifies this
      ensures Sound() && T == Plug(ctx, t') && DeleteInv(ctx, t') && newNode == RootId(t')
      ensures 0 <= newNode < |nodes| && nodes[newNode].parent == ParentId(ctx)
      ensures (ctx == rest && ColorOf(t') == fp.color) || ctx.Top?
      ensures Elements(T) == Elements(old(T)) && |nodes| == |old(nodes)|
    {
      DeleteStepFacts(nodes, Step(fp, rest), t, root);
      ghost var s := fp.sib;
      if nodes[nodes[sibling].leftChild].color == Black && nodes[nodes[sibling].rightChild].color == Black {
        FlipAttach(fp, t, s);
        SetColor(sibling, Red, Step(Flip(fp, t), rest), s);
        DeleteCase2(fp, rest, t);
        newNode := nodes[node].parent;
        ctx, t' := rest, Attach(fp.(sib := Paint(s, Red)), t);
        RepAt(nodes, ctx, t', root);
      } else {
        RedNephew(node, sibling, siblingIsLeftChild, fp, rest, t);
        newNode := root;
        ctx, t' := Top, T;
        RepAt(nodes, ctx, t', root);
      }
    }

    /** adjustAfterDelete, case 3: when only the near nephew is RED (LR, RL) a rotation at the
        sibling first makes the far one RED (LL, RR); the final recolouring and rotation at the
        parent repair the tree. */
    method RedNephew(node: int, sibling: int, siblingIsLeftChild: bool, ghost fp: Frame, ghost rest: Path, ghost t: Tree)
      requires Sound() && T == Plug(Step(fp, rest), t) && DeleteInv(Step(fp, rest), t) && ColorOf(t) == Black
      requires node == RootId(t) && 0 <= node < |nodes| && nodes[node].parent == fp.id
      requires ColorOf(fp.sib) == Black && fp.sib.Br? && sibling == fp.sib.id && (siblingIsLeftChild <==> fp.side == Right)
      requires ColorOf(fp.sib.left) == Red || ColorOf(fp.sib.right) == Red
      modifies this
      ensures Sound() && IsRedBlack(T) && T.Br?
      ensures Elements(T) == Elements(old(T)) && |nodes| == |old(nodes)|
    {
      DeleteStepFacts(nodes, Step(fp, rest), t, root);
      var sib := sibling;
      ghost var f := fp;
      if siblingIsLeftChild {
        if nodes[nodes[sibling].leftChild].color == Black {
          sib, f := NearNephew(node, sibling, siblingIsLeftChild, fp, rest, t);
        }
        FarNephew(node, sib, siblingIsLeftChild, f, rest, t);
      } else {
        if nodes[nodes[sibling].rightChild].color == Black {
          sib, f := NearNephew(node, sibling, siblingIsLeftChild, fp, rest, t);
        }
        FarNephew(node, sib, siblingIsLeftChild, f, rest, t);
      }
    }

    /** Case 3, near nephew RED and far one BLACK: sibling RED, near nephew BLACK and a rotation
        at the sibling away from the cursor; the near nephew is the new, BLACK sibling with a
        RED far child. */
    method NearNephew(node: int, sibling: int, siblingIsLeftChild: bool, ghost fp: Frame, ghost rest: Path, ghost t: Tree)
      returns (newSibling: int, ghost fp': Frame)
      requires Sound() && T == Plug(Step(fp, rest), t) && DeleteInv(Step(fp, rest), t) && ColorOf(t) == Black
      requires node == RootId(t) && 0 <= node < |nodes| && nodes[node].parent == fp.id
      requires ColorOf(fp.sib) == Black && fp.sib.Br? && sibling == fp.sib.id && (siblingIsLeftChild <==> fp.side == Right)
      requires ColorOf(Child(fp.sib, fp.side)) == Red && ColorOf(Child(fp.sib, Opp(fp.side))) == Black
      modifies this
      ensures fp' == fp.(sib := fp'.sib) && fp'.sib.Br? && newSibling == fp'.sib.id
      ensures Sound() && T == Plug(Step(fp', rest), t) && DeleteInv(Step(fp', rest), t)
      ensures ColorOf(fp'.sib) == Black && ColorOf(Child(fp'.sib, Opp(fp.side))) == Red
      ensures 0 <= node < |nodes| && nodes[node].parent == fp.id
      ensures Elements(T) == Elements(old(T)) && |nodes| == |old(nodes)|
    {
      DeleteStepFacts(nodes, Step(fp, rest), t, root);
      DeleteCase3Near(fp, rest, t);
      ghost var s, d := fp.sib, fp.side;
      ghost var sp := Step(Flip(fp, t), rest);
      ghost var s1 := WithChild(s.(color := Red), d, Paint(Child(s, d), Black));
      fp' := fp.(sib := Rotate(s1, Opp(d)));
      FlipAttach(fp, t, s);
      FlipAttach(fp, t, Rotate(s1, Opp(d)));
      SetColor(sibling, Red, sp, s);
      if siblingIsLeftChild {
        var near := nodes[sibling].rightChild;
        SetColor(near, Black, Down(sp, s.(color := Red), Right), s.right);
        LeftRotate(sibling, sp, s1);
        CursorParent(node, fp', rest, t);
        newSibling := nodes[nodes[node].parent].leftChild;
      } else {
        var near := nodes[sibling].leftChild;
        SetColor(near, Black, Down(sp, s.(color := Red), Left), s.left);
        RightRotate(sibling, sp, s1);
        CursorParent(node, fp', rest, t);
        newSibling := nodes[nodes[node].parent].rightChild;
      }
    }

    /** Case 3, far nephew RED: far nephew BLACK, the sibling takes the parent's colour, the
        parent BLACK, and a rotation at the parent toward the cursor leaves a red-black tree. */
    method FarNephew(node: int, sibling: int, siblingIsLeftChild: bool, ghost fp: Frame, ghost rest: Path, ghost t: Tree)
      requires Sound() && T == Plug(Step(fp, rest), t) && DeleteInv(Step(fp, rest), t) && ColorOf(t) == Black
      requires node == RootId(t) && 0 <= node < |nodes| && nodes[node].parent == fp.id
      requires ColorOf(fp.sib) == Black && fp.sib.Br? && sibling == fp.sib.id && (siblingIsLeftChild <==> fp.side == Right)
      requires ColorOf(Child(fp.sib, Opp(fp.side))) == Red
      modifies this
      ensures Sound() && IsRedBlack(T) && T.Br?
      ensures Elements(T) == Elements(old(T)) && |nodes| == |old(nodes)|
    {
      DeleteStepFacts(nodes, Step(fp, rest), t, root);
      DeleteCase3Far(fp, rest, t);
      ghost var s, d := fp.sib, fp.side;
      ghost var sp := Step(Flip(fp, t), rest);
      ghost var s1 := WithChild(s.(color := fp.color), Opp(d), Paint(Child(s, Opp(d)), Black));
      ghost var q := Attach(fp.(color := Black, sib := s1), t);
      var parent := nodes[node].parent;
      var parentColor := nodes[parent].color;
      FlipAttach(fp, t, s);
      if siblingIsLeftChild {
        var far := nodes[sibling].leftChild;
        SetColor(far, Black, Down(sp, s, Left), s.left);
        SetColor(sibling, parentColor, sp, s.(left := Paint(s.left, Black)));
        SetColor(parent, Black, rest, Attach(fp.(sib := s1), t));
        RightRotate(parent, rest, q);
      } else {
        var far := nodes[sibling].rightChild;
        SetColor(far, Black, Down(sp, s, Right), s.right);
        SetColor(sibling, parentColor, sp, s.(right := Paint(s.right, Black)));
        SetColor(parent, Black, rest, Attach(fp.(sib := s1), t));
        LeftRotate(parent, rest, q);
      }
      PlugBr(rest, Rotate(q, d));
    }

    /** adjustAfterDelete's last step, `node.color = BLACK`, once the cursor is the root or RED
        (a write to the sentinel, which is BLACK already, changes nothing). */
    method PaintCursor(node: int, ghost ctx: Path, ghost t: Tree)
      requires Sound() && T == Plug(ctx, t) && DeleteInv(ctx, t) && node == RootId(t)
      requires ctx.Top? || ColorOf(t) == Red
      modifies this
      ensures Sound() && IsRedBlack(T)
      ensures Elements(T) == Elements(old(T)) && |nodes| == |old(nodes)|
    {
      DeleteFinish(ctx, t);
      RepAt(nodes, ctx, t, root);
      if t.Br? {
        RelabelRep(nodes, ctx, t, root, Black, t.key, t.cnt);
      }
      nodes := nodes[node := nodes[node].(color := Black)];
      T := Plug(ctx, Paint(t, Black));
      PlugKeeps(ctx, t, Paint(t, Black));
    }

    // -------------------------------------------------------------------------------------
    // Queries

    /** findNode: the index of the node with the event's id, or NULL when there is none (the
        empty tree included). */
    method FindNode(event: Event) returns (n: int, ghost p: Path, ghost s: Tree)
      requires Valid() && IsId(event.eventId)
      ensures n == NULL <==> event.eventId !in Events()
      ensures n != NULL ==> s.Br? && Plug(p, s) == T && n == s.id && s.key == event.eventId
      ensures n != NULL ==> 0 < n < |nodes| && nodes[n].eventId == event.eventId && nodes[n].count == Events()[event.eventId]
    {
      var eventNode := NewNode(event.eventId, event.count);
      ContentsKeys(T);
      p, s := Top, T;
      if IsNil(root) {
        RepAt(nodes, p, s, root);
        return NULL, p, s;
      }
      var searchPtr := root;
      while !IsNil(searchPtr)
        invariant Plug(p, s) == T && searchPtr == RootId(s)
        invariant eventNode.eventId in KeySet(T) ==> eventNode.eventId in KeySet(s)
        decreases s
      {
        RepAt(nodes, p, s, root);
        PlugSorted(p, s);
        SearchStep(p, s, eventNode.eventId);
        CompareIds(s.key, eventNode.eventId);
        if Sub(nodes[searchPtr].eventId, eventNode.eventId) == 0 {
          return searchPtr, p, s;
        }
        if Sub(nodes[searchPtr].eventId, eventNode.eventId) < 0 {
          searchPtr := nodes[searchPtr].rightChild;
          p, s := Down(p, s, Right), s.right;
        } else {
          searchPtr := nodes[searchPtr].leftChild;
          p, s := Down(p, s, Left), s.left;
        }
      }
      RepAt(nodes, p, s, root);
      return NULL, p, s;
    }

    /** count: the stored count of the event id, or 0 when it is absent. */
    method Count(evId: int) returns (r: int)
      requires Valid() && IsId(evId)
      ensures r == (if evId in Events() then Events()[evId] else 0)
    {
      var node := Event(evId, 0);
      var foundNode, _, _ := FindNode(node);
      if foundNode == NULL {
        return 0;
      } else {
        return nodes[foundNode].count;
      }
    }

    /** next: the stored event with the smallest id strictly above `eventId`, or (0, 0) when
        there is none. */
    method Next(eventId: int) returns (e: Event)
      requires Valid() && IsId(eventId)
      ensures (forall j :: j in Events() ==> j <= eventId) ==> e == Event(0, 0)
      ensures (exists j :: j in Events() && eventId < j) ==>
        && e.eventId in Events() && eventId < e.eventId && Events()[e.eventId] == e.count
        && (forall j :: j in Events() && eventId < j ==> e.eventId <= j)
    {
      var event := Event(eventId, 0);
      var rootPtr := root;
      var tempLargest := NULL;
      ghost var p, s := Top, T;
      ContentsKeys(T);
      while !IsNil(rootPtr)
        invariant Plug(p, s) == T && rootPtr == RootId(s)
        invariant tempLargest != NULL ==>
          && 0 < tempLargest < |nodes| && nodes[tempLargest].eventId in Events()
          && event.eventId < nodes[tempLargest].eventId
          && Events()[nodes[tempLargest].eventId] == nodes[tempLargest].count
          && (forall j :: j in KeySet(s) ==> j < nodes[tempLargest].eventId)
        invariant forall j :: j in KeySet(T) && event.eventId < j && j !in KeySet(s) ==>
          tempLargest != NULL && nodes[tempLargest].eventId <= j
        decreases s
      {
        RepAt(nodes, p, s, root);
        PlugSorted(p, s);
        SearchStep(p, s, event.eventId);
        CompareIds(s.key, event.eventId);
        if Sub(nodes[rootPtr].eventId, event.eventId) <= 0 {
          rootPtr := nodes[rootPtr].rightChild;
          p, s := Down(p, s, Right), s.right;
        } else {
          tempLargest := rootPtr;
          rootPtr := nodes[rootPtr].leftChild;
          p, s := Down(p, s, Left), s.left;
        }
      }
      RepAt(nodes, p, s, root);
      if tempLargest == NULL {
        return Event(0, 0);
      }
      return Event(nodes[tempLargest].eventId, nodes[tempLargest].count);
    }

    /** prev: the stored event with the largest id strictly below `eventId`, or (0, 0) when
        there is none. */
    method Prev(eventId: int) returns (e: Event)
      requires Valid() && IsId(eventId)
      ensures (forall j :: j in Events() ==> eventId <= j) ==> e == Event(0, 0)
      ensures (exists j :: j in Events() && j < eventId) ==>
        && e.eventId in Events() && e.eventId < eventId && Events()[e.eventId] == e.count
        && (forall j :: j in Events() && j < eventId ==> j <= e.eventId)
    {
      var event := Event(eventId, 0);
      var rootPtr := root;
      var tempSmallest := NULL;
      ghost var p, s := Top, T;
      ContentsKeys(T);
      while !IsNil(rootPtr)
        invariant Plug(p, s) == T && rootPtr == RootId(s)
        invariant tempSmallest != NULL ==>
          && 0 < tempSmallest < |nodes| && nodes[tempSmallest].eventId in Events()
          && nodes[tempSmallest].eventId < event.eventId
          && Events()[nodes[tempSmallest].eventId] == nodes[tempSmallest].count
          && (forall j :: j in KeySet(s) ==> nodes[tempSmallest].eventId < j)
        invariant forall j :: j in KeySet(T) && j < event.eventId && j !in KeySet(s) ==>
          tempSmallest != NULL && j <= nodes[tempSmallest].eventId
        decreases s
      {
        RepAt(nodes, p, s, root);
        PlugSorted(p, s);
        SearchStep(p, s, event.eventId);
        CompareIds(s.key, event.eventId);
        if Sub(nodes[rootPtr].eventId, event.eventId) < 0 {
          tempSmallest := rootPtr;
          rootPtr := nodes[rootPtr].rightChild;
          p, s := Down(p, s, Right), s.right;
        } else {
          rootPtr := nodes[rootPtr].leftChild;
          p, s := Down(p, s, Left), s.left;
        }
      }
      RepAt(nodes, p, s, root);
      if tempSmallest == NULL {
        return Event(0, 0);
      }
      return Event(nodes[tempSmallest].eventId, nodes[tempSmallest].count);
    }

    /** countInRange: the sum, in Java `int` arithmetic, of the counts stored in the subtree at
        `rootPtr` whose ids lie in [start, end]; it descends only into subtrees that can hold
        such ids. */
    function CountInRange(rootPtr: int, start: Event, end: Event, ghost p: Path, ghost t: Tree): (r: int)
      reads this
      requires Sound() && Sorted(Elements(T)) && JavaEntries(Contents(T)) && Plug(p, t) == T && rootPtr == RootId(t)
      requires IsId(start.eventId) && IsId(end.eventId)
      ensures r == Wrap(RangeSum(Elements(t), start.eventId, end.eventId))
      decreases t
    {
      RepAt(nodes, p, t, root);
      PlugSorted(p, t);
      if IsNil(rootPtr) then
        0
      else
        RangeSumStep(t, start.eventId, end.eventId);
        CompareIds(t.key, end.eventId);
        CompareIds(t.key, start.eventId);
        if Sub(nodes[rootPtr].eventId, end.eventId) <= 0 && Sub(nodes[rootPtr].eventId, start.eventId) >= 0 then
          Wrap(Wrap(nodes[rootPtr].count + CountInRange(nodes[rootPtr].leftChild, start, end, Down(p, t, Left), t.left))
               + CountInRange(nodes[rootPtr].rightChild, start, end, Down(p, t, Right), t.right))
        else if Sub(nodes[rootPtr].eventId, start.eventId) < 0 then
          CountInRange(nodes[rootPtr].rightChild, start, end, Down(p, t, Right), t.right)
        else
          CountInRange(nodes[rootPtr].leftChild, start, end, Down(p, t, Left), t.left)
    }

    /** inRange: the sum of the counts of the events with ids in [id1, id2], both inclusive,
        in Java `int` arithmetic; 0 when id1 > id2. */
    function InRange(id1: int, id2: int): (r: int)
      reads this
      requires Valid() && IsId(id1) && IsId(id2)
      ensures r == Wrap(RangeSum(Elements(T), id1, id2))
      ensures id2 < id1 ==> r == 0
    {
      var rootPtr := root;
      RangeSumEmpty(Elements(T), id1, id2);
      CountInRange(rootPtr, Event(id1, 0), Event(id2, 0), Top, T)
    }

    // -------------------------------------------------------------------------------------
    // increase and reduce

    /** `node.count = v` for the node `n`, the root of the subtree `s` at position `p`. */
    method SetCount(n: int, v: int, ghost p: Path, ghost s: Tree)
      requires Valid() && T == Plug(p, s) && s.Br? && n == s.id && IsInt(v)
      modifies this
      ensures 0 < n < |old(nodes)| && nodes == old(nodes)[n := old(nodes)[n].(count := v)] && root == old(root)
      ensures Valid() && Events() == old(Events())[s.key := v]
    {
      PlugSorted(p, s);
      RelabelRep(nodes, p, s, root, s.color, s.key, v);
      Recount(p, s, v);
      RelabelRedBlack(p, s, s.key, v);
      nodes := nodes[n := nodes[n].(count := v)];
      T := Plug(p, s.(cnt := v));
    }

    /** increase: an absent id is inserted with the given count, which is returned; a present
        one has its count raised in Java `int` arithmetic and the new count is returned. */
    method Increase(evId: int, count: int) returns (r: int)
      requires Valid() && IsId(evId) && IsInt(count)
      modifies this
      ensures Valid()
      ensures evId !in old(Events()) ==> r == count && Events() == old(Events())[evId := count]
      ensures evId in old(Events()) ==> r == Wrap(old(Events())[evId] + count) && Events() == old(Events())[evId := r]
    {
      var event := Event(evId, count);
      var node, p, s := FindNode(event);
      if node == NULL {
        InsertNode(event);
        return count;
      } else {
        SetCount(node, Wrap(nodes[node].count + count), p, s);
        return nodes[node].count;
      }
    }

    /** reduce: 0 for an absent id; a count not above the reduction removes the id and gives 0;
        otherwise the count is lowered in Java `int` arithmetic and the new count returned. */
    method Reduce(evId: int, count: int) returns (r: int)
      requires Valid() && IsId(evId) && IsInt(count)
      modifies this
      ensures Valid()
      ensures evId !in old(Events()) ==> r == 0 && Events() == old(Events()) && unchanged(this)
      ensures evId in old(Events()) && old(Events())[evId] <= count ==> r == 0 && Events() == old(Events()) - {evId}
      ensures evId in old(Events()) && count < old(Events())[evId] ==>
        r == Wrap(old(Events())[evId] - count) && Events() == old(Events())[evId := r]
    {
      var event := Event(evId, count);
      var node, p, s := FindNode(event);
      if node == NULL {
        return 0;
      } else {
        var currCount := nodes[node].count;
        if currCount <= count {
          DeleteNode(node, p, s);
          return 0;
        } else {
          SetCount(node, Wrap(nodes[node].count - count), p, s);
          return nodes[node].count;
        }
      }
    }
  }
}
