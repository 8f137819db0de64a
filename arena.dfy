/** How the node records of the arena represent a tree value: the link fields of the record at a
    node's index name the indices of its children and its parent, index 0 (the sentinel) standing
    for an empty subtree and for the parent of the root. */
module Arena {
  import opened Nodes
  import opened Shape
  import opened Balance
  import opened Removal

  /** Every node of `t` is stored at its index with its colour, key, count and links, and the
      root's parent link is `par`. */
  predicate Rep(a: seq<RedBlackNode>, t: Tree, par: int) {
    match t
    case Nil => true
    case Br(i, c, k, v, l, r) =>
      && 0 < i < |a|
      && a[i] == RedBlackNode(RootId(l), RootId(r), par, c, k, v)
      && Rep(a, l, i) && Rep(a, r, i)
  }

  /** The nodes along the path (and the sibling subtrees beside it) are stored as `Rep` says,
      with the subtree at the position having root index `c`; `r` is the index of the root. */
  predicate RepPath(a: seq<RedBlackNode>, p: Path, c: int, r: int) {
    match p
    case Top => c == r
    case Step(f, up) =>
      && 0 < f.id < |a|
      && a[f.id] == (if f.side == Left then RedBlackNode(c, RootId(f.sib), ParentId(up), f.color, f.key, f.cnt)
                     else RedBlackNode(RootId(f.sib), c, ParentId(up), f.color, f.key, f.cnt))
      && Rep(a, f.sib, f.id)
      && RepPath(a, up, f.id, r)
  }

  /** `b` is `a`, possibly extended by new slots, except possibly at the indices in `w`. */
  predicate Agree(a: seq<RedBlackNode>, b: seq<RedBlackNode>, w: set<int>) {
    |a| <= |b| && forall i :: 0 <= i < |a| && i !in w ==> a[i] == b[i]
  }

  lemma {:induction false} RepFrame(a: seq<RedBlackNode>, b: seq<RedBlackNode>, t: Tree, par: int, w: set<int>)
    requires Rep(a, t, par) && Agree(a, b, w) && Ids(t) !! w
    ensures Rep(b, t, par)
  {
    match t
    case Nil =>
    case Br(i, _, _, _, l, r) =>
      RepFrame(a, b, l, i, w);
      RepFrame(a, b, r, i, w);
  }

  lemma {:induction false} RepPathFrame(a: seq<RedBlackNode>, b: seq<RedBlackNode>, p: Path, c: int, r: int, w: set<int>)
    requires RepPath(a, p, c, r) && Agree(a, b, w) && PathIds(p) !! w
    ensures RepPath(b, p, c, r)
  {
    match p
    case Top =>
    case Step(f, up) =>
      RepFrame(a, b, f.sib, f.id, w);
      RepPathFrame(a, b, up, f.id, r, w);
  }

  /** A whole tree is represented, with root index `r`, exactly when the subtree at a position is
      and the path to it is. */
  lemma {:induction false} RepPlug(a: seq<RedBlackNode>, p: Path, t: Tree, r: int)
    ensures (Rep(a, Plug(p, t), 0) && r == RootId(Plug(p, t))) <==> (Rep(a, t, ParentId(p)) && RepPath(a, p, RootId(t), r))
  {
    match p
    case Top =>
    case Step(f, up) =>
      RepPlug(a, up, Attach(f, t), r);
  }

  /** Indices of represented nodes are real slots, never the sentinel's. */
  lemma {:induction false} RepIds(a: seq<RedBlackNode>, t: Tree, par: int)
    requires Rep(a, t, par)
    ensures forall i :: i in Ids(t) ==> 0 < i < |a|
  {
    match t
    case Nil =>
    case Br(i, _, _, _, l, r) =>
      RepIds(a, l, i);
      RepIds(a, r, i);
  }

  lemma {:induction false} RepPathIds(a: seq<RedBlackNode>, p: Path, c: int, r: int)
    requires RepPath(a, p, c, r)
    ensures forall i :: i in PathIds(p) ==> 0 < i < |a|
  {
    match p
    case Top =>
    case Step(f, up) =>
      RepIds(a, f.sib, f.id);
      RepPathIds(a, up, f.id, r);
  }

  /** The sentinel's record: no children of its own, BLACK, key and count 0. Its parent link is
      free, since deleteNode writes it. */
  predicate SentinelOK(n: RedBlackNode) {
    n.leftChild == 0 && n.rightChild == 0 && n.color == Black && n.eventId == 0 && n.count == 0
  }

  /** The arena stores exactly the tree `t`, whose root index is `root`, with the sentinel at 0. */
  predicate Linked(a: seq<RedBlackNode>, t: Tree, root: int) {
    |a| > 0 && SentinelOK(a[0]) && Rep(a, t, 0) && root == RootId(t) && Unique(t)
  }

  /** Setting the link on the position's side of the path's bottom node to `y` relinks the path
      to `y`; at the root the root index becomes `y`. */
  lemma RelinkAt(a: seq<RedBlackNode>, b: seq<RedBlackNode>, p: Path, x: int, y: int, r: int, r': int, w: set<int>)
    requires RepPath(a, p, x, r) && PathUnique(p)
    requires Agree(a, b, w + {ParentId(p)}) && PathIds(p) !! w
    requires p.Step? ==>
      (r' == r && b[p.frame.id] ==
         (if p.frame.side == Left then a[p.frame.id].(leftChild := y) else a[p.frame.id].(rightChild := y)))
    requires p.Top? ==> r' == y
    ensures RepPath(b, p, y, r')
  {
    if p.Step? {
      var f, up := p.frame, p.up;
      RepFrame(a, b, f.sib, f.id, w + {f.id});
      RepPathFrame(a, b, up, f.id, r, w + {f.id});
    }
  }

  /** Comparing the bottom node's left link with the position's root index `x`, as leftRotate,
      rightRotate and deleteNode do, finds the position's side. */
  lemma SideByLink(a: seq<RedBlackNode>, p: Path, x: int, r: int)
    requires RepPath(a, p, x, r) && p.Step? && x != 0 && x !in PathIds(p)
    ensures a[p.frame.id].leftChild == x <==> p.frame.side == Left
  {
  }

  lemma RelinkPath(a: seq<RedBlackNode>, b: seq<RedBlackNode>, p: Path, x: int, y: int, r: int, r': int, w: set<int>)
    requires RepPath(a, p, x, r) && PathUnique(p) && x != 0 && x !in PathIds(p)
    requires Agree(a, b, w + {ParentId(p)}) && PathIds(p) !! w
    requires p.Step? ==>
      (r' == r && b[p.frame.id] ==
         (if a[p.frame.id].leftChild == x then a[p.frame.id].(leftChild := y) else a[p.frame.id].(rightChild := y)))
    requires p.Top? ==> r' == y
    ensures RepPath(b, p, y, r')
  {
    if p.Step? {
      SideByLink(a, p, x, r);
    }
    RelinkAt(a, b, p, x, y, r, r', w);
  }

  /** The records leftRotate leaves at the node `x`, its right child `y` and the inner grandchild
      represent the rotated subtree. */
  lemma RotateLeftLocal(a: seq<RedBlackNode>, b: seq<RedBlackNode>, t: Tree, par: int, w: set<int>)
    requires Rep(a, t, par) && Unique(t) && t.Br? && t.right.Br? && Ids(t) !! w
    requires var x, y, beta := t.id, t.right.id, RootId(t.right.left);
      && Agree(a, b, w + {x, y, beta})
      && b[x] == RedBlackNode(RootId(t.left), beta, y, t.color, t.key, t.cnt)
      && 0 <= y < |b| && b[y] == RedBlackNode(x, RootId(t.right.right), par, t.right.color, t.right.key, t.right.cnt)
      && (beta != 0 ==> 0 <= beta < |a| && b[beta] == a[beta].(parent := x))
    ensures Rep(b, RotateLeft(t), par)
  {
    var x, y := t.id, t.right.id;
    var A, B, C := t.left, t.right.left, t.right.right;
    var beta := RootId(B);
    assert Rep(a, t.right, x) && Rep(a, B, y);
    RepIds(a, t, par);
    RepFrame(a, b, A, x, w + {x, y, beta});
    RepFrame(a, b, C, y, w + {x, y, beta});
    if B.Br? {
      assert Unique(B) && Ids(B) <= Ids(t) - {x, y};
      RepFrame(a, b, B.left, beta, w + {x, y, beta});
      RepFrame(a, b, B.right, beta, w + {x, y, beta});
    }
  }

  /** The mirror image of RotateLeftLocal for rightRotate. */
  lemma RotateRightLocal(a: seq<RedBlackNode>, b: seq<RedBlackNode>, t: Tree, par: int, w: set<int>)
    requires Rep(a, t, par) && Unique(t) && t.Br? && t.left.Br? && Ids(t) !! w
    requires var x, y, beta := t.id, t.left.id, RootId(t.left.right);
      && Agree(a, b, w + {x, y, beta})
      && b[x] == RedBlackNode(beta, RootId(t.right), y, t.color, t.key, t.cnt)
      && 0 <= y < |b| && b[y] == RedBlackNode(RootId(t.left.left), x, par, t.left.color, t.left.key, t.left.cnt)
      && (beta != 0 ==> 0 <= beta < |a| && b[beta] == a[beta].(parent := x))
    ensures Rep(b, RotateRight(t), par)
  {
    var x, y := t.id, t.left.id;
    var A, B, C := t.right, t.left.right, t.left.left;
    var beta := RootId(B);
    assert Rep(a, t.left, x) && Rep(a, B, y);
    RepIds(a, t, par);
    RepFrame(a, b, A, x, w + {x, y, beta});
    RepFrame(a, b, C, y, w + {x, y, beta});
    if B.Br? {
      assert Unique(B) && Ids(B) <= Ids(t) - {x, y};
      RepFrame(a, b, B.left, beta, w + {x, y, beta});
      RepFrame(a, b, B.right, beta, w + {x, y, beta});
    }
  }

  /** Overwriting the colour, key and count of one node's record changes the represented tree at
      that node only. */
  lemma RelabelRep(a: seq<RedBlackNode>, p: Path, t: Tree, r: int, c: Color, k: int, v: int)
    requires Linked(a, Plug(p, t), r) && t.Br?
    ensures 0 < t.id < |a| && a[t.id].color == t.color && a[t.id].eventId == t.key && a[t.id].count == t.cnt
    ensures Linked(a[t.id := a[t.id].(color := c, eventId := k, count := v)],
                   Plug(p, t.(color := c, key := k, cnt := v)), r)
  {
    var x := t.id;
    RepPlug(a, p, t, r);
    var b := a[x := a[x].(color := c, eventId := k, count := v)];
    var t' := t.(color := c, key := k, cnt := v);
    UniquePlug(p, t);
    RepFrame(a, b, t.left, x, {x});
    RepFrame(a, b, t.right, x, {x});
    RepPathFrame(a, b, p, x, r, {x});
    RepPlug(b, p, t', r);
    ReplaceUnique(p, t, t');
  }

  /** The arena after leftRotate at the root `x` of the subtree at position `p` represents the
      rotated tree; the root index moves to `y` when `x` was the root. */
  lemma RotateLeftLinked(a: seq<RedBlackNode>, b: seq<RedBlackNode>, p: Path, t: Tree, r: int, r': int)
    requires Linked(a, Plug(p, t), r) && t.Br? && t.right.Br?
    requires var x, y, beta, pid := t.id, t.right.id, RootId(t.right.left), ParentId(p);
      && Agree(a, b, {x, y, beta, pid}) && |b| > 0 && b[0] == a[0]
      && 0 < x < |b| && b[x] == RedBlackNode(RootId(t.left), beta, y, t.color, t.key, t.cnt)
      && 0 < y < |b| && b[y] == RedBlackNode(x, RootId(t.right.right), pid, t.right.color, t.right.key, t.right.cnt)
      && (beta != 0 ==> 0 < beta < |a| && b[beta] == a[beta].(parent := x))
      && (pid != 0 ==>
            0 < pid < |a| &&
            b[pid] == (if a[pid].leftChild == x then a[pid].(leftChild := y) else a[pid].(rightChild := y)))
      && r' == (if p.Top? then y else r)
    ensures Linked(b, Plug(p, RotateLeft(t)), r')
  {
    var x, y, beta, pid := t.id, t.right.id, RootId(t.right.left), ParentId(p);
    RepPlug(a, p, t, r);
    UniquePlug(p, t);
    RepIds(a, t, pid);
    RepPathIds(a, p, x, r);
    assert pid != 0 ==> pid in PathIds(p);
    RotateLeftLocal(a, b, t, pid, {pid});
    RelinkPath(a, b, p, x, y, r, r', {x, y, beta});
    RepPlug(b, p, RotateLeft(t), r');
    RotateLeftKeeps(t);
    ReplaceUnique(p, t, RotateLeft(t));
  }

  /** The arena after rightRotate, the mirror image of RotateLeftLinked. */
  lemma RotateRightLinked(a: seq<RedBlackNode>, b: seq<RedBlackNode>, p: Path, t: Tree, r: int, r': int)
    requires Linked(a, Plug(p, t), r) && t.Br? && t.left.Br?
    requires var x, y, beta, pid := t.id, t.left.id, RootId(t.left.right), ParentId(p);
      && Agree(a, b, {x, y, beta, pid}) && |b| > 0 && b[0] == a[0]
      && 0 < x < |b| && b[x] == RedBlackNode(beta, RootId(t.right), y, t.color, t.key, t.cnt)
      && 0 < y < |b| && b[y] == RedBlackNode(RootId(t.left.left), x, pid, t.left.color, t.left.key, t.left.cnt)
      && (beta != 0 ==> 0 < beta < |a| && b[beta] == a[beta].(parent := x))
      && (pid != 0 ==>
            0 < pid < |a| &&
            b[pid] == (if a[pid].leftChild == x then a[pid].(leftChild := y) else a[pid].(rightChild := y)))
      && r' == (if p.Top? then y else r)
    ensures Linked(b, Plug(p, RotateRight(t)), r')
  {
    var x, y, beta, pid := t.id, t.left.id, RootId(t.left.right), ParentId(p);
    RepPlug(a, p, t, r);
    UniquePlug(p, t);
    RepIds(a, t, pid);
    RepPathIds(a, p, x, r);
    assert pid != 0 ==> pid in PathIds(p);
    RotateRightLocal(a, b, t, pid, {pid});
    RelinkPath(a, b, p, x, y, r, r', {x, y, beta});
    RepPlug(b, p, RotateRight(t), r');
    RotateRightKeeps(t);
    ReplaceUnique(p, t, RotateRight(t));
  }

  /** The arena after leftRotate's writes at `x`, in their order: x.right takes y.left, whose
      parent becomes x; y takes x's parent and the parent's link; y.left becomes x, whose parent
      becomes y. */
  function LeftRotated(a: seq<RedBlackNode>, x: int): seq<RedBlackNode>
    requires 0 <= x < |a| && 0 <= a[x].rightChild < |a| && 0 <= a[a[x].rightChild].leftChild < |a|
    requires 0 <= a[x].parent < |a|
  {
    var y := a[x].rightChild;
    var b1 := a[x := a[x].(rightChild := a[y].leftChild)];
    var b2 := if b1[y].leftChild != 0 then b1[b1[y].leftChild := b1[b1[y].leftChild].(parent := x)] else b1;
    var b3 := b2[y := b2[y].(parent := b2[x].parent)];
    var pid := b3[x].parent;
    var b4 := if pid == 0 then b3
              else b3[pid := if b3[pid].leftChild == x then b3[pid].(leftChild := y) else b3[pid].(rightChild := y)];
    var b5 := b4[y := b4[y].(leftChild := x)];
    b5[x := b5[x].(parent := y)]
  }

  /** The arena after rightRotate's writes at `x`, the mirror image of LeftRotated (y.right
      becomes x before the parent's link is handed over, as the source orders it). */
  function RightRotated(a: seq<RedBlackNode>, x: int): seq<RedBlackNode>
    requires 0 <= x < |a| && 0 <= a[x].leftChild < |a| && 0 <= a[a[x].leftChild].rightChild < |a|
    requires 0 <= a[x].parent < |a|
  {
    var y := a[x].leftChild;
    var b1 := a[x := a[x].(leftChild := a[y].rightChild)];
    var b2 := if b1[y].rightChild != 0 then b1[b1[y].rightChild := b1[b1[y].rightChild].(parent := x)] else b1;
    var b3 := b2[y := b2[y].(parent := b2[x].parent)];
    var b4 := b3[y := b3[y].(rightChild := x)];
    var pid := b4[x].parent;
    var b5 := if pid == 0 then b4
              else b4[pid := if b4[pid].leftChild == x then b4[pid].(leftChild := y) else b4[pid].(rightChild := y)];
    b5[x := b5[x].(parent := y)]
  }

  /** leftRotate at the root `x` of the subtree at position `p` leaves an arena representing the
      rotated tree, with the root index moved to `y` when `x` was the root, and the sentinel
      untouched. */
  lemma LeftRotatedLinked(a: seq<RedBlackNode>, p: Path, t: Tree, r: int)
    requires Linked(a, Plug(p, t), r) && t.Br? && t.right.Br?
    ensures 0 < t.id < |a| && a[t.id].rightChild == t.right.id && 0 <= a[t.id].parent < |a|
    ensures 0 < t.right.id < |a| && 0 <= a[t.right.id].leftChild < |a|
    ensures (a[t.id].parent == 0 <==> p.Top?)
    ensures var b := LeftRotated(a, t.id);
      && |b| == |a| && b[0] == a[0]
      && Linked(b, Plug(p, RotateLeft(t)), if p.Top? then t.right.id else r)
  {
    RotateLeftFacts(a, p, t, r);
    RotateLeftLinked(a, LeftRotated(a, t.id), p, t, r, if p.Top? then t.right.id else r);
  }

  /** The mirror image of LeftRotatedLinked for rightRotate. */
  lemma RightRotatedLinked(a: seq<RedBlackNode>, p: Path, t: Tree, r: int)
    requires Linked(a, Plug(p, t), r) && t.Br? && t.left.Br?
    ensures 0 < t.id < |a| && a[t.id].leftChild == t.left.id && 0 <= a[t.id].parent < |a|
    ensures 0 < t.left.id < |a| && 0 <= a[t.left.id].rightChild < |a|
    ensures (a[t.id].parent == 0 <==> p.Top?)
    ensures var b := RightRotated(a, t.id);
      && |b| == |a| && b[0] == a[0]
      && Linked(b, Plug(p, RotateRight(t)), if p.Top? then t.left.id else r)
  {
    RotateRightFacts(a, p, t, r);
    RotateRightLinked(a, RightRotated(a, t.id), p, t, r, if p.Top? then t.left.id else r);
  }

  /** What leftRotate reads before it writes: the links between `x`, its right child `y`, the
      inner grandchild and the parent, all distinct real slots. */
  lemma RotateLeftFacts(a: seq<RedBlackNode>, p: Path, t: Tree, r: int)
    requires Linked(a, Plug(p, t), r) && t.Br? && t.right.Br?
    ensures var x, y, beta, pid := t.id, t.right.id, RootId(t.right.left), ParentId(p);
      && 0 < x < |a| && 0 < y < |a| && 0 <= beta < |a| && 0 <= pid < |a|
      && a[x] == RedBlackNode(RootId(t.left), y, pid, t.color, t.key, t.cnt)
      && a[y] == RedBlackNode(beta, RootId(t.right.right), x, t.right.color, t.right.key, t.right.cnt)
      && x != y && beta != x && beta != y && (beta != 0 ==> a[beta].parent == y)
      && (pid != 0 ==> pid != x && pid != y && pid != beta)
      && (pid == 0 <==> p.Top?)
  {
    var x, y, pid := t.id, t.right.id, ParentId(p);
    RepPlug(a, p, t, r);
    UniquePlug(p, t);
    RepIds(a, t, pid);
    RepPathIds(a, p, x, r);
    assert pid != 0 ==> pid in PathIds(p);
    assert Rep(a, t.right, x) && Rep(a, t.right.left, y);
  }

  /** The mirror image of RotateLeftFacts for rightRotate. */
  lemma RotateRightFacts(a: seq<RedBlackNode>, p: Path, t: Tree, r: int)
    requires Linked(a, Plug(p, t), r) && t.Br? && t.left.Br?
    ensures var x, y, beta, pid := t.id, t.left.id, RootId(t.left.right), ParentId(p);
      && 0 < x < |a| && 0 < y < |a| && 0 <= beta < |a| && 0 <= pid < |a|
      && a[x] == RedBlackNode(y, RootId(t.right), pid, t.color, t.key, t.cnt)
      && a[y] == RedBlackNode(RootId(t.left.left), beta, x, t.left.color, t.left.key, t.left.cnt)
      && x != y && beta != x && beta != y && (beta != 0 ==> a[beta].parent == y)
      && (pid != 0 ==> pid != x && pid != y && pid != beta)
      && (pid == 0 <==> p.Top?)
  {
    var x, y, pid := t.id, t.left.id, ParentId(p);
    RepPlug(a, p, t, r);
    UniquePlug(p, t);
    RepIds(a, t, pid);
    RepPathIds(a, p, x, r);
    assert pid != 0 ==> pid in PathIds(p);
    assert Rep(a, t.left, x) && Rep(a, t.left.right, y);
  }

  /** The record of the root of the subtree at a position; index 0 exactly for an empty subtree. */
  lemma RepAt(a: seq<RedBlackNode>, p: Path, t: Tree, r: int)
    requires Linked(a, Plug(p, t), r)
    ensures Rep(a, t, ParentId(p)) && 0 <= RootId(t) < |a| && (RootId(t) == 0 <==> t.Nil?)
    ensures 0 <= ParentId(p) < |a| && (ParentId(p) == 0 <==> p.Top?)
    ensures t.Br? ==> a[t.id] == RedBlackNode(RootId(t.left), RootId(t.right), ParentId(p), t.color, t.key, t.cnt)
  {
    RepPlug(a, p, t, r);
    RepPathIds(a, p, RootId(t), r);
    assert p.Step? ==> p.frame.id in PathIds(p);
  }

  /** A longer arena that agrees on the old slots represents the same tree. */
  lemma LinkedExtend(a: seq<RedBlackNode>, b: seq<RedBlackNode>, t: Tree, r: int)
    requires Linked(a, t, r) && Agree(a, b, {})
    ensures Linked(b, t, r)
  {
    RepFrame(a, b, t, 0, {});
  }

  /** insertNode's and buildTree's attachment of the fresh slot `z` as a RED leaf at an empty
      position: the new record and the parent's link on the position's side. */
  lemma AttachLeaf(a: seq<RedBlackNode>, b: seq<RedBlackNode>, p: Path, z: int, k: int, v: int, r: int, r': int)
    requires Linked(a, Plug(p, Nil), r) && 0 < z < |a| && z !in Ids(Plug(p, Nil))
    requires Agree(a, b, {z, ParentId(p)}) && b[0] == a[0]
    requires 0 <= z < |b| && b[z] == RedBlackNode(0, 0, ParentId(p), Red, k, v)
    requires p.Step? ==>
      (0 < p.frame.id < |a| && r' == r && b[p.frame.id] ==
         (if p.frame.side == Left then a[p.frame.id].(leftChild := z) else a[p.frame.id].(rightChild := z)))
    requires p.Top? ==> r' == z
    ensures Linked(b, Plug(p, Br(z, Red, k, v, Nil, Nil)), r')
  {
    var leaf := Br(z, Red, k, v, Nil, Nil);
    RepPlug(a, p, Nil, r);
    UniquePlug(p, Nil);
    IdsPlug(p, Nil);
    RelinkAt(a, b, p, 0, z, r, r', {z});
    RepPlug(b, p, leaf, r');
    ReplaceUnique(p, Nil, leaf);
  }

  /** The parent's record of the subtree at a non-root position, and the link back to it. */
  lemma RepParent(a: seq<RedBlackNode>, p: Path, t: Tree, r: int)
    requires Linked(a, Plug(p, t), r) && p.Step?
    ensures var f := p.frame;
      && 0 < f.id < |a|
      && a[f.id] == (if f.side == Left then RedBlackNode(RootId(t), RootId(f.sib), ParentId(p.up), f.color, f.key, f.cnt)
                     else RedBlackNode(RootId(f.sib), RootId(t), ParentId(p.up), f.color, f.key, f.cnt))
      && 0 <= RootId(f.sib) < |a| && a[RootId(f.sib)].color == ColorOf(f.sib)
      && (t.Br? ==> (a[f.id].leftChild == t.id <==> f.side == Left))
  {
    RepPlug(a, p, t, r);
    UniquePlug(p, t);
    RepPathIds(a, p, RootId(t), r);
    RepIds(a, p.frame.sib, p.frame.id);
    if t.Br? {
      RepIds(a, t, p.frame.id);
      SideByLink(a, p, t.id, r);
    }
  }

  /** What one round of adjustAfterInsert reads: the parent's colour and, when the parent is
      RED, that it is not the root, the parent and grandparent links, the sides they hang on,
      and the uncle. */
  lemma InsertStepFacts(a: seq<RedBlackNode>, p: Path, t: Tree, r: int)
    requires Linked(a, Plug(p, t), r) && InsertInv(p, t) && p.Step?
    ensures 0 < p.frame.id < |a| && a[p.frame.id].color == p.frame.color
    ensures p.frame.color == Red ==> p.up.Step? && ColorOf(p.frame.sib) == Black
    ensures p.frame.color == Red ==> var fp, fg := p.frame, p.up.frame;
      && 0 < t.id < |a| && 0 < fp.id < |a| && 0 < fg.id < |a|
      && a[t.id].parent == fp.id && (a[fp.id].leftChild == t.id <==> fp.side == Left)
      && (a[fp.id].rightChild == t.id <==> fp.side == Right)
      && a[fp.id].parent == fg.id && (a[fg.id].leftChild == fp.id <==> fg.side == Left)
      && 0 <= RootId(fg.sib) < |a| && a[RootId(fg.sib)].color == ColorOf(fg.sib)
      && RootId(fg.sib) == (if fg.side == Left then a[fg.id].rightChild else a[fg.id].leftChild)
  {
    RepAt(a, p, t, r);
    RepParent(a, p, t, r);
    if p.frame.color == Red {
      InsertRedParent(p, t);
      assert Plug(p, t) == Plug(p.up, Attach(p.frame, t));
      RepParent(a, p.up, Attach(p.frame, t), r);
    }
  }
  // ---------------------------------------------------------------------------------------
  // deleteNode and adjustAfterDelete

  /** The child that deleteNode moves up into the place of `d`: its left child unless that is
      the sentinel. */
  function SpliceLink(a: seq<RedBlackNode>, d: int): int
    requires 0 <= d < |a|
  {
    if a[d].leftChild != 0 then a[d].leftChild else a[d].rightChild
  }

  /** The arena after deleteNode's splice of `d`, in the source's order: the child's parent
      link (the sentinel's too) takes `d`'s parent, then the parent's link on `d`'s side takes
      the child; a link that names neither side is left alone. */
  function Spliced(a: seq<RedBlackNode>, d: int): seq<RedBlackNode>
    requires 0 <= d < |a| && 0 <= a[d].leftChild < |a| && 0 <= a[d].rightChild < |a| && 0 <= a[d].parent < |a|
  {
    var child := SpliceLink(a, d);
    var b := a[child := a[child].(parent := a[d].parent)];
    var pid := b[d].parent;
    if pid == 0 then b
    else if d == b[pid].leftChild then b[pid := b[pid].(leftChild := child)]
    else if d == b[pid].rightChild then b[pid := b[pid].(rightChild := child)]
    else b
  }

  /** What deleteNode reads around the node `y` it splices out: its record, its child's and
      its parent's indices, all distinct, and the side the parent's link names. */
  lemma SpliceFacts(a: seq<RedBlackNode>, p: Path, y: Tree, r: int)
    requires Linked(a, Plug(p, y), r) && y.Br? && (y.left.Nil? || y.right.Nil?)
    ensures 0 < y.id < |a| && a[y.id] == RedBlackNode(RootId(y.left), RootId(y.right), ParentId(p), y.color, y.key, y.cnt)
    ensures 0 <= RootId(y.left) < |a| && 0 <= RootId(y.right) < |a| && 0 <= ParentId(p) < |a|
    ensures (ParentId(p) == 0 <==> p.Top?) && SpliceLink(a, y.id) == RootId(SpliceChild(y))
    ensures var x, c, pid, d := SpliceChild(y), RootId(SpliceChild(y)), ParentId(p), y.id;
      && c != d && (pid != 0 ==> pid != c && pid != d)
      && (pid != 0 ==> (a[pid].leftChild == d <==> p.frame.side == Left) && (a[pid].leftChild != d ==> a[pid].rightChild == d))
      && Rep(a, x, d) && RepPath(a, p, d, r) && PathUnique(p) && d !in PathIds(p) && c !in PathIds(p)
      && Unique(x) && PathIds(p) !! Ids(x)
      && (x.Br? ==> Ids(x.left) !! {c, pid} && Ids(x.right) !! {c, pid} && Rep(a, x.left, c) && Rep(a, x.right, c))
  {
    var x, c, pid, d := SpliceChild(y), RootId(SpliceChild(y)), ParentId(p), y.id;
    RepAt(a, p, y, r);
    RepPlug(a, p, y, r);
    UniquePlug(p, y);
    RepIds(a, y, pid);
    RepPathIds(a, p, d, r);
    assert pid != 0 ==> pid in PathIds(p);
    assert c != 0 ==> c in Ids(y) && c != d;
    if p.Step? {
      SideByLink(a, p, d, r);
    }
  }

  /** Splicing out a node `y` with at most one real child leaves an arena representing the tree
      with `y`'s child in its place; at the root the child becomes the root. The child's parent
      link, the sentinel's included, names the position's parent. */
  lemma SplicedLinked(a: seq<RedBlackNode>, p: Path, y: Tree, r: int)
    requires Linked(a, Plug(p, y), r) && y.Br? && (y.left.Nil? || y.right.Nil?)
    ensures 0 < y.id < |a| && a[y.id] == RedBlackNode(RootId(y.left), RootId(y.right), ParentId(p), y.color, y.key, y.cnt)
    ensures 0 <= RootId(y.left) < |a| && 0 <= RootId(y.right) < |a| && 0 <= ParentId(p) < |a|
    ensures (ParentId(p) == 0 <==> p.Top?) && SpliceLink(a, y.id) == RootId(SpliceChild(y))
    ensures var b := Spliced(a, y.id); var x := SpliceChild(y);
      && |b| == |a| && b[y.id] == a[y.id] && b[RootId(x)].parent == ParentId(p)
      && Linked(b, Plug(p, x), if p.Top? then RootId(x) else r)
  {
    SpliceFacts(a, p, y, r);
    var x := SpliceChild(y);
    var c, pid, d := RootId(x), ParentId(p), y.id;
    var r' := if p.Top? then c else r;
    var b1 := a[c := a[c].(parent := pid)];
    var b := if pid == 0 then b1
             else b1[pid := if a[pid].leftChild == d then a[pid].(leftChild := c) else a[pid].(rightChild := c)];
    assert Spliced(a, d) == b;
    assert Agree(a, b, {c, pid});
    if x.Br? {
      assert b[c] == a[c].(parent := pid);
      RepFrame(a, b, x.left, c, {c, pid});
      RepFrame(a, b, x.right, c, {c, pid});
    }
    assert Rep(b, x, pid);
    RelinkPath(a, b, p, d, c, r, r', {c});
    RepPlug(b, p, x, r');
    ReplaceUnique(p, y, x);
  }
  /** isNil on a link of the arena: the link names the sentinel exactly when the subtree it
      leads to is empty. */
  lemma NilExactlyEmpty(a: seq<RedBlackNode>, t: Tree, par: int)
    requires Rep(a, t, par)
    ensures IsNil(RootId(t)) <==> t.Nil?
  {
  }

  /** adjustAfterDelete's loop test: the cursor is the root exactly at the root position (an
      empty tree's root being the sentinel), and its record's colour is the subtree's, BLACK for
      the sentinel. */
  lemma DeleteGuard(a: seq<RedBlackNode>, p: Path, t: Tree, r: int)
    requires Linked(a, Plug(p, t), r)
    ensures 0 <= RootId(t) < |a| && a[RootId(t)].color == ColorOf(t)
    ensures RootId(t) != r <==> p.Step?
  {
    RepAt(a, p, t, r);
    if p.Step? {
      PlugRootId(p, t);
      RepPlug(a, p, t, r);
      RepPathIds(a, p, RootId(t), r);
      UniquePlug(p, t);
    }
  }

  /** What one round of adjustAfterDelete reads below a cursor that is not the root: the
      parent's record, which of its links names the cursor (the sentinel included, since the
      sibling is real), the sibling, and its children's colours. */
  lemma DeleteStepFacts(a: seq<RedBlackNode>, p: Path, t: Tree, r: int)
    requires Linked(a, Plug(p, t), r) && DeleteInv(p, t) && p.Step?
    ensures var f, s := p.frame, p.frame.sib;
      && 0 < f.id < |a| && a[f.id].color == f.color && 0 <= a[f.id].parent < |a|
      && (a[f.id].leftChild == RootId(t) <==> f.side == Left)
      && s.Br? && 0 < s.id < |a| && s.id == (if f.side == Left then a[f.id].rightChild else a[f.id].leftChild)
      && a[s.id] == RedBlackNode(RootId(s.left), RootId(s.right), f.id, s.color, s.key, s.cnt)
      && 0 <= RootId(s.left) < |a| && a[RootId(s.left)].color == ColorOf(s.left)
      && 0 <= RootId(s.right) < |a| && a[RootId(s.right)].color == ColorOf(s.right)
  {
    var f, s := p.frame, p.frame.sib;
    DeleteSibling(f, p.up, t);
    RepParent(a, p, t, r);
    RepPlug(a, p, t, r);
    assert Rep(a, s, f.id);
    RepIds(a, s, f.id);
    assert Rep(a, s.left, s.id) && Rep(a, s.right, s.id);
  }
}
