/** What deleteNode does to the tree value: it splices out a node with at most one real child,
    after copying the key and count of the in-order successor into the target when the target
    has two children. */
module Removal {
  import opened Nodes
  import opened Shape
  import opened Balance

  /** A path made only of left turns: the way down from a subtree's root to its minimum. */
  predicate LeftSpine(p: Path) {
    match p
    case Top => true
    case Step(f, up) => f.side == Left && LeftSpine(up)
  }

  lemma {:induction false} SpineBefore(p: Path)
    requires LeftSpine(p)
    ensures Before(p) == []
  {
    match p
    case Top =>
    case Step(f, up) => SpineBefore(up);
  }

  /** The subtree's real child, its right one when it has none on the left (the successor's
      side of the splice). */
  function SpliceChild(y: Tree): Tree
    requires y.Br?
  {
    if y.left.Br? then y.left else y.right
  }

  /** Replacing a subtree by one whose in-order sequence lacks one pair drops exactly that pair
      from the in-order sequence of the whole tree. */
  lemma PlugDrop(p: Path, t: Tree, t': Tree, a: seq<Event>, e: Event, b: seq<Event>)
    requires Elements(t) == a + [e] + b && Elements(t') == a + b
    ensures Elements(Plug(p, t)) == (Before(p) + a) + [e] + (b + After(p))
    ensures Elements(Plug(p, t')) == (Before(p) + a) + (b + After(p))
  {
    PlugElements(p, t);
    PlugElements(p, t');
    Regroup(Before(p), a, [e], b, After(p));
  }

  /** Splicing out a node with at most one real child removes exactly its own pair from the
      in-order sequence. */
  lemma SpliceElements(p: Path, y: Tree)
    requires y.Br? && (y.left.Nil? || y.right.Nil?)
    ensures var a, b := Before(p) + Elements(y.left), Elements(y.right) + After(p);
      && Elements(Plug(p, y)) == a + [Event(y.key, y.cnt)] + b
      && Elements(Plug(p, SpliceChild(y))) == a + b
  {
    var l, r := Elements(y.left), Elements(y.right);
    if y.left.Nil? {
      assert l + r == r;
    } else {
      assert l + r == l;
    }
    PlugDrop(p, y, SpliceChild(y), l, Event(y.key, y.cnt), r);
  }

  /** The minimum `y` of a subtree, at the bottom of a left spine, followed by the in-order
      rest of the subtree once `y` is spliced out. */
  lemma SpineElements(l: Path, y: Tree)
    requires LeftSpine(l) && y.Br? && y.left.Nil?
    ensures Elements(Plug(l, y)) == [Event(y.key, y.cnt)] + Elements(Plug(l, y.right))
  {
    SpineBefore(l);
    var e, r := Event(y.key, y.cnt), Elements(y.right);
    assert Elements(y) == [] + [e] + r;
    assert Elements(y.right) == [] + r;
    PlugDrop(l, y, y.right, [], e, r);
    var front, back := Before(l) + [], r + After(l);
    assert front == [];
    assert front + [e] + back == [e] + back;
    assert front + back == back;
  }

  /** deleteNode of a node `z` with two children: taking on the key and count of its successor
      `y`, the minimum of its right subtree, and splicing `y` out removes exactly `z`'s pair from
      the in-order sequence. */
  lemma SuccessorElements(p: Path, z: Tree, l: Path, y: Tree)
    requires z.Br? && LeftSpine(l) && y.Br? && y.left.Nil? && z.right == Plug(l, y)
    ensures var a, b := Before(p) + Elements(z.left), [Event(y.key, y.cnt)] + Elements(Plug(l, y.right)) + After(p);
      && Elements(Plug(p, z)) == a + [Event(z.key, z.cnt)] + b
      && Elements(Plug(p, z.(key := y.key, cnt := y.cnt, right := Plug(l, y.right)))) == a + b
  {
    var z' := z.(key := y.key, cnt := y.cnt, right := Plug(l, y.right));
    SpineElements(l, y);
    var zl, rest := Elements(z.left), [Event(y.key, y.cnt)] + Elements(Plug(l, y.right));
    assert Elements(z) == zl + [Event(z.key, z.cnt)] + rest;
    assert Elements(z') == zl + rest;
    PlugDrop(p, z, z', zl, Event(z.key, z.cnt), rest);
  }

  /** Changing a node's key and count leaves the colours, and so the red-black invariants,
      untouched. */
  lemma RelabelRedBlack(p: Path, t: Tree, k: int, v: int)
    requires t.Br?
    ensures IsRedBlack(Plug(p, t)) <==> IsRedBlack(Plug(p, t.(key := k, cnt := v)))
  {
    var t' := t.(key := k, cnt := v);
    PlugBalanced(p, t);
    PlugBalanced(p, t');
    PlugRed(p, t);
    PlugRed(p, t');
    if p.Step? {
      PlugColor(p, t);
      PlugColor(p, t');
    }
  }

  /** The root of a tree with a non-root position in it is a node on the path. */
  lemma {:induction false} PlugRootId(p: Path, t: Tree)
    requires p.Step?
    ensures Plug(p, t).Br? && Plug(p, t).id in PathIds(p)
  {
    if p.up.Step? {
      PlugRootId(p.up, Attach(p.frame, t));
    } else {
      assert Plug(p, t) == Attach(p.frame, t);
    }
  }
  /** deleteNode of a node with at most one real child removes exactly its key from the map and
      keeps the tree a binary search tree. */
  lemma SpliceDelete(p: Path, y: Tree)
    requires Sorted(Elements(Plug(p, y))) && y.Br? && (y.left.Nil? || y.right.Nil?)
    ensures Sorted(Elements(Plug(p, SpliceChild(y))))
    ensures Contents(Plug(p, SpliceChild(y))) == Contents(Plug(p, y)) - {y.key}
  {
    SpliceElements(p, y);
    MapOfDrop(Before(p) + Elements(y.left), Event(y.key, y.cnt), Elements(y.right) + After(p));
  }

  /** The position of the successor of a node `z` with two children: down the left spine `l` of
      `z`'s right subtree, below `z`'s own frame with key `k` and count `v` (`z`'s before the
      copy, the successor's after). */
  function SpinePath(p: Path, z: Tree, l: Path, k: int, v: int): Path
    requires z.Br?
  {
    Append(l, Step(Frame(Right, z.id, z.color, k, v, z.left), p))
  }

  lemma SpinePlug(p: Path, z: Tree, l: Path, k: int, v: int, t: Tree)
    requires z.Br?
    ensures Plug(SpinePath(p, z, l, k, v), t) == Plug(p, z.(key := k, cnt := v, right := Plug(l, t)))
  {
    PlugAppend(l, Step(Frame(Right, z.id, z.color, k, v, z.left), p), t);
  }

  /** deleteNode of a node `z` with two children: after `z` takes on the key and count of its
      successor `y` and `y` is spliced out, exactly `z`'s key is gone from the map; before the
      splice the relabelled tree is still red-black, so DeleteStart applies at `y`'s position. */
  lemma SuccessorDelete(p: Path, z: Tree, l: Path, y: Tree)
    requires Sorted(Elements(Plug(p, z))) && IsRedBlack(Plug(p, z))
    requires z.Br? && LeftSpine(l) && y.Br? && y.left.Nil? && z.right == Plug(l, y)
    ensures var q := SpinePath(p, z, l, y.key, y.cnt);
      && IsRedBlack(Plug(q, y))
      && Sorted(Elements(Plug(q, y.right)))
      && Contents(Plug(q, y.right)) == Contents(Plug(p, z)) - {z.key}
  {
    SpinePlug(p, z, l, y.key, y.cnt, y.right);
    SpinePlug(p, z, l, y.key, y.cnt, y);
    RelabelRedBlack(p, z, y.key, y.cnt);
    SuccessorElements(p, z, l, y);
    MapOfDrop(Before(p) + Elements(z.left), Event(z.key, z.cnt),
              [Event(y.key, y.cnt)] + Elements(Plug(l, y.right)) + After(p));
  }
}
