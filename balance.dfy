/** The red-black invariants on tree values and on positions in them, and the case lemmas of
    the two fix-up loops of `RedBlackEventTree`: each says that one case's recolourings and
    rotations carry the loop's invariant from one iteration to the next. */
module Balance {
  import opened Nodes
  import opened Shape

  /** The sentinel reads BLACK. */
  function ColorOf(t: Tree): Color {
    if t.Nil? then Black else t.color
  }

  function Weight(c: Color): nat {
    if c == Black then 1 else 0
  }

  /** Black nodes on the leftmost path, the node itself included and the sentinel not. */
  function BH(t: Tree): nat {
    match t
    case Nil => 0
    case Br(_, c, _, _, l, _) => BH(l) + Weight(c)
  }

  /** Equal black height on every downward path. */
  predicate Balanced(t: Tree) {
    match t
    case Nil => true
    case Br(_, _, _, _, l, r) => Balanced(l) && Balanced(r) && BH(l) == BH(r)
  }

  /** No RED node has a RED child. */
  predicate RedOK(t: Tree) {
    match t
    case Nil => true
    case Br(_, c, _, _, l, r) =>
      RedOK(l) && RedOK(r) && (c == Red ==> ColorOf(l) == Black && ColorOf(r) == Black)
  }

  /** The colour invariants of a whole tree: balanced, no red-red edge, root BLACK. */
  predicate IsRedBlack(t: Tree) {
    Balanced(t) && RedOK(t) && ColorOf(t) == Black
  }

  /** Recolouring the root keeps balance and changes the black height by the change in weight. */
  lemma PaintBalanced(t: Tree, c: Color)
    requires Balanced(t) && t.Br?
    ensures Balanced(Paint(t, c)) && BH(Paint(t, c)) + Weight(t.color) == BH(t) + Weight(c)
  {
  }

  // ---------------------------------------------------------------------------------------
  // The same invariants seen from a position

  /** Every sibling subtree along the path is balanced with the black height a subtree of black
      height `h` at the position needs. */
  predicate PathBal(p: Path, h: nat) {
    match p
    case Top => true
    case Step(f, up) => Balanced(f.sib) && BH(f.sib) == h && PathBal(up, h + Weight(f.color))
  }

  /** No red-red edge on or beside the path, given a subtree whose root has colour `c`. */
  predicate PathRed(p: Path, c: Color) {
    match p
    case Top => true
    case Step(f, up) =>
      RedOK(f.sib) && (f.color == Red ==> c == Black && ColorOf(f.sib) == Black) && PathRed(up, f.color)
  }

  /** PathRed with the one edge between the position and its parent left unconstrained. */
  predicate PathRedAbove(p: Path) {
    match p
    case Top => true
    case Step(f, up) => RedOK(f.sib) && (f.color == Red ==> ColorOf(f.sib) == Black) && PathRed(up, f.color)
  }

  /** The colour of the root of any tree plugged at a non-root position. */
  function RootColor(p: Path): Color
    requires p.Step?
  {
    if p.up.Top? then p.frame.color else RootColor(p.up)
  }

  lemma {:induction false} PlugBalanced(p: Path, t: Tree)
    ensures Balanced(Plug(p, t)) <==> Balanced(t) && PathBal(p, BH(t))
  {
    match p
    case Top =>
    case Step(f, up) =>
      PlugBalanced(up, Attach(f, t));
  }

  lemma {:induction false} PlugRed(p: Path, t: Tree)
    ensures RedOK(Plug(p, t)) <==> RedOK(t) && PathRed(p, ColorOf(t))
  {
    match p
    case Top =>
    case Step(f, up) =>
      PlugRed(up, Attach(f, t));
  }

  lemma {:induction false} PlugColor(p: Path, t: Tree)
    requires p.Step?
    ensures ColorOf(Plug(p, t)) == RootColor(p)
  {
    if p.up.Step? {
      PlugColor(p.up, Attach(p.frame, t));
    }
  }

  /** A BLACK subtree below the position satisfies every constraint an unconstrained edge would. */
  lemma PathRedAboveBlack(p: Path)
    requires PathRedAbove(p)
    ensures PathRed(p, Black)
  {
  }

  lemma PathRedForget(p: Path, c: Color)
    requires PathRed(p, c)
    ensures PathRedAbove(p)
  {
  }

  // ---------------------------------------------------------------------------------------
  // adjustAfterInsert

  /** The insert fix-up loop's invariant at the cursor `newNode`: its subtree `t` is a RED,
      balanced subtree without red-red edges that fits the black heights along the path; the
      only possible violation is that its parent is RED too; the root is BLACK unless it is the
      cursor itself. */
  predicate InsertInv(p: Path, t: Tree) {
    && t.Br? && t.color == Red && Balanced(t) && RedOK(t)
    && PathBal(p, BH(t)) && PathRedAbove(p)
    && (p.Step? ==> RootColor(p) == Black)
  }

  /** The grandchild-on-the-inside shape that the LR and RL cases straighten. */
  predicate Inner(p: Path) {
    p.Step? && p.up.Step? && p.frame.side != p.up.frame.side
  }

  /** A fresh RED leaf put at an empty position of a red-black tree satisfies the invariant. */
  lemma InsertStart(p: Path, t: Tree)
    requires IsRedBlack(Plug(p, Nil))
    requires t.Br? && t.color == Red && t.left.Nil? && t.right.Nil?
    ensures InsertInv(p, t)
  {
    PlugBalanced(p, Nil);
    PlugRed(p, Nil);
    PathRedForget(p, Black);
    if p.Step? {
      PlugColor(p, Nil);
    }
  }

  /** A RED parent is not the root, so its own parent exists and is BLACK. */
  lemma InsertRedParent(p: Path, t: Tree)
    requires InsertInv(p, t) && p.Step? && p.frame.color == Red
    ensures p.up.Step? && p.up.frame.color == Black && ColorOf(p.frame.sib) == Black
  {
  }

  /** Uncle RED: parent and uncle become BLACK, grandparent RED, and the cursor moves to the
      grandparent. */
  lemma InsertUncleRed(fp: Frame, fg: Frame, rest: Path, t: Tree)
    requires InsertInv(Step(fp, Step(fg, rest)), t) && fp.color == Red && ColorOf(fg.sib) == Red
    ensures InsertInv(rest, Attach(fg.(color := Red, sib := Paint(fg.sib, Black)), Attach(fp.(color := Black), t)))
  {
    var up := Step(fg, rest);
    assert PathBal(up, BH(t));
    assert fg.color == Black;
    PaintBalanced(fg.sib, Black);
    var pt := Attach(fp.(color := Black), t);
    assert Balanced(pt) && BH(pt) == BH(t) + 1;
    assert RedOK(pt);
    var u := Paint(fg.sib, Black);
    assert Balanced(u) && BH(u) == BH(t) + 1;
    assert RedOK(u);
    PathRedForget(rest, Black);
    if rest.Step? {
      assert RootColor(rest) == RootColor(up);
    }
  }

  /** Uncle BLACK, cursor and parent on the same side (LL or RR): parent BLACK, grandparent RED
      and a rotation at the grandparent away from that side; the parent takes the
      grandparent's place, with the grandparent as the cursor's sibling. */
  lemma InsertUncleBlackOuter(fp: Frame, fg: Frame, rest: Path, t: Tree)
    requires InsertInv(Step(fp, Step(fg, rest)), t) && fp.color == Red && ColorOf(fg.sib) == Black
    requires fp.side == fg.side
    ensures InsertInv(Step(fp.(color := Black, sib := Attach(fg.(color := Red), fp.sib)), rest), t)
  {
    var up := Step(fg, rest);
    assert PathBal(up, BH(t));
    assert fg.color == Black;
    var g := Attach(fg.(color := Red), fp.sib);
    assert Balanced(g) && BH(g) == BH(t);
    assert RedOK(g);
    var p' := Step(fp.(color := Black, sib := g), rest);
    if rest.Step? {
      assert RootColor(p') == RootColor(rest) == RootColor(up);
    }
  }

  /** Uncle BLACK, cursor on the inside (LR or RL): the cursor moves to the parent and a rotation
      at it makes the old cursor the parent, giving the outer shape. */
  lemma InsertUncleBlackInner(fp: Frame, fg: Frame, rest: Path, t: Tree)
    requires InsertInv(Step(fp, Step(fg, rest)), t) && fp.color == Red && ColorOf(fg.sib) == Black
    requires fp.side != fg.side
    ensures InsertInv(Step(Frame(Opp(fp.side), t.id, t.color, t.key, t.cnt, Child(t, fp.side)), Step(fg, rest)),
                      Attach(fp, Child(t, Opp(fp.side))))
    ensures !Inner(Step(Frame(Opp(fp.side), t.id, t.color, t.key, t.cnt, Child(t, fp.side)), Step(fg, rest)))
  {
    var up := Step(fg, rest);
    var q := Attach(fp, Child(t, Opp(fp.side)));
    assert Balanced(q) && BH(q) == BH(t);
    assert RedOK(q);
    var p' := Step(Frame(Opp(fp.side), t.id, t.color, t.key, t.cnt, Child(t, fp.side)), up);
    assert RootColor(p') == RootColor(up);
  }

  /** When the parent is BLACK (or there is none) the loop has nothing left to repair, and
      colouring the root BLACK yields a red-black tree. */
  lemma InsertFinish(p: Path, t: Tree)
    requires InsertInv(p, t) && (p.Step? ==> p.frame.color == Black)
    ensures Balanced(Plug(p, t)) && RedOK(Plug(p, t))
    ensures p.Step? ==> ColorOf(Plug(p, t)) == Black
  {
    PlugBalanced(p, t);
    PlugRed(p, t);
    if p.Step? {
      PlugColor(p, t);
    }
  }

  /** Colouring the root of a balanced tree without red-red edges BLACK makes it red-black. */
  lemma PaintRootBlack(t: Tree)
    requires Balanced(t) && RedOK(t)
    ensures IsRedBlack(Paint(t, Black))
  {
  }

  // ---------------------------------------------------------------------------------------
  // adjustAfterDelete

  /** The rotation that moves the root of `t` down on side `d`: leftRotate for Left,
      rightRotate for Right. */
  function Rotate(t: Tree, d: Side): Tree
    requires t.Br? && Child(t, Opp(d)).Br?
  {
    if d == Left then RotateLeft(t) else RotateRight(t)
  }

  /** `t` with its child on side `s` replaced by `c`. */
  function WithChild(t: Tree, s: Side, c: Tree): Tree
    requires t.Br?
  {
    if s == Left then t.(left := c) else t.(right := c)
  }

  /** The delete fix-up loop's invariant at the cursor `node`: its subtree `t` is balanced and
      one BLACK node short of what the path needs ("doubly black"); below its root there is no
      red-red edge, and above it none either except possibly between `t` and its parent; the
      root is BLACK unless it is the cursor. */
  predicate DeleteInv(p: Path, t: Tree) {
    && Balanced(t) && (t.Br? ==> RedOK(t.left) && RedOK(t.right))
    && PathBal(p, BH(t) + 1) && PathRedAbove(p)
    && (p.Step? ==> RootColor(p) == Black)
  }

  lemma PathRedWeaken(p: Path)
    requires PathRed(p, Red)
    ensures PathRed(p, Black)
  {
  }

  /** Splicing out a node `y` with at most one real child puts that child (or the sentinel) at
      `y`'s position: if `y` was BLACK the position is one black node short, if it was RED the
      tree is still red-black. */
  lemma DeleteStart(p: Path, y: Tree)
    requires IsRedBlack(Plug(p, y)) && y.Br? && (y.left.Nil? || y.right.Nil?)
    ensures var x := if y.left.Br? then y.left else y.right;
      && (y.color == Black ==> DeleteInv(p, x))
      && (y.color == Red ==> IsRedBlack(Plug(p, x)))
  {
    var x := if y.left.Br? then y.left else y.right;
    PlugBalanced(p, y);
    PlugRed(p, y);
    if p.Step? {
      PlugColor(p, y);
    }
    if y.color == Black {
      PathRedForget(p, Black);
    } else {
      assert x.Nil?;
      PathRedWeaken(p);
      PlugBalanced(p, x);
      PlugRed(p, x);
      PlugColor(p, x);
    }
  }

  /** A doubly black position that is not the root has a real sibling. */
  lemma DeleteSibling(fp: Frame, rest: Path, t: Tree)
    requires DeleteInv(Step(fp, rest), t)
    ensures fp.sib.Br? && BH(fp.sib) == BH(t) + 1 && Balanced(fp.sib) && RedOK(fp.sib)
  {
  }

  /** Case 1, sibling RED: sibling BLACK, parent RED and a rotation at the parent toward the
      cursor. The cursor stays, one level deeper, with a BLACK sibling. */
  lemma DeleteCase1(fp: Frame, rest: Path, t: Tree)
    requires DeleteInv(Step(fp, rest), t) && ColorOf(t) == Black && ColorOf(fp.sib) == Red
    ensures fp.sib.Br? && Child(Attach(fp, t), Opp(fp.side)) == fp.sib
    ensures var s := fp.sib; var d := fp.side;
      var ctx := Step(Frame(d, fp.id, Red, fp.key, fp.cnt, Child(s, d)),
                      Step(Frame(d, s.id, Black, s.key, s.cnt, Child(s, Opp(d))), rest));
      && DeleteInv(ctx, t) && ColorOf(Child(s, d)) == Black
      && Plug(ctx, t) == Plug(rest, Rotate(Attach(fp.(color := Red, sib := Paint(s, Black)), t), d))
  {
    var s := fp.sib;
    assert PathBal(rest, BH(t) + 1 + Weight(fp.color));
    assert fp.color == Black;
    var d := fp.side;
    var ctx := Step(Frame(d, fp.id, Red, fp.key, fp.cnt, Child(s, d)),
                    Step(Frame(d, s.id, Black, s.key, s.cnt, Child(s, Opp(d))), rest));
    assert PathBal(ctx, BH(t) + 1);
    if rest.Step? {
      assert RootColor(ctx) == RootColor(rest);
    }
  }

  /** Case 2, sibling and both its children BLACK: sibling RED and the cursor moves to the
      parent. */
  lemma DeleteCase2(fp: Frame, rest: Path, t: Tree)
    requires DeleteInv(Step(fp, rest), t) && ColorOf(t) == Black && ColorOf(fp.sib) == Black
    requires fp.sib.Br? && ColorOf(fp.sib.left) == Black && ColorOf(fp.sib.right) == Black
    ensures DeleteInv(rest, Attach(fp.(sib := Paint(fp.sib, Red)), t))
  {
    var up := Step(fp, rest);
    assert PathBal(rest, BH(t) + 1 + Weight(fp.color));
    var u := Paint(fp.sib, Red);
    assert Balanced(u) && BH(u) == BH(t);
    assert RedOK(u);
    if rest.Step? {
      assert RootColor(rest) == RootColor(up);
    }
  }

  /** Case 3 with only the sibling's near child RED (LR or RL): sibling RED, near child BLACK
      and a rotation at the sibling away from the cursor. The new sibling is BLACK with a RED far
      child. */
  lemma DeleteCase3Near(fp: Frame, rest: Path, t: Tree)
    requires DeleteInv(Step(fp, rest), t) && ColorOf(t) == Black && ColorOf(fp.sib) == Black
    requires fp.sib.Br? && ColorOf(Child(fp.sib, fp.side)) == Red && ColorOf(Child(fp.sib, Opp(fp.side))) == Black
    ensures var d := fp.side; var s := fp.sib;
      var s1 := WithChild(s.(color := Red), d, Paint(Child(s, d), Black));
      && Child(s1, d).Br?
      && var s2 := Rotate(s1, Opp(d));
      && DeleteInv(Step(fp.(sib := s2), rest), t)
      && s2.Br? && s2.color == Black && ColorOf(Child(s2, Opp(d))) == Red
  {
    var d := fp.side;
    var s := fp.sib;
    assert PathBal(rest, BH(t) + 1 + Weight(fp.color));
    DeleteSibling(fp, rest, t);
    var n := Child(s, d);
    var f := Child(s, Opp(d));
    assert n.Br? && Balanced(n) && RedOK(n) && BH(n) == BH(t);
    assert Balanced(f) && RedOK(f) && BH(f) == BH(t);
    var s1 := WithChild(s.(color := Red), d, Paint(n, Black));
    var s2 := Rotate(s1, Opp(d));
    var inner := Br(s.id, Red, s.key, s.cnt, if d == Left then n.right else f, if d == Left then f else n.left);
    assert s2 == Br(n.id, Black, n.key, n.cnt, if d == Left then n.left else inner, if d == Left then inner else n.right);
    assert Balanced(inner) && BH(inner) == BH(t) && RedOK(inner);
    var p' := Step(fp.(sib := s2), rest);
    if rest.Step? {
      assert RootColor(p') == RootColor(rest);
    }
  }

  /** Case 3 with the sibling's far child RED (LL or RR): far child BLACK, the sibling takes the
      parent's colour, parent BLACK and a rotation at the parent toward the cursor; the tree is
      red-black again. */
  lemma DeleteCase3Far(fp: Frame, rest: Path, t: Tree)
    requires DeleteInv(Step(fp, rest), t) && ColorOf(t) == Black && ColorOf(fp.sib) == Black
    requires fp.sib.Br? && ColorOf(Child(fp.sib, Opp(fp.side))) == Red
    ensures var d := fp.side; var s := fp.sib;
      var s1 := WithChild(s.(color := fp.color), Opp(d), Paint(Child(s, Opp(d)), Black));
      var q := Attach(fp.(color := Black, sib := s1), t);
      && Child(q, Opp(d)).Br?
      && IsRedBlack(Plug(rest, Rotate(q, d)))
  {
    var d := fp.side;
    var s := fp.sib;
    var up := Step(fp, rest);
    assert PathBal(rest, BH(t) + 1 + Weight(fp.color));
    DeleteSibling(fp, rest, t);
    var f := Child(s, Opp(d));
    var n := Child(s, d);
    assert f.Br? && Balanced(f) && RedOK(f) && BH(f) == BH(t);
    assert Balanced(n) && RedOK(n) && BH(n) == BH(t);
    var s1 := WithChild(s.(color := fp.color), Opp(d), Paint(f, Black));
    var q := Attach(fp.(color := Black, sib := s1), t);
    var r := Rotate(q, d);
    var low := Br(fp.id, Black, fp.key, fp.cnt, if d == Left then t else n, if d == Left then n else t);
    assert r == Br(s.id, fp.color, s.key, s.cnt, if d == Left then low else Paint(f, Black), if d == Left then Paint(f, Black) else low);
    assert Balanced(low) && BH(low) == BH(t) + 1 && RedOK(low);
    assert Balanced(Paint(f, Black)) && BH(Paint(f, Black)) == BH(t) + 1 && RedOK(Paint(f, Black));
    assert Balanced(r) && BH(r) == BH(t) + 1 + Weight(fp.color);
    assert RedOK(r);
    assert ColorOf(r) == fp.color;
    PlugBalanced(rest, r);
    PlugRed(rest, r);
    if rest.Step? {
      PlugColor(rest, r);
      assert RootColor(rest) == RootColor(up);
    }
  }

  /** When the cursor is the root or RED, colouring it BLACK yields a red-black tree. */
  lemma DeleteFinish(p: Path, t: Tree)
    requires DeleteInv(p, t) && (p.Top? || ColorOf(t) == Red)
    ensures IsRedBlack(Plug(p, Paint(t, Black)))
  {
    var t' := Paint(t, Black);
    assert Balanced(t') && RedOK(t');
    PlugBalanced(p, t');
    PlugRed(p, t');
    if p.Step? {
      PathRedAboveBlack(p);
      PlugColor(p, t');
    }
  }

  // ---------------------------------------------------------------------------------------
  // Height bound

  function Height(t: Tree): nat {
    match t
    case Nil => 0
    case Br(_, _, _, _, l, r) => 1 + (if Height(l) < Height(r) then Height(r) else Height(l))
  }

  /** The number of real nodes. */
  function Size(t: Tree): nat {
    match t
    case Nil => 0
    case Br(_, _, _, _, l, r) => Size(l) + 1 + Size(r)
  }

  function Pow2(n: nat): nat {
    if n == 0 then 1 else 2 * Pow2(n - 1)
  }

  lemma {:induction false} Pow2Add(a: nat, b: nat)
    ensures Pow2(a + b) == Pow2(a) * Pow2(b)
    decreases a
  {
    if a > 0 {
      Pow2Add(a - 1, b);
    }
  }

  lemma {:induction false} Pow2Mono(a: nat, b: nat)
    requires a <= b
    ensures Pow2(a) <= Pow2(b)
    decreases b
  {
    if a < b {
      Pow2Mono(a, b - 1);
    }
  }

  /** A balanced tree of black height h has at least 2^h - 1 nodes. */
  lemma {:induction false} SizeAboveBlackHeight(t: Tree)
    requires Balanced(t)
    ensures Pow2(BH(t)) <= Size(t) + 1
  {
    match t
    case Nil =>
    case Br(_, c, _, _, l, r) =>
      SizeAboveBlackHeight(l);
      SizeAboveBlackHeight(r);
      Pow2Mono(BH(t), BH(l) + 1);
  }

  /** With no red-red edge, at most every other node on a path is RED, so the height is at most
      twice the black height (plus one for a RED root). */
  lemma {:induction false} HeightBelowBlackHeight(t: Tree)
    requires Balanced(t) && RedOK(t)
    ensures Height(t) <= 2 * BH(t) + (if ColorOf(t) == Red then 1 else 0)
  {
    match t
    case Nil =>
    case Br(_, c, _, _, l, r) =>
      HeightBelowBlackHeight(l);
      HeightBelowBlackHeight(r);
  }

  lemma SquareMono(a: nat, b: nat)
    requires a <= b
    ensures a * a <= b * b
  {
    assert a * a <= a * b;
    assert a * b <= b * b;
  }

  /** The height of a red-black tree with n nodes is at most 2 log2(n + 1): 2^height is at
      most (n + 1)^2. */
  lemma HeightBound(t: Tree)
    requires IsRedBlack(t)
    ensures Pow2(Height(t)) <= (Size(t) + 1) * (Size(t) + 1)
  {
    HeightBelowBlackHeight(t);
    SizeAboveBlackHeight(t);
    Pow2Mono(Height(t), BH(t) + BH(t));
    Pow2Add(BH(t), BH(t));
    SquareMono(Pow2(BH(t)), Size(t) + 1);
  }
}
