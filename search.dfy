/** Facts about searching a binary search tree: what the descent from a node may rule out, the
    count a node contributes to the map, and the range sum `countInRange` computes. */
module Search {
  import opened Nodes
  import opened JavaInt
  import opened Shape

  /** The position of child `s` of the root of `t`, where `t` sits at position `p`. */
  function Down(p: Path, t: Tree, s: Side): (q: Path)
    requires t.Br?
    ensures Plug(q, Child(t, s)) == Plug(p, t) && Depth(q) == Depth(p) + 1
  {
    Step(Frame(s, t.id, t.color, t.key, t.cnt, Child(t, Opp(s))), p)
  }

  lemma {:induction false} ContentsKeys(t: Tree)
    ensures Contents(t).Keys == KeySet(t)
  {
    MapOfKeys(Elements(t));
    KeySetElements(t);
  }

  lemma {:induction false} KeySetPlug(p: Path, t: Tree)
    ensures KeySet(t) <= KeySet(Plug(p, t))
  {
    match p
    case Top =>
    case Step(f, up) =>
      KeySetPlug(up, Attach(f, t));
  }

  /** Each subtree of a binary search tree is one, and a node's count is what the map of the
      whole tree gives for its key. */
  lemma PlugSorted(p: Path, t: Tree)
    requires Sorted(Elements(Plug(p, t)))
    ensures Sorted(Elements(t))
    ensures KeySet(t) <= KeySet(Plug(p, t))
    ensures t.Br? ==> t.key in Contents(Plug(p, t)) && Contents(Plug(p, t))[t.key] == t.cnt
  {
    PlugElements(p, t);
    var b, e, a := Before(p), Elements(t), After(p);
    SortedAppend(b + e, a);
    SortedAppend(b, e);
    KeySetPlug(p, t);
    if t.Br? {
      var i := |b| + |Elements(t.left)|;
      assert (b + e + a)[i] == Event(t.key, t.cnt);
      MapOfSortedAt(b + e + a, i);
    }
  }

  /** One step of a descent for key `k`: a key of the subtree below its root's key lies in the
      left subtree, one above it in the right subtree. */
  lemma SearchStep(p: Path, t: Tree, k: int)
    requires Sorted(Elements(Plug(p, t))) && t.Br?
    ensures k in KeySet(t) && k < t.key ==> k in KeySet(t.left)
    ensures k in KeySet(t) && t.key < k ==> k in KeySet(t.right)
    ensures forall j :: j in KeySet(t.left) ==> j < t.key
    ensures forall j :: j in KeySet(t.right) ==> t.key < j
  {
    PlugSorted(p, t);
    SortedBr(t);
  }

  /** The key `k` fits strictly between the pairs before the position and those after it. */
  predicate Between(p: Path, k: int) {
    && (forall x :: x in KeysOf(Before(p)) ==> x < k)
    && (forall x :: x in KeysOf(After(p)) ==> k < x)
  }

  /** insertNode's descent keeps the new key between the two halves around the position. */
  lemma DescendBetween(p: Path, t: Tree, k: int)
    requires Sorted(Elements(Plug(p, t))) && t.Br? && Between(p, k) && k != t.key
    ensures Between(Down(p, t, if k < t.key then Left else Right), k)
  {
    SearchStep(p, t, k);
    KeySetElements(t.left);
    KeySetElements(t.right);
    var e := [Event(t.key, t.cnt)];
    KeysOfSingleton(Event(t.key, t.cnt));
    if k < t.key {
      var q := Down(p, t, Left);
      assert After(q) == (e + Elements(t.right)) + After(p) && Before(q) == Before(p);
      KeysOfAppend(e, Elements(t.right));
      KeysOfAppend(e + Elements(t.right), After(p));
      assert forall x :: x in KeysOf(e + Elements(t.right)) ==> k < x;
    } else {
      var q := Down(p, t, Right);
      assert Before(q) == Before(p) + (Elements(t.left) + e) && After(q) == After(p);
      KeysOfAppend(Elements(t.left), e);
      KeysOfAppend(Before(p), Elements(t.left) + e);
      assert forall x :: x in KeysOf(Elements(t.left) + e) ==> x < k;
    }
  }

  /** A RED leaf with a key between the halves around an empty position keeps the tree a binary
      search tree and adds exactly its own entry to the map. */
  lemma LeafInsert(p: Path, z: int, k: int, v: int)
    requires Sorted(Elements(Plug(p, Nil))) && Between(p, k)
    ensures Sorted(Elements(Plug(p, Br(z, Red, k, v, Nil, Nil))))
    ensures Contents(Plug(p, Br(z, Red, k, v, Nil, Nil))) == Contents(Plug(p, Nil))[k := v]
    ensures k !in Contents(Plug(p, Nil))
  {
    var leaf := Br(z, Red, k, v, Nil, Nil);
    PlugElements(p, Nil);
    PlugElements(p, leaf);
    assert Elements(Plug(p, Nil)) == Before(p) + After(p);
    assert Elements(Plug(p, leaf)) == Before(p) + [Event(k, v)] + After(p);
    MapOfInsert(Before(p), Event(k, v), After(p));
  }

  /** A subtree whose in-order sequence is `a + m + b` contributes `m` between the same two
      halves of the whole tree's sequence. */
  lemma PlugMid(p: Path, t: Tree, a: seq<Event>, m: seq<Event>, b: seq<Event>)
    requires Elements(t) == a + m + b
    ensures Elements(Plug(p, t)) == (Before(p) + a) + m + (b + After(p))
  {
    PlugElements(p, t);
    Regroup(Before(p), a, m, b, After(p));
  }

  /** Replacing the count of one pair of a sorted sequence changes exactly its entry. */
  lemma MapOfReplace(a: seq<Event>, e: Event, b: seq<Event>, v: int)
    requires Sorted(a + [e] + b)
    ensures Sorted(a + [Event(e.eventId, v)] + b)
    ensures MapOf(a + [Event(e.eventId, v)] + b) == MapOf(a + [e] + b)[e.eventId := v]
  {
    SortedSplit(a, e, b);
    MapOfInsert(a, Event(e.eventId, v), b);
    MapOfInsert(a, e, b);
  }

  /** Overwriting the count of one node keeps the tree a binary search tree and changes exactly
      the entry of that node's key. */
  lemma Recount(p: Path, t: Tree, v: int)
    requires Sorted(Elements(Plug(p, t))) && t.Br?
    ensures Sorted(Elements(Plug(p, t.(cnt := v))))
    ensures Contents(Plug(p, t.(cnt := v))) == Contents(Plug(p, t))[t.key := v]
  {
    var l, r := Elements(t.left), Elements(t.right);
    PlugMid(p, t, l, [Event(t.key, t.cnt)], r);
    PlugMid(p, t.(cnt := v), l, [Event(t.key, v)], r);
    MapOfReplace(Before(p) + l, Event(t.key, t.cnt), r + After(p), v);
  }

  // ---------------------------------------------------------------------------------------
  // buildTree

  /** A path made only of right turns: the way down from the root to the maximum. */
  predicate RightSpine(p: Path) {
    match p
    case Top => true
    case Step(f, up) => f.side == Right && RightSpine(up)
  }

  /** The empty position at the bottom of the right spine of `t`, which sits at `p`: where
      buildTree attaches the next, larger event. */
  function EndRight(p: Path, t: Tree): Path
    decreases t
  {
    if t.Nil? then p else EndRight(Down(p, t, Right), t.right)
  }

  /** The end of the right spine hangs below the last node in order, the maximum. */
  lemma {:induction false} EndRightFacts(p: Path, t: Tree)
    requires RightSpine(p)
    ensures var q := EndRight(p, t);
      && RightSpine(q) && Plug(q, Nil) == Plug(p, t)
      && (t.Br? ==> q.Step? && q.frame.id == Order(t)[|Order(t)| - 1])
    decreases t
  {
    if t.Br? {
      EndRightFacts(Down(p, t, Right), t.right);
    }
  }

  lemma {:induction false} SpineAfter(p: Path)
    requires RightSpine(p)
    ensures After(p) == []
  {
    match p
    case Top =>
    case Step(f, up) => SpineAfter(up);
  }

  /** buildTree's position: a key above every stored one belongs at the end of the right
      spine, below the last node in order. */
  lemma MaxBetween(t: Tree, k: int)
    requires t.Br? && forall x :: x in Contents(t) ==> x < k
    ensures var q := EndRight(Top, t);
      && Between(q, k) && RightSpine(q) && Plug(q, Nil) == t
      && q.Step? && q.frame.side == Right && q.frame.id == Order(t)[|Order(t)| - 1]
  {
    var q := EndRight(Top, t);
    EndRightFacts(Top, t);
    SpineAfter(q);
    PlugElements(q, Nil);
    assert Before(q) == Elements(t);
    KeySetElements(t);
    ContentsKeys(t);
    assert forall x :: x in KeysOf(Before(q)) ==> x in Contents(t);
  }

  /** In a list sorted by id, every id before position `i` is below the one at `i`: the
      precondition of each buildTree step of the sorted build. */
  lemma PrefixBelow(s: seq<Event>, i: int)
    requires Sorted(s) && 0 <= i < |s|
    ensures forall k :: k in MapOf(s[..i]) ==> k < s[i].eventId
  {
    MapOfKeys(s[..i]);
    forall k | k in KeysOf(s[..i]) ensures k < s[i].eventId {
      var j :| 0 <= j < i && s[..i][j].eventId == k;
      assert s[j] == s[..i][j];
    }
  }

  /** A subtree at the end of a right spine comes last in both in-order sequences. */
  lemma {:induction false} RightSpineEnd(p: Path, t: Tree)
    requires RightSpine(p)
    ensures Elements(Plug(p, t)) == Elements(Plug(p, Nil)) + Elements(t)
    ensures Order(Plug(p, t)) == Order(Plug(p, Nil)) + Order(t)
  {
    match p
    case Top =>
    case Step(f, up) =>
      RightSpineEnd(up, Attach(f, t));
      RightSpineEnd(up, Attach(f, Nil));
      assert Order(Attach(f, t)) == Order(Attach(f, Nil)) + Order(t);
      assert Elements(Attach(f, t)) == Elements(Attach(f, Nil)) + Elements(t);
  }

  // ---------------------------------------------------------------------------------------
  // countInRange

  /** The sum of the counts of the pairs whose key lies in [lo, hi]. */
  function RangeSum(s: seq<Event>, lo: int, hi: int): int {
    if s == [] then 0
    else (if lo <= s[0].eventId <= hi then s[0].count else 0) + RangeSum(s[1..], lo, hi)
  }

  lemma {:induction false} RangeSumAppend(a: seq<Event>, b: seq<Event>, lo: int, hi: int)
    ensures RangeSum(a + b, lo, hi) == RangeSum(a, lo, hi) + RangeSum(b, lo, hi)
  {
    if a == [] {
      assert a + b == b;
    } else {
      assert (a + b)[0] == a[0];
      assert (a + b)[1..] == a[1..] + b;
      RangeSumAppend(a[1..], b, lo, hi);
    }
  }

  /** Pairs whose keys all lie outside [lo, hi] contribute nothing. */
  lemma {:induction false} RangeSumOutside(s: seq<Event>, lo: int, hi: int)
    requires forall i :: 0 <= i < |s| ==> s[i].eventId < lo || hi < s[i].eventId
    ensures RangeSum(s, lo, hi) == 0
  {
    if s != [] {
      assert forall i :: 0 <= i < |s[1..]| ==> s[1..][i] == s[i + 1];
      RangeSumOutside(s[1..], lo, hi);
    }
  }

  lemma KeysOutside(t: Tree, lo: int, hi: int)
    requires forall j :: j in KeySet(t) ==> j < lo || hi < j
    ensures RangeSum(Elements(t), lo, hi) == 0
  {
    var s := Elements(t);
    KeySetElements(t);
    forall i | 0 <= i < |s| ensures s[i].eventId < lo || hi < s[i].eventId {
      assert s[i].eventId in KeysOf(s);
    }
    RangeSumOutside(s, lo, hi);
  }

  /** The sum over a tree splits at its root. */
  lemma RangeSumBr(t: Tree, lo: int, hi: int)
    requires t.Br?
    ensures RangeSum(Elements(t), lo, hi) ==
      RangeSum(Elements(t.left), lo, hi) + (if lo <= t.key <= hi then t.cnt else 0) + RangeSum(Elements(t.right), lo, hi)
  {
    var e := [Event(t.key, t.cnt)];
    RangeSumAppend(Elements(t.left) + e, Elements(t.right), lo, hi);
    RangeSumAppend(Elements(t.left), e, lo, hi);
    assert e[1..] == [];
  }

  /** An empty range has sum 0. */
  lemma RangeSumEmpty(s: seq<Event>, lo: int, hi: int)
    ensures hi < lo ==> RangeSum(s, lo, hi) == 0
  {
    if hi < lo {
      RangeSumOutside(s, lo, hi);
    }
  }

  /** The three branches of countInRange at a node of a binary search tree: a node in range
      adds its count to both subtrees' sums (in Java `int` arithmetic), a node below the range
      leaves only its right subtree, one above it only its left subtree. */
  lemma RangeSumStep(t: Tree, lo: int, hi: int)
    requires t.Br? && Sorted(Elements(t))
    ensures lo <= t.key <= hi ==>
      Wrap(Wrap(t.cnt + Wrap(RangeSum(Elements(t.left), lo, hi))) + Wrap(RangeSum(Elements(t.right), lo, hi)))
        == Wrap(RangeSum(Elements(t), lo, hi))
    ensures t.key < lo ==> RangeSum(Elements(t), lo, hi) == RangeSum(Elements(t.right), lo, hi)
    ensures hi < t.key ==> RangeSum(Elements(t), lo, hi) == RangeSum(Elements(t.left), lo, hi)
  {
    var L, R := RangeSum(Elements(t.left), lo, hi), RangeSum(Elements(t.right), lo, hi);
    RangeSumBr(t, lo, hi);
    SortedBr(t);
    if lo <= t.key <= hi {
      WrapSum3(t.cnt, L, R);
    }
    if t.key < lo {
      KeysOutside(t.left, lo, hi);
    }
    if hi < t.key {
      KeysOutside(t.right, lo, hi);
    }
  }
}
