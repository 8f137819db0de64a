/** The shape of an event tree as a functional value, and the zipper that stands for a position
    in it. Every `Br` carries the arena index of the node it describes, so the same value is both
    the abstract tree the proofs reason about and a map of the arena's links. A `Path` is the
    chain of parent links from a position up to the root: walking `node.parent` in the source is
    popping a `Frame`. */
module Shape {
  import opened Nodes

  /** An (eventId, count) pair, as `Event` holds it. */
  datatype Event = Event(eventId: int, count: int)

  datatype Tree = Nil | Br(id: int, color: Color, key: int, cnt: int, left: Tree, right: Tree)

  datatype Side = Left | Right

  /** One step up from a position: the parent node, on which side of it the position hangs, and
      the parent's other subtree. */
  datatype Frame = Frame(side: Side, id: int, color: Color, key: int, cnt: int, sib: Tree)

  /** Innermost frame first; `Top` is the root position. */
  datatype Path = Top | Step(frame: Frame, up: Path)

  function Opp(s: Side): Side {
    if s == Left then Right else Left
  }

  function Child(t: Tree, s: Side): Tree
    requires t.Br?
  {
    if s == Left then t.left else t.right
  }

  /** The subtree rooted at the frame's node, with `t` in the position the frame records. */
  function Attach(f: Frame, t: Tree): Tree {
    if f.side == Left then Br(f.id, f.color, f.key, f.cnt, t, f.sib)
    else Br(f.id, f.color, f.key, f.cnt, f.sib, t)
  }

  /** The whole tree obtained by putting `t` at the position `p`. */
  function Plug(p: Path, t: Tree): Tree {
    match p
    case Top => t
    case Step(f, up) => Plug(up, Attach(f, t))
  }

  lemma {:induction false} PlugBr(p: Path, t: Tree)
    requires t.Br?
    ensures Plug(p, t).Br?
  {
    match p
    case Top =>
    case Step(f, up) => PlugBr(up, Attach(f, t));
  }

  function Depth(p: Path): nat {
    match p
    case Top => 0
    case Step(_, up) => 1 + Depth(up)
  }

  /** `a` continued by `b`: the frames of `a` lie below those of `b`. */
  function Append(a: Path, b: Path): Path {
    match a
    case Top => b
    case Step(f, up) => Step(f, Append(up, b))
  }

  lemma {:induction false} PlugAppend(a: Path, b: Path, t: Tree)
    ensures Plug(Append(a, b), t) == Plug(b, Plug(a, t))
  {
    match a
    case Top =>
    case Step(f, up) => PlugAppend(up, b, Attach(f, t));
  }

  /** The arena index of the subtree's root; the sentinel's index 0 for an empty subtree. */
  function RootId(t: Tree): int {
    if t.Nil? then 0 else t.id
  }

  /** The arena index of the parent of the position; 0 (the sentinel) at the root. */
  function ParentId(p: Path): int {
    if p.Top? then 0 else p.frame.id
  }

  /** The subtree with its root recoloured (an empty subtree stays empty). */
  function Paint(t: Tree, c: Color): Tree {
    if t.Nil? then Nil else t.(color := c)
  }

  /** The frame for the sibling position: same parent, other side, `t` as the other subtree. */
  function Flip(f: Frame, t: Tree): Frame {
    Frame(Opp(f.side), f.id, f.color, f.key, f.cnt, t)
  }

  /** Seen from the sibling's position, the same tree: the sibling subtree `u` in place of the
      frame's own sibling, `t` beside it. */
  lemma FlipAttach(f: Frame, t: Tree, u: Tree)
    ensures Attach(Flip(f, t), u) == Attach(f.(sib := u), t)
  {
  }

  /** `leftRotate` on values: the right child `y` of `x` takes `x`'s place, `x` becomes `y`'s
      left child and `y`'s former left subtree becomes `x`'s right subtree. */
  function RotateLeft(t: Tree): Tree
    requires t.Br? && t.right.Br?
  {
    var y := t.right;
    Br(y.id, y.color, y.key, y.cnt, Br(t.id, t.color, t.key, t.cnt, t.left, y.left), y.right)
  }

  /** `rightRotate` on values, the mirror image of RotateLeft. */
  function RotateRight(t: Tree): Tree
    requires t.Br? && t.left.Br?
  {
    var y := t.left;
    Br(y.id, y.color, y.key, y.cnt, y.left, Br(t.id, t.color, t.key, t.cnt, y.right, t.right))
  }

  // ---------------------------------------------------------------------------------------
  // Arena indices used by a tree

  function Ids(t: Tree): set<int> {
    match t
    case Nil => {}
    case Br(i, _, _, _, l, r) => Ids(l) + {i} + Ids(r)
  }

  function PathIds(p: Path): set<int> {
    match p
    case Top => {}
    case Step(f, up) => {f.id} + Ids(f.sib) + PathIds(up)
  }

  /** No arena index occurs twice. */
  predicate Unique(t: Tree) {
    match t
    case Nil => true
    case Br(i, _, _, _, l, r) =>
      Unique(l) && Unique(r) && i !in Ids(l) && i !in Ids(r) && Ids(l) !! Ids(r)
  }

  predicate PathUnique(p: Path) {
    match p
    case Top => true
    case Step(f, up) =>
      Unique(f.sib) && f.id !in Ids(f.sib) && ({f.id} + Ids(f.sib)) !! PathIds(up) && PathUnique(up)
  }

  lemma {:induction false} IdsPlug(p: Path, t: Tree)
    ensures Ids(Plug(p, t)) == PathIds(p) + Ids(t)
  {
    match p
    case Top =>
    case Step(f, up) => IdsPlug(up, Attach(f, t));
  }

  lemma {:induction false} UniquePlug(p: Path, t: Tree)
    ensures Unique(Plug(p, t)) <==> Unique(t) && PathUnique(p) && PathIds(p) !! Ids(t)
  {
    match p
    case Top =>
    case Step(f, up) =>
      UniquePlug(up, Attach(f, t));
  }

  /** Replacing the subtree at a position by one with no index from the rest of the tree keeps
      the indices unique. */
  lemma ReplaceUnique(p: Path, t: Tree, t': Tree)
    requires Unique(Plug(p, t)) && Unique(t') && PathIds(p) !! Ids(t')
    ensures Unique(Plug(p, t'))
    ensures Ids(Plug(p, t')) == PathIds(p) + Ids(t')
  {
    UniquePlug(p, t);
    UniquePlug(p, t');
    IdsPlug(p, t');
  }

  // ---------------------------------------------------------------------------------------
  // In-order contents

  /** The in-order sequence of (key, count) pairs. */
  function Elements(t: Tree): seq<Event> {
    match t
    case Nil => []
    case Br(_, _, k, v, l, r) => Elements(l) + [Event(k, v)] + Elements(r)
  }

  /** The in-order sequence of arena indices. */
  function Order(t: Tree): seq<int> {
    match t
    case Nil => []
    case Br(i, _, _, _, l, r) => Order(l) + [i] + Order(r)
  }

  /** Subtrees with the same in-order pairs and indices give whole trees with the same ones. */
  lemma {:induction false} PlugKeeps(p: Path, t: Tree, t': Tree)
    requires Elements(t) == Elements(t') && Order(t) == Order(t')
    ensures Elements(Plug(p, t)) == Elements(Plug(p, t')) && Order(Plug(p, t)) == Order(Plug(p, t'))
  {
    match p
    case Top =>
    case Step(f, up) =>
      PlugKeeps(up, Attach(f, t), Attach(f, t'));
  }

  /** The pairs that come before the position in the in-order sequence. */
  function Before(p: Path): seq<Event> {
    match p
    case Top => []
    case Step(f, up) =>
      Before(up) + (if f.side == Right then Elements(f.sib) + [Event(f.key, f.cnt)] else [])
  }

  /** The pairs that come after the position in the in-order sequence. */
  function After(p: Path): seq<Event> {
    match p
    case Top => []
    case Step(f, up) =>
      (if f.side == Left then [Event(f.key, f.cnt)] + Elements(f.sib) else []) + After(up)
  }

  lemma {:induction false} PlugElements(p: Path, t: Tree)
    ensures Elements(Plug(p, t)) == Before(p) + Elements(t) + After(p)
  {
    match p
    case Top =>
    case Step(f, up) =>
      PlugElements(up, Attach(f, t));
  }

  /** Strictly increasing keys: the binary-search-tree order, read off the in-order sequence. */
  predicate Sorted(s: seq<Event>) {
    forall i, j :: 0 <= i < j < |s| ==> s[i].eventId < s[j].eventId
  }

  function KeysOf(s: seq<Event>): set<int> {
    set i | 0 <= i < |s| :: s[i].eventId
  }

  /** The finite map a sequence of pairs describes (a later pair overrides an earlier one). */
  function MapOf(s: seq<Event>): map<int, int> {
    if s == [] then map[] else MapOf(s[..|s| - 1])[s[|s| - 1].eventId := s[|s| - 1].count]
  }

  /** The map from event id to count that a tree stores. */
  function Contents(t: Tree): map<int, int> {
    MapOf(Elements(t))
  }

  function KeySet(t: Tree): set<int> {
    match t
    case Nil => {}
    case Br(_, _, k, _, l, r) => KeySet(l) + {k} + KeySet(r)
  }

  predicate Below(a: set<int>, b: set<int>) {
    forall x, y :: x in a && y in b ==> x < y
  }

  lemma KeysOfAppend(a: seq<Event>, b: seq<Event>)
    ensures KeysOf(a + b) == KeysOf(a) + KeysOf(b)
  {
    forall x | x in KeysOf(a + b) ensures x in KeysOf(a) + KeysOf(b) {
      var i :| 0 <= i < |a + b| && (a + b)[i].eventId == x;
      if i >= |a| { assert b[i - |a|].eventId == x; }
    }
    forall x | x in KeysOf(a) + KeysOf(b) ensures x in KeysOf(a + b) {
      if x in KeysOf(a) {
        var i :| 0 <= i < |a| && a[i].eventId == x;
        assert (a + b)[i].eventId == x;
      } else {
        var i :| 0 <= i < |b| && b[i].eventId == x;
        assert (a + b)[|a| + i].eventId == x;
      }
    }
  }

  lemma {:induction false} KeySetElements(t: Tree)
    ensures KeySet(t) == KeysOf(Elements(t))
  {
    match t
    case Nil =>
    case Br(_, _, k, v, l, r) =>
      KeySetElements(l);
      KeySetElements(r);
      KeysOfAppend(Elements(l) + [Event(k, v)], Elements(r));
      KeysOfAppend(Elements(l), [Event(k, v)]);
      KeysOfSingleton(Event(k, v));
  }

  lemma {:induction false} MapOfAppend(a: seq<Event>, b: seq<Event>)
    ensures MapOf(a + b) == MapOf(a) + MapOf(b)
    decreases |b|
  {
    if b == [] {
      assert a + b == a;
    } else {
      var b' := b[..|b| - 1];
      assert (a + b)[..|a + b| - 1] == a + b';
      assert (a + b)[|a + b| - 1] == b[|b| - 1];
      MapOfAppend(a, b');
    }
  }

  lemma {:induction false} MapOfKeys(s: seq<Event>)
    ensures MapOf(s).Keys == KeysOf(s)
    decreases |s|
  {
    if s != [] {
      var s' := s[..|s| - 1];
      MapOfKeys(s');
      assert s == s' + [s[|s| - 1]];
      KeysOfAppend(s', [s[|s| - 1]]);
      KeysOfSingleton(s[|s| - 1]);
    }
  }

  lemma SortedAppend(a: seq<Event>, b: seq<Event>)
    ensures Sorted(a + b) <==> Sorted(a) && Sorted(b) && Below(KeysOf(a), KeysOf(b))
  {
    if Sorted(a + b) {
      forall i, j | 0 <= i < j < |a| ensures a[i].eventId < a[j].eventId {
        assert (a + b)[i] == a[i] && (a + b)[j] == a[j];
      }
      forall i, j | 0 <= i < j < |b| ensures b[i].eventId < b[j].eventId {
        assert (a + b)[|a| + i] == b[i] && (a + b)[|a| + j] == b[j];
      }
      forall x, y | x in KeysOf(a) && y in KeysOf(b) ensures x < y {
        var i :| 0 <= i < |a| && a[i].eventId == x;
        var j :| 0 <= j < |b| && b[j].eventId == y;
        assert (a + b)[i] == a[i] && (a + b)[|a| + j] == b[j];
      }
    }
    if Sorted(a) && Sorted(b) && Below(KeysOf(a), KeysOf(b)) {
      forall i, j | 0 <= i < j < |a + b| ensures (a + b)[i].eventId < (a + b)[j].eventId {
        if j < |a| {
        } else if i >= |a| {
          assert (a + b)[i] == b[i - |a|] && (a + b)[j] == b[j - |a|];
        } else {
          assert (a + b)[j] == b[j - |a|];
          assert a[i].eventId in KeysOf(a) && b[j - |a|].eventId in KeysOf(b);
        }
      }
    }
  }

  /** In a sorted tree each subtree is sorted and the root key separates the two subtrees. */
  lemma SortedBr(t: Tree)
    requires t.Br? && Sorted(Elements(t))
    ensures Sorted(Elements(t.left)) && Sorted(Elements(t.right))
    ensures forall x :: x in KeySet(t.left) ==> x < t.key
    ensures forall x :: x in KeySet(t.right) ==> t.key < x
  {
    var l, e, r := Elements(t.left), [Event(t.key, t.cnt)], Elements(t.right);
    SortedAppend(l + e, r);
    SortedAppend(l, e);
    KeysOfAppend(l, e);
    KeysOfSingleton(Event(t.key, t.cnt));
    KeySetElements(t.left);
    KeySetElements(t.right);
  }

  /** The count stored at an element of a sorted sequence is what the map gives for its key. */
  lemma MapOfSortedAt(s: seq<Event>, i: int)
    requires Sorted(s) && 0 <= i < |s|
    ensures s[i].eventId in MapOf(s) && MapOf(s)[s[i].eventId] == s[i].count
  {
    var a, b := s[..i + 1], s[i + 1..];
    assert s == a + b;
    MapOfAppend(a, b);
    SortedAfter(s, i);
    MapOfKeys(b);
    assert a[|a| - 1] == s[i];
  }

  lemma SortedAfter(s: seq<Event>, i: int)
    requires Sorted(s) && 0 <= i < |s|
    ensures s[i].eventId !in KeysOf(s[i + 1..])
  {
    var b := s[i + 1..];
    forall j | 0 <= j < |b| ensures b[j].eventId != s[i].eventId {
      assert b[j] == s[i + 1 + j];
    }
  }

  lemma KeysOfSingleton(e: Event)
    ensures KeysOf([e]) == {e.eventId}
  {
    assert [e][0] == e;
  }

  lemma MapUpdateUnion(m1: map<int, int>, m2: map<int, int>, k: int, v: int)
    requires k !in m2
    ensures (m1 + m2)[k := v] == m1[k := v] + m2
  {
  }

  lemma MapRemoveUnion(m1: map<int, int>, m2: map<int, int>, k: int, v: int)
    requires k !in m1 && k !in m2
    ensures (m1[k := v] + m2) - {k} == m1 + m2
  {
  }

  /** A sorted sequence split around one element: its key is above the front and below the back. */
  lemma SortedSplit(a: seq<Event>, e: Event, b: seq<Event>)
    requires Sorted(a + [e] + b)
    ensures Sorted(a + b)
    ensures forall x :: x in KeysOf(a) ==> x < e.eventId
    ensures forall x :: x in KeysOf(b) ==> e.eventId < x
  {
    var s := a + [e] + b;
    forall x | x in KeysOf(a) ensures x < e.eventId {
      var i :| 0 <= i < |a| && a[i].eventId == x;
      assert s[i] == a[i] && s[|a|] == e;
    }
    forall x | x in KeysOf(b) ensures e.eventId < x {
      var j :| 0 <= j < |b| && b[j].eventId == x;
      assert s[|a| + 1 + j] == b[j] && s[|a|] == e;
    }
    forall i, j | 0 <= i < j < |a + b| ensures (a + b)[i].eventId < (a + b)[j].eventId {
      var i' := if i < |a| then i else i + 1;
      var j' := if j < |a| then j else j + 1;
      assert (a + b)[i] == s[i'] && (a + b)[j] == s[j'];
    }
  }

  /** The converse of SortedSplit: a key strictly between the halves can be put between them. */
  lemma SortedJoin(a: seq<Event>, e: Event, b: seq<Event>)
    requires Sorted(a + b)
    requires forall x :: x in KeysOf(a) ==> x < e.eventId
    requires forall x :: x in KeysOf(b) ==> e.eventId < x
    ensures Sorted(a + [e] + b)
  {
    var s := a + [e] + b;
    forall i, j | 0 <= i < j < |s| ensures s[i].eventId < s[j].eventId {
      if i < |a| && j < |a| {
        assert s[i] == (a + b)[i] && s[j] == (a + b)[j];
      } else if i > |a| && j > |a| {
        assert s[i] == (a + b)[i - 1] && s[j] == (a + b)[j - 1];
      } else if i < |a| && j > |a| {
        assert s[i] == (a + b)[i] && s[j] == (a + b)[j - 1];
      } else if i == |a| {
        assert s[j] == b[j - |a| - 1];
        assert b[j - |a| - 1].eventId in KeysOf(b);
      } else {
        assert s[i] == a[i];
        assert a[i].eventId in KeysOf(a);
      }
    }
  }

  lemma MapOfPairs(a: seq<Event>, e: Event, b: seq<Event>)
    ensures MapOf(a + [e] + b) == MapOf(a)[e.eventId := e.count] + MapOf(b)
    ensures MapOf(a + b) == MapOf(a) + MapOf(b)
  {
    MapOfAppend(a + [e], b);
    MapOfAppend(a, b);
    assert (a + [e])[..|a|] == a;
  }

  /** Inserting a pair whose key lies strictly between the two halves of a sorted sequence keeps
      it sorted and adds exactly that entry to the map. */
  lemma MapOfInsert(a: seq<Event>, e: Event, b: seq<Event>)
    requires Sorted(a + b)
    requires forall x :: x in KeysOf(a) ==> x < e.eventId
    requires forall x :: x in KeysOf(b) ==> e.eventId < x
    ensures Sorted(a + [e] + b)
    ensures MapOf(a + [e] + b) == MapOf(a + b)[e.eventId := e.count]
    ensures e.eventId !in MapOf(a + b)
  {
    SortedJoin(a, e, b);
    MapOfPairs(a, e, b);
    MapOfKeys(a);
    MapOfKeys(b);
    MapUpdateUnion(MapOf(a), MapOf(b), e.eventId, e.count);
  }

  /** Dropping one pair from a sorted sequence keeps it sorted and removes exactly its key from
      the map. */
  lemma MapOfDrop(a: seq<Event>, e: Event, b: seq<Event>)
    requires Sorted(a + [e] + b)
    ensures Sorted(a + b)
    ensures MapOf(a + b) == MapOf(a + [e] + b) - {e.eventId}
  {
    SortedSplit(a, e, b);
    MapOfPairs(a, e, b);
    MapOfKeys(a);
    MapOfKeys(b);
    MapRemoveUnion(MapOf(a), MapOf(b), e.eventId, e.count);
  }

  /** The last pair of a non-empty sorted sequence: its key is above every other key, and the
      rest's map is the whole map without that key. */
  lemma SortedLast(s: seq<Event>)
    requires Sorted(s) && |s| > 0
    ensures Sorted(s[..|s| - 1])
    ensures forall x :: x in KeysOf(s) ==> x <= s[|s| - 1].eventId
    ensures MapOf(s[..|s| - 1]) == MapOf(s) - {s[|s| - 1].eventId}
  {
    var a, e := s[..|s| - 1], s[|s| - 1];
    assert s == a + [e] + [];
    SortedSplit(a, e, []);
    MapOfDrop(a, e, []);
    assert a + [] == a;
    KeysOfAppend(a, [e]);
    KeysOfSingleton(e);
  }

  /** Only the empty sequence describes the empty map. */
  lemma MapOfEmpty(s: seq<Event>)
    ensures MapOf(s) == map[] <==> s == []
  {
    if s != [] {
      assert s[|s| - 1].eventId in MapOf(s);
    }
  }

  /** Two non-empty sorted sequences describing the same map end in the same pair (the one with
      the largest key), and what precedes it describes the same map too. */
  lemma SameLast(a: seq<Event>, b: seq<Event>)
    requires Sorted(a) && Sorted(b) && MapOf(a) == MapOf(b) && a != [] && b != []
    ensures a[|a| - 1] == b[|b| - 1]
    ensures Sorted(a[..|a| - 1]) && Sorted(b[..|b| - 1])
    ensures MapOf(a[..|a| - 1]) == MapOf(b[..|b| - 1])
  {
    var ea, eb := a[|a| - 1], b[|b| - 1];
    MapOfKeys(a);
    MapOfKeys(b);
    SortedLast(a);
    SortedLast(b);
    assert ea.eventId in KeysOf(a) && eb.eventId in KeysOf(b);
    assert ea.eventId == eb.eventId;
    MapOfSortedAt(a, |a| - 1);
    MapOfSortedAt(b, |b| - 1);
  }

  /** A sorted sequence of pairs is determined by the map it describes: two binary search trees
      storing the same map have the same in-order sequence. */
  lemma {:induction false} SortedMapDetermines(a: seq<Event>, b: seq<Event>)
    requires Sorted(a) && Sorted(b) && MapOf(a) == MapOf(b)
    ensures a == b
    decreases |a|
  {
    MapOfEmpty(a);
    MapOfEmpty(b);
    if a != [] {
      SameLast(a, b);
      SortedMapDetermines(a[..|a| - 1], b[..|b| - 1]);
      assert a == a[..|a| - 1] + [a[|a| - 1]];
      assert b == b[..|b| - 1] + [b[|b| - 1]];
    }
  }

  /** Rotations keep the in-order sequence of (key, count) pairs and the set of nodes. */
  lemma RotateLeftKeeps(t: Tree)
    requires t.Br? && t.right.Br?
    ensures Elements(RotateLeft(t)) == Elements(t) && Order(RotateLeft(t)) == Order(t)
    ensures Ids(RotateLeft(t)) == Ids(t)
    ensures Unique(t) ==> Unique(RotateLeft(t))
  {
    RotateLeftElements(t);
    RotateLeftOrder(t);
    if Unique(t) {
      RotateLeftUnique(t);
    }
  }


  lemma RotateLeftUnique(t: Tree)
    requires t.Br? && t.right.Br? && Unique(t)
    ensures Unique(RotateLeft(t))
  {
    var x, y := t, t.right;
    assert Unique(y);
    assert Ids(y) == Ids(y.left) + {y.id} + Ids(y.right);
    var nx := Br(x.id, x.color, x.key, x.cnt, x.left, y.left);
    assert Ids(nx) == Ids(x.left) + {x.id} + Ids(y.left);
    assert Unique(nx);
  }

  lemma RotateRightKeeps(t: Tree)
    requires t.Br? && t.left.Br?
    ensures Elements(RotateRight(t)) == Elements(t) && Order(RotateRight(t)) == Order(t)
    ensures Ids(RotateRight(t)) == Ids(t)
    ensures Unique(t) ==> Unique(RotateRight(t))
  {
    RotateRightElements(t);
    RotateRightOrder(t);
    if Unique(t) {
      RotateRightUnique(t);
    }
  }


  lemma RotateRightUnique(t: Tree)
    requires t.Br? && t.left.Br? && Unique(t)
    ensures Unique(RotateRight(t))
  {
    var x, y := t, t.left;
    assert Unique(y);
    assert Ids(y) == Ids(y.left) + {y.id} + Ids(y.right);
    var nx := Br(x.id, x.color, x.key, x.cnt, y.right, x.right);
    assert Ids(nx) == Ids(y.right) + {x.id} + Ids(x.right);
    assert Unique(nx);
  }

  /** Concatenation regrouped, as the rotations and the splices regroup in-order sequences. */
  lemma Regroup<T>(a: seq<T>, x: seq<T>, m: seq<T>, y: seq<T>, c: seq<T>)
    ensures a + x + (m + y + c) == (a + x + m) + y + c
    ensures a + (x + m + y) + c == (a + x) + m + (y + c)
    ensures a + (x + y) + c == (a + x) + (y + c)
  {
  }

  lemma RotateLeftOrder(t: Tree)
    requires t.Br? && t.right.Br?
    ensures Order(RotateLeft(t)) == Order(t)
  {
    var x, y := t, t.right;
    var a, b, c := Order(x.left), Order(y.left), Order(y.right);
    assert Order(y) == b + [y.id] + c;
    assert Order(t) == a + [x.id] + (b + [y.id] + c);
    var nx := Br(x.id, x.color, x.key, x.cnt, x.left, y.left);
    assert Order(nx) == a + [x.id] + b;
    assert Order(RotateLeft(t)) == Order(nx) + [y.id] + c;
    Regroup(a, [x.id], b, [y.id], c);
  }

  lemma RotateRightOrder(t: Tree)
    requires t.Br? && t.left.Br?
    ensures Order(RotateRight(t)) == Order(t)
  {
    var x, y := t, t.left;
    var a, b, c := Order(y.left), Order(y.right), Order(x.right);
    assert Order(y) == a + [y.id] + b;
    assert Order(t) == (a + [y.id] + b) + [x.id] + c;
    var nx := Br(x.id, x.color, x.key, x.cnt, y.right, x.right);
    assert Order(nx) == b + [x.id] + c;
    assert Order(RotateRight(t)) == a + [y.id] + Order(nx);
    Regroup(a, [y.id], b, [x.id], c);
  }

  lemma RotateLeftElements(t: Tree)
    requires t.Br? && t.right.Br?
    ensures Elements(RotateLeft(t)) == Elements(t)
  {
    var x, y := t, t.right;
    var a, b, c := Elements(x.left), Elements(y.left), Elements(y.right);
    var ex, ey := [Event(x.key, x.cnt)], [Event(y.key, y.cnt)];
    assert Elements(y) == b + ey + c;
    assert Elements(t) == a + ex + (b + ey + c);
    var nx := Br(x.id, x.color, x.key, x.cnt, x.left, y.left);
    assert Elements(nx) == a + ex + b;
    assert Elements(RotateLeft(t)) == Elements(nx) + ey + c;
    Regroup(a, ex, b, ey, c);
  }

  lemma RotateRightElements(t: Tree)
    requires t.Br? && t.left.Br?
    ensures Elements(RotateRight(t)) == Elements(t)
  {
    var x, y := t, t.left;
    var a, b, c := Elements(y.left), Elements(y.right), Elements(x.right);
    var ex, ey := [Event(x.key, x.cnt)], [Event(y.key, y.cnt)];
    assert Elements(y) == a + ey + b;
    assert Elements(t) == (a + ey + b) + ex + c;
    var nx := Br(x.id, x.color, x.key, x.cnt, y.right, x.right);
    assert Elements(nx) == b + ex + c;
    assert Elements(RotateRight(t)) == a + ey + Elements(nx);
    Regroup(a, ey, b, ex, c);
  }
}
