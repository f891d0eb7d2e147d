/**
How the abstract tree is stored: four words a row id in the node array, row id 0 being
the nil sentinel. `Linked` and `PathLinked` tie the array to a tree and to a path, and
the lemmas say which writes keep them.
*/
module RbLink {
  import opened RowWord
  import opened RbShape

  /** rb_left, rb_right, rb_parent and color_sibling of one row id. */
  datatype RbNode = RbNode(left: nat, right: nat, parent: nat, cs: Word)

  const ZERO_NODE := RbNode(0, 0, 0, 0)

  type Nodes = seq<RbNode>

  ghost predicate Linked(n: Nodes, t: Tree, parent: nat) {
    t.Node? ==>
      && 0 < t.x < |n|
      && n[t.x].left == Root(t.l) && n[t.x].right == Root(t.r) && n[t.x].parent == parent
      && Tagged(n[t.x].cs) == t.red
      && Linked(n, t.l, t.x) && Linked(n, t.r, t.x)
  }

  ghost predicate PathLinked(n: Nodes, p: Path, hole: nat) {
    match p
    case Top => true
    case InL(c, x, r, up) =>
      && 0 < x < |n|
      && n[x].left == hole && n[x].right == Root(r) && n[x].parent == Parent(up)
      && Tagged(n[x].cs) == c
      && Linked(n, r, x) && PathLinked(n, up, x)
    case InR(c, l, x, up) =>
      && 0 < x < |n|
      && n[x].left == Root(l) && n[x].right == hole && n[x].parent == Parent(up)
      && Tagged(n[x].cs) == c
      && Linked(n, l, x) && PathLinked(n, up, x)
  }

  /** The array and root word store the tree that `t` completes at the end of `p`. */
  ghost predicate Stored(root: nat, n: Nodes, p: Path, t: Tree) {
    && |n| > 0 && n[0].left == 0 && n[0].right == 0 && n[0].cs == 0
    && ZipDistinct(p, t)
    && Linked(n, t, Parent(p)) && PathLinked(n, p, Root(t))
    && root == RootAbove(p, Root(t))
  }

  /** Moving the focus to the top and back changes nothing. */
  lemma {:induction false} StoredPlug(root: nat, n: Nodes, p: Path, t: Tree)
    ensures Stored(root, n, p, t) <==> Stored(root, n, Top, Plug(p, t))
  {
    if !p.Top? {
      StoredPlug(root, n, p.up, Step(p, t));
    }
  }

  lemma {:induction false} LinkedRange(n: Nodes, t: Tree, parent: nat)
    requires Linked(n, t, parent)
    ensures forall i :: i in Ids(t) ==> 0 < i < |n|
  {
    if t.Node? {
      LinkedRange(n, t.l, t.x);
      LinkedRange(n, t.r, t.x);
    }
  }

  lemma {:induction false} PathLinkedRange(n: Nodes, p: Path, hole: nat)
    requires PathLinked(n, p, hole)
    ensures forall i :: i in PathIds(p) ==> 0 < i < |n|
  {
    match p
    case Top =>
    case InL(_, x, r, up) => LinkedRange(n, r, x); PathLinkedRange(n, up, x);
    case InR(_, l, x, up) => LinkedRange(n, l, x); PathLinkedRange(n, up, x);
  }

  // ----- framing

  ghost predicate SameOn(n: Nodes, n': Nodes, s: set<nat>) {
    |n| <= |n'| && forall i :: i in s && i < |n| ==> n'[i] == n[i]
  }

  lemma {:induction false} LinkedFrame(n: Nodes, n': Nodes, t: Tree, parent: nat)
    requires Linked(n, t, parent) && SameOn(n, n', Ids(t))
    ensures Linked(n', t, parent)
  {
    if t.Node? {
      assert t.x in Ids(t);
      LinkedFrame(n, n', t.l, t.x);
      LinkedFrame(n, n', t.r, t.x);
    }
  }

  /** The subtree keeps its links when only the parent word of its root changes. */
  lemma {:induction false} Reparent(n: Nodes, n': Nodes, t: Tree, parent: nat, parent': nat)
    requires Linked(n, t, parent) && Distinct(t) && |n| <= |n'|
    requires SameOn(n, n', Ids(t) - {Root(t)})
    requires t.Node? ==> t.x < |n| && n'[t.x] == n[t.x].(parent := parent')
    ensures Linked(n', t, parent')
  {
    if t.Node? {
      LinkedFrame(n, n', t.l, t.x);
      LinkedFrame(n, n', t.r, t.x);
    }
  }

  lemma {:induction false} PathFrame(n: Nodes, n': Nodes, p: Path, hole: nat)
    requires PathLinked(n, p, hole) && SameOn(n, n', PathIds(p))
    ensures PathLinked(n', p, hole)
  {
    match p
    case Top =>
    case InL(_, x, r, up) => LinkedFrame(n, n', r, x); PathFrame(n, n', up, x);
    case InR(_, l, x, up) => LinkedFrame(n, n', l, x); PathFrame(n, n', up, x);
  }

  /** The child word of the lowest node of the path now names `hole'`. */
  ghost predicate ChildSet(n: Nodes, n': Nodes, p: Path, hole': nat)
    requires p.Top? || (p.x < |n| && p.x < |n'|)
  {
    match p
    case Top => true
    case InL(_, x, _, _) => n'[x] == n[x].(left := hole')
    case InR(_, _, x, _) => n'[x] == n[x].(right := hole')
  }

  lemma {:induction false} PathRehole(n: Nodes, n': Nodes, p: Path, hole: nat, hole': nat)
    requires PathLinked(n, p, hole) && PathDistinct(p) && |n| <= |n'|
    requires SameOn(n, n', PathIds(p) - {Parent(p)})
    requires ChildSet(n, n', p, hole')
    ensures PathLinked(n', p, hole')
  {
    match p
    case Top =>
    case InL(_, x, r, up) => LinkedFrame(n, n', r, x); PathFrame(n, n', up, x);
    case InR(_, l, x, up) => LinkedFrame(n, n', l, x); PathFrame(n, n', up, x);
  }

  lemma {:induction false} RootAboveRehole(p: Path, hole: nat, hole': nat)
    ensures !p.Top? ==> RootAbove(p, hole) == RootAbove(p, hole')
  {
  }

  // ----- rotations and recolouring

  function RotatedLeft(t: Tree): Tree
    requires t.Node? && t.r.Node?
  {
    Node(t.r.red, Node(t.red, t.l, t.x, t.r.l), t.r.x, t.r.r)
  }

  function RotatedRight(t: Tree): Tree
    requires t.Node? && t.l.Node?
  {
    Node(t.l.red, t.l.l, t.l.x, Node(t.red, t.l.r, t.x, t.r))
  }

  lemma RotatedLeftOrder(t: Tree)
    requires t.Node? && t.r.Node?
    ensures Order(RotatedLeft(t)) == Order(t)
    ensures Ids(RotatedLeft(t)) == Ids(t) && (Distinct(t) ==> Distinct(RotatedLeft(t)))
  {
    var a, x, b, y, e := t.l, t.x, t.r.l, t.r.x, t.r.r;
    assert Order(t.r) == Order(b) + [y] + Order(e);
    assert Order(RotatedLeft(t).l) == Order(a) + [x] + Order(b);
    assert (Order(a) + [x] + Order(b)) + [y] + Order(e) == Order(a) + [x] + (Order(b) + [y] + Order(e));
    assert Ids(t.r) == Ids(b) + {y} + Ids(e);
    assert Ids(RotatedLeft(t).l) == Ids(a) + {x} + Ids(b);
    if Distinct(t) {
      assert Distinct(t.r);
    }
  }

  lemma RotatedRightOrder(t: Tree)
    requires t.Node? && t.l.Node?
    ensures Order(RotatedRight(t)) == Order(t)
    ensures Ids(RotatedRight(t)) == Ids(t) && (Distinct(t) ==> Distinct(RotatedRight(t)))
  {
    assert RotatedLeft(RotatedRight(t)) == t;
    RotatedLeftOrder(RotatedRight(t));
    assert Distinct(t) ==> Distinct(t.l);
    assert Ids(t.l) == Ids(t.l.l) + {t.l.x} + Ids(t.l.r);
    assert Ids(RotatedRight(t).r) == Ids(t.l.r) + {t.x} + Ids(t.r);
  }

  // ----- the writes

  /** The parent word of B, when B is not nil. */
  function WithParent(n: Nodes, B: nat, parent: nat): Nodes
    requires B < |n|
  {
    if B == 0 then n else n[B := n[B].(parent := parent)]
  }

  /** The child word of P that named X names Y, when P is not nil. */
  function WithChild(n: Nodes, P: nat, X: nat, Y: nat): Nodes
    requires P < |n|
  {
    if P == 0 then n
    else if n[P].left == X then n[P := n[P].(left := Y)]
    else n[P := n[P].(right := Y)]
  }

  /** The row ids a left rotation at X touches are in range and apart. */
  ghost predicate CanRotateLeft(n: Nodes, X: nat) {
    && 0 < X < |n| && 0 < n[X].right < |n| && n[X].right != X
    && n[n[X].right].left < |n| && n[X].parent < |n|
    && n[X].parent !in {X, n[X].right}
    && (n[n[X].right].left != 0 ==> n[n[X].right].left !in {X, n[X].right, n[X].parent})
  }

  ghost predicate CanRotateRight(n: Nodes, Y: nat) {
    && 0 < Y < |n| && 0 < n[Y].left < |n| && n[Y].left != Y
    && n[n[Y].left].right < |n| && n[Y].parent < |n|
    && n[Y].parent !in {Y, n[Y].left}
    && (n[n[Y].left].right != 0 ==> n[n[Y].left].right !in {Y, n[Y].left, n[Y].parent})
  }

  ghost function LeftRotated(n: Nodes, X: nat): Nodes
    requires CanRotateLeft(n, X)
  {
    var Y, B, P := n[X].right, n[n[X].right].left, n[X].parent;
    WithChild(WithParent(n[X := n[X].(right := B, parent := Y)][Y := n[Y].(left := X, parent := P)], B, X), P, X, Y)
  }

  ghost function RightRotated(n: Nodes, Y: nat): Nodes
    requires CanRotateRight(n, Y)
  {
    var X, B, P := n[Y].left, n[n[Y].left].right, n[Y].parent;
    WithChild(WithParent(n[Y := n[Y].(left := B, parent := X)][X := n[X].(right := Y, parent := P)], B, Y), P, Y, X)
  }

  function Painted(n: Nodes, X: nat, red: bool): Nodes
    requires X < |n|
  {
    n[X := n[X].(cs := WithTag(n[X].cs, red))]
  }

  /** Outside `s` nothing changed but the sentinel's parent, and no sibling head changed. */
  ghost predicate TreeOnly(n: Nodes, n': Nodes, s: set<nat>) {
    && |n'| == |n|
    && (forall i :: 0 < i < |n| && i !in s ==> n'[i] == n[i])
    && (forall i :: 0 <= i < |n| ==> Rid(n'[i].cs) == Rid(n[i].cs))
  }

  // ----- what the writes store

  lemma LeftRotateIds(root: nat, n: Nodes, p: Path, t: Tree)
    requires Stored(root, n, p, t) && t.Node? && t.r.Node?
    ensures CanRotateLeft(n, t.x)
    ensures n[t.x].right == t.r.x && n[t.r.x].left == Root(t.r.l) && n[t.x].parent == Parent(p)
    ensures !p.Top? ==> (p.InL? <==> n[p.x].left == t.x) && p.x in PathIds(p)
    ensures t.x in Ids(t) && t.r.x in Ids(t) && (t.r.l.Node? ==> t.r.l.x in Ids(t) && t.r.l.x != 0)
  {
    assert Linked(n, t.r, t.x) && (t.r.l.Node? ==> Linked(n, t.r.l, t.r.x));
    assert Ids(t.r) == Ids(t.r.l) + {t.r.x} + Ids(t.r.r);
    assert t.x in Ids(t) && t.r.x in Ids(t);
    if t.r.l.Node? { assert t.r.l.x in Ids(t.r.l); }
  }

  lemma RightRotateIds(root: nat, n: Nodes, p: Path, t: Tree)
    requires Stored(root, n, p, t) && t.Node? && t.l.Node?
    ensures CanRotateRight(n, t.x)
    ensures n[t.x].left == t.l.x && n[t.l.x].right == Root(t.l.r) && n[t.x].parent == Parent(p)
    ensures !p.Top? ==> (p.InL? <==> n[p.x].left == t.x) && p.x in PathIds(p)
    ensures t.x in Ids(t) && t.l.x in Ids(t) && (t.l.r.Node? ==> t.l.r.x in Ids(t) && t.l.r.x != 0)
  {
    assert Linked(n, t.l, t.x) && (t.l.r.Node? ==> Linked(n, t.l.r, t.l.x));
    assert Ids(t.l) == Ids(t.l.l) + {t.l.x} + Ids(t.l.r);
    assert t.x in Ids(t) && t.l.x in Ids(t);
    if t.l.r.Node? { assert t.l.r.x in Ids(t.l.r); }
  }

  /** The writes of a left rotation at the focus store the rotated tree. */
  lemma LeftWritesStore(root: nat, n: Nodes, p: Path, t: Tree, root': nat, n': Nodes)
    requires Stored(root, n, p, t) && t.Node? && t.r.Node? && |n'| == |n|
    requires t.x < |n| && t.r.x < |n| && Parent(p) < |n| && Root(t.r.l) < |n|
    requires n'[t.x] == n[t.x].(right := Root(t.r.l), parent := t.r.x)
    requires n'[t.r.x] == n[t.r.x].(left := t.x, parent := Parent(p))
    requires t.r.l.Node? ==> n'[t.r.l.x] == n[t.r.l.x].(parent := t.x)
    requires ChildSet(n, n', p, t.r.x)
    requires forall i :: 0 <= i < |n| && i !in {t.x, t.r.x, Root(t.r.l), Parent(p)} ==> n'[i] == n[i]
    requires n'[0] == n[0]
    requires root' == if p.Top? then t.r.x else root
    ensures Stored(root', n', p, RotatedLeft(t))
  {
    var a, b, e := t.l, t.r.l, t.r.r;
    assert Linked(n, t.r, t.x) && Distinct(t.r) && Ids(t.r) == Ids(b) + {t.r.x} + Ids(e);
    LinkedFrame(n, n', a, t.x);
    Reparent(n, n', b, t.r.x, t.x);
    LinkedFrame(n, n', e, t.r.x);
    PathRehole(n, n', p, t.x, t.r.x);
    RotatedLeftOrder(t);
    RootAboveRehole(p, t.x, t.r.x);
  }

  lemma RightWritesStore(root: nat, n: Nodes, p: Path, t: Tree, root': nat, n': Nodes)
    requires Stored(root, n, p, t) && t.Node? && t.l.Node? && |n'| == |n|
    requires t.x < |n| && t.l.x < |n| && Parent(p) < |n| && Root(t.l.r) < |n|
    requires n'[t.x] == n[t.x].(left := Root(t.l.r), parent := t.l.x)
    requires n'[t.l.x] == n[t.l.x].(right := t.x, parent := Parent(p))
    requires t.l.r.Node? ==> n'[t.l.r.x] == n[t.l.r.x].(parent := t.x)
    requires ChildSet(n, n', p, t.l.x)
    requires forall i :: 0 <= i < |n| && i !in {t.x, t.l.x, Root(t.l.r), Parent(p)} ==> n'[i] == n[i]
    requires n'[0] == n[0]
    requires root' == if p.Top? then t.l.x else root
    ensures Stored(root', n', p, RotatedRight(t))
  {
    var a, b, e := t.l.l, t.l.r, t.r;
    assert Linked(n, t.l, t.x) && Distinct(t.l) && Ids(t.l) == Ids(a) + {t.l.x} + Ids(b);
    LinkedFrame(n, n', a, t.l.x);
    Reparent(n, n', b, t.l.x, t.x);
    LinkedFrame(n, n', e, t.x);
    PathRehole(n, n', p, t.x, t.l.x);
    RotatedRightOrder(t);
    RootAboveRehole(p, t.x, t.l.x);
  }

  lemma StoredRotatedLeft(root: nat, n: Nodes, p: Path, t: Tree)
    requires Stored(root, n, p, t) && t.Node? && t.r.Node?
    ensures CanRotateLeft(n, t.x) && n[t.x].right == t.r.x && n[t.x].parent == Parent(p)
    ensures Stored(if p.Top? then t.r.x else root, LeftRotated(n, t.x), p, RotatedLeft(t))
    ensures TreeOnly(n, LeftRotated(n, t.x), Ids(Plug(p, t))) && LeftRotated(n, t.x)[0] == n[0]
  {
    LeftRotateIds(root, n, p, t);
    PlugIds(p, t);
    LeftWritesStore(root, n, p, t, if p.Top? then t.r.x else root, LeftRotated(n, t.x));
  }

  lemma StoredRotatedRight(root: nat, n: Nodes, p: Path, t: Tree)
    requires Stored(root, n, p, t) && t.Node? && t.l.Node?
    ensures CanRotateRight(n, t.x) && n[t.x].left == t.l.x && n[t.x].parent == Parent(p)
    ensures Stored(if p.Top? then t.l.x else root, RightRotated(n, t.x), p, RotatedRight(t))
    ensures TreeOnly(n, RightRotated(n, t.x), Ids(Plug(p, t))) && RightRotated(n, t.x)[0] == n[0]
  {
    RightRotateIds(root, n, p, t);
    PlugIds(p, t);
    RightWritesStore(root, n, p, t, if p.Top? then t.l.x else root, RightRotated(n, t.x));
  }

  /** Changing the focus by one step. */
  lemma StoredUp(root: nat, n: Nodes, p: Path, t: Tree)
    requires !p.Top?
    ensures Stored(root, n, p, t) <==> Stored(root, n, p.up, Step(p, t))
  {
  }

  /** Writing the colour bit of the focus root, its row id bits kept, repaints it. */
  lemma StoredPainted(root: nat, n: Nodes, p: Path, t: Tree, red: bool)
    requires Stored(root, n, p, t) && t.Node?
    ensures 0 < t.x < |n| && Stored(root, Painted(n, t.x, red), p, t.(red := red))
    ensures TreeOnly(n, Painted(n, t.x, red), Ids(Plug(p, t)))
    ensures Ids(Plug(p, t.(red := red))) == Ids(Plug(p, t))
  {
    var n' := Painted(n, t.x, red);
    PlugIds(p, t);
    PlugIds(p, t.(red := red));
    assert t.x in Ids(t);
    LinkedFrame(n, n', t.l, t.x);
    LinkedFrame(n, n', t.r, t.x);
    PathFrame(n, n', p, t.x);
  }

  /** The same for the parent of the focus. */
  lemma StoredParentPainted(root: nat, n: Nodes, p: Path, t: Tree, red: bool)
    requires Stored(root, n, p, t) && !p.Top?
    ensures 0 < p.x < |n| && Stored(root, Painted(n, p.x, red), Repainted(p, red), t)
    ensures TreeOnly(n, Painted(n, p.x, red), Ids(Plug(p, t)))
    ensures Ids(Plug(Repainted(p, red), t)) == Ids(Plug(p, t))
  {
    StoredUp(root, n, p, t);
    StoredPainted(root, n, p.up, Step(p, t), red);
    StoredUp(root, Painted(n, p.x, red), Repainted(p, red), t);
  }

  /** The other child of the parent of the focus. */
  function Sibling(p: Path): Tree
    requires !p.Top?
  {
    if p.InL? then p.r else p.l
  }

  function WithSibling(p: Path, s: Tree): Path
    requires !p.Top?
  {
    if p.InL? then InL(p.red, p.x, s, p.up) else InR(p.red, s, p.x, p.up)
  }

  lemma StoredSiblingPainted(root: nat, n: Nodes, p: Path, t: Tree, red: bool)
    requires Stored(root, n, p, t) && !p.Top? && Sibling(p).Node?
    ensures 0 < Sibling(p).x < |n|
    ensures Stored(root, Painted(n, Sibling(p).x, red), WithSibling(p, Sibling(p).(red := red)), t)
    ensures TreeOnly(n, Painted(n, Sibling(p).x, red), Ids(Plug(p, t)))
    ensures Ids(Plug(WithSibling(p, Sibling(p).(red := red)), t)) == Ids(Plug(p, t))
  {
    var q := if p.InL? then InR(p.red, t, p.x, p.up) else InL(p.red, p.x, t, p.up);
    var s := Sibling(p);
    assert Step(q, s) == Step(p, t);
    StoredUp(root, n, p, t);
    StoredUp(root, n, q, s);
    StoredPainted(root, n, q, s, red);
    StoredUp(root, Painted(n, s.x, red), q, s.(red := red));
    StoredUp(root, Painted(n, s.x, red), WithSibling(p, s.(red := red)), t);
  }
}
