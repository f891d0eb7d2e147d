/**
Putting a node into the tree and taking one out, before any fixup: what the link writes
store, and what they leave for the fixup to repair.
*/
module RbSplice {
  import opened RowWord
  import opened RbShape
  import opened RbLink
  import opened RbInsertShape
  import opened RbDeleteShape
  import opened RbDeleteStore

  // ----- finding a node

  /** Every row id of the tree is the root of a subtree at the end of some path. */
  lemma {:induction false} Focus(p: Path, t: Tree, x: nat) returns (q: Path, s: Tree)
    requires x in Ids(t)
    ensures Plug(q, s) == Plug(p, t) && s.Node? && s.x == x
    decreases t
  {
    if t.x == x {
      q, s := p, t;
    } else if x in Ids(t.l) {
      q, s := Focus(InL(t.red, t.x, t.r, p), t.l, x);
    } else {
      q, s := Focus(InR(t.red, t.l, t.x, p), t.r, x);
    }
  }

  // ----- a new red leaf

  lemma StoredLeaf(root: nat, n: Nodes, p: Path, Z: nat, root': nat, n': Nodes)
    requires Stored(root, n, p, Nil) && 0 < Z < |n| && Z !in PathIds(p) && |n'| == |n| && Parent(p) < |n|
    requires n'[Z] == RbNode(0, 0, Parent(p), MSB)
    requires ChildSet(n, n', p, Z) && n'[0] == n[0]
    requires forall i :: 0 < i < |n| && i != Z && i != Parent(p) ==> n'[i] == n[i]
    requires root' == if p.Top? then Z else root
    ensures Stored(root', n', p, Node(true, Nil, Z, Nil))
  {
    PathLinkedRange(n, p, 0);
    PathRehole(n, n', p, 0, Z);
    RootAboveRehole(p, 0, Z);
  }

  lemma LeafInv(p: Path, Z: nat)
    requires RedBlack(Plug(p, Nil))
    ensures InsertInv(p, Node(true, Nil, Z, Nil))
  {
    PlugRedBlack(p, Nil);
  }

  // ----- a node with at most one child

  /** U's parent now names V, and V's parent word (the sentinel's too) names U's parent. */
  function Transplanted(n: Nodes, U: nat, V: nat): Nodes
    requires U < |n| && V < |n| && n[U].parent < |n|
  {
    var m := WithChild(n, n[U].parent, U, V);
    m[V := m[V].(parent := n[U].parent)]
  }

  function OnlyChild(t: Tree): Tree
    requires t.Node?
  {
    if t.l.Nil? then t.r else t.l
  }

  lemma StoredSpliced(root: nat, n: Nodes, p: Path, t: Tree)
    requires Stored(root, n, p, t) && t.Node? && (t.l.Nil? || t.r.Nil?)
    ensures t.x < |n| && Root(OnlyChild(t)) < |n| && n[t.x].parent == Parent(p) && Parent(p) < |n|
    ensures var n' := Transplanted(n, t.x, Root(OnlyChild(t)));
      && Stored(if p.Top? then Root(OnlyChild(t)) else root, n', p, OnlyChild(t))
      && FocusLinked(n', p, OnlyChild(t))
      && TreeOnly(n, n', Ids(Plug(p, t))) && n'[t.x] == n[t.x]
  {
    SplicedIds(n, p, t);
    SplicedWrites(n, p, t);
    PlugIds(p, t);
    var n' := Transplanted(n, t.x, Root(OnlyChild(t)));
    SplicedLinks(n, p, t, n');
    RootAboveRehole(p, t.x, Root(OnlyChild(t)));
  }

  lemma SplicedLinks(n: Nodes, p: Path, t: Tree, n': Nodes)
    requires |n| > 0 && |n'| == |n| && Linked(n, t, Parent(p)) && PathLinked(n, p, Root(t)) && ZipDistinct(p, t)
    requires t.Node? && (t.l.Nil? || t.r.Nil?) && Parent(p) < |n| && Root(OnlyChild(t)) < |n|
    requires OnlyChild(t).Node? ==> n'[Root(OnlyChild(t))] == n[Root(OnlyChild(t))].(parent := Parent(p))
    requires ChildSet(n, n', p, Root(OnlyChild(t)))
    requires forall i :: 0 < i < |n| && i != Root(OnlyChild(t)) && i != Parent(p) ==> n'[i] == n[i]
    ensures Linked(n', OnlyChild(t), Parent(p)) && PathLinked(n', p, Root(OnlyChild(t)))
    ensures ZipDistinct(p, OnlyChild(t))
  {
    var c := OnlyChild(t);
    SplicedIds(n, p, t);
    LinkedRange(n, c, t.x);
    PathLinkedRange(n, p, t.x);
    Reparent(n, n', c, t.x, Parent(p));
    PathRehole(n, n', p, t.x, Root(c));
  }

  lemma SplicedIds(n: Nodes, p: Path, t: Tree)
    requires |n| > 0 && Linked(n, t, Parent(p)) && PathLinked(n, p, Root(t)) && ZipDistinct(p, t)
    requires t.Node? && (t.l.Nil? || t.r.Nil?)
    ensures var c := OnlyChild(t);
      && 0 < t.x < |n| && Root(c) < |n| && n[t.x].parent == Parent(p) < |n|
      && Linked(n, c, t.x) && Distinct(c) && Ids(c) <= Ids(t) - {t.x} && t.x in Ids(t)
      && (c.Node? ==> c.x in Ids(c) && 0 < c.x)
      && Root(c) != t.x && t.x != Parent(p) && (c.Node? ==> Root(c) != Parent(p))
      && (!p.Top? ==> 0 < p.x && p.x in PathIds(p) && (n[p.x].left == t.x <==> p.InL?))
  {
    ChildNamed(n, p, t);
    var c := OnlyChild(t);
    assert Linked(n, c, t.x);
    assert t.x in Ids(t);
  }

  lemma SplicedWrites(n: Nodes, p: Path, t: Tree)
    requires |n| > 0 && Linked(n, t, Parent(p)) && PathLinked(n, p, Root(t)) && ZipDistinct(p, t)
    requires t.Node? && (t.l.Nil? || t.r.Nil?)
    ensures t.x < |n| && Root(OnlyChild(t)) < |n| && n[t.x].parent == Parent(p) < |n|
    ensures var c := OnlyChild(t); var n' := Transplanted(n, t.x, Root(c));
      && |n'| == |n| && n'[0] == (if c.Nil? then n[0].(parent := Parent(p)) else n[0])
      && (c.Node? ==> n'[c.x] == n[c.x].(parent := Parent(p)))
      && ChildSet(n, n', p, Root(c))
      && (forall i :: 0 < i < |n| && i != Root(c) && i != Parent(p) ==> n'[i] == n[i])
      && (forall i :: 0 <= i < |n| ==> n'[i].cs == n[i].cs)
  {
    SplicedIds(n, p, t);
  }

  lemma ChildNamed(n: Nodes, p: Path, t: Tree)
    requires Linked(n, t, Parent(p)) && PathLinked(n, p, Root(t)) && ZipDistinct(p, t) && t.Node?
    ensures !p.Top? ==> p.x < |n| && (n[p.x].left == t.x <==> p.InL?)
  {
    assert t.x in Ids(t);
    if p.InR? && p.l.Node? { assert p.l.x in Ids(p.l) && p.l.x in PathIds(p); }
  }

  /** What is left for the fixup: nothing when the node was red, one black node when it was black. */
  lemma SplicedShape(p: Path, t: Tree)
    requires RedBlack(Plug(p, t)) && t.Node? && (t.l.Nil? || t.r.Nil?)
    ensures t.red ==> RedBlack(Plug(p, OnlyChild(t)))
    ensures !t.red ==> DeleteInv(p, OnlyChild(t))
  {
    var c := OnlyChild(t);
    PlugRedBlack(p, t);
    PlugRedBlack(p, c);
    if t.red {
      assert c.Nil?;
    }
    WeakerRed(p, IsRed(t), false);
    if t.red && !p.Top? {
      assert PathNoRedRed(p, false);
    }
  }

  lemma WeakerRed(p: Path, red: bool, red': bool)
    requires PathNoRedRed(p, red) && (red' ==> red)
    ensures PathNoRedRed(p, red')
  {
  }

  // ----- one node in the place of another

  /** `y` holds the links and colour `z` had; its children and parent name it. */
  lemma StoredRenamed(root: nat, n: Nodes, p: Path, c: bool, l: Tree, z: nat, r: Tree, y: nat, root': nat, n': Nodes)
    requires |n| > 0 && n[0].left == 0 && n[0].right == 0 && n[0].cs == 0
    requires ZipDistinct(p, Node(c, l, y, r))
    requires PathLinked(n, p, z) && root == RootAbove(p, z)
    requires |n'| == |n| && n'[0].left == 0 && n'[0].right == 0 && n'[0].cs == 0 && Parent(p) < |n|
    requires 0 < y < |n| && Linked(n', l, y) && Linked(n', r, y)
    requires n'[y].left == Root(l) && n'[y].right == Root(r) && n'[y].parent == Parent(p) && Tagged(n'[y].cs) == c
    requires SameOn(n, n', PathIds(p) - {Parent(p)}) && ChildSet(n, n', p, y)
    requires root' == if p.Top? then y else root
    ensures Stored(root', n', p, Node(c, l, y, r))
  {
    PathRehole(n, n', p, z, y);
    RootAboveRehole(p, z, y);
    assert Linked(n', Node(c, l, y, r), Parent(p));
  }

  // ----- long paths

  lemma {:induction false} StoredJoin(root: nat, n: Nodes, a: Path, b: Path, t: Tree)
    ensures Stored(root, n, Join(a, b), t) <==> Stored(root, n, b, Plug(a, t))
    ensures Plug(Join(a, b), t) == Plug(b, Plug(a, t))
  {
    if !a.Top? {
      StoredUp(root, n, Join(a, b), t);
      assert Step(Join(a, b), t) == Step(a, t);
      StoredJoin(root, n, a.up, b, Step(a, t));
    }
  }

  /** The red-black conditions of a path do not look at row ids. */
  lemma {:induction false} RenameKeeps(a: Path, c: bool, l: Tree, z: nat, y: nat, b: Path, t: Tree)
    ensures var q, q' := Join(a, InR(c, l, z, b)), Join(a, InR(c, l, y, b));
      (DeleteInv(q, t) ==> DeleteInv(q', t)) && (RedBlack(Plug(q, t)) ==> RedBlack(Plug(q', t)))
  {
    var q, q' := Join(a, InR(c, l, z, b)), Join(a, InR(c, l, y, b));
    RenameConditions(a, c, l, z, y, b, Blacks(t), IsRed(t));
    RenameConditions(a, c, l, z, y, b, Blacks(t) + 1, false);
    PlugRedBlack(q, t);
    PlugRedBlack(q', t);
  }

  lemma {:induction false} RenameConditions(a: Path, c: bool, l: Tree, z: nat, y: nat, b: Path, h: nat, red: bool)
    ensures var q, q' := Join(a, InR(c, l, z, b)), Join(a, InR(c, l, y, b));
      && PathBalanced(q, h) == PathBalanced(q', h) && PathNoRedRed(q, red) == PathNoRedRed(q', red)
      && PathRootBlack(q) == PathRootBlack(q') && !q.Top? && !q'.Top?
  {
    if !a.Top? {
      RenameConditions(a.up, c, l, z, y, b, h + (if a.red then 0 else 1), a.red);
    }
  }
}
