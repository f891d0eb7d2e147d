/**
Insert fixup on the node array: what the writes of each case store.
*/
module RbInsertStore {
  import opened RowWord
  import opened RbShape
  import opened RbLink
  import opened RbInsertShape

  /** The words of the parent and grandparent of the focus. */
  lemma Above(root: nat, n: Nodes, p: Path, t: Tree)
    requires Stored(root, n, p, t) && t.Node? && !p.Top? && !p.up.Top?
    ensures 0 < t.x < |n| && 0 < p.x < |n| && 0 < p.up.x < |n| && Root(Sibling(p.up)) < |n|
    ensures n[t.x].parent == p.x && n[p.x].parent == p.up.x
    ensures Tagged(n[p.x].cs) == p.red && Tagged(n[p.up.x].cs) == p.up.red
    ensures p.InL? ==> n[p.x].left == t.x && n[p.x].right != t.x
    ensures p.InR? ==> n[p.x].right == t.x && n[p.x].left != t.x
    ensures p.up.InL? ==> n[p.up.x].left == p.x && n[p.up.x].right == Root(p.up.r)
    ensures p.up.InR? ==> n[p.up.x].right == p.x && n[p.up.x].left == Root(p.up.l) && n[p.up.x].left != p.x
    ensures Tagged(n[Root(Sibling(p.up))].cs) == IsRed(Sibling(p.up))
  {
    assert PathLinked(n, p.up, p.x) && PathDistinct(p.up);
    assert Linked(n, Sibling(p.up), p.up.x);
    assert t.x in Ids(t) && p.x in PathIds(p);
    if Sibling(p.up).Node? { assert Sibling(p.up).x in Ids(Sibling(p.up)); }
    if Sibling(p).Node? { assert Sibling(p).x in Ids(Sibling(p)); }
  }

  /** The parent word of the focus and the colour bit of that parent. */
  lemma StoredFocus(root: nat, n: Nodes, p: Path, t: Tree)
    requires Stored(root, n, p, t) && t.Node?
    ensures 0 < t.x < |n| && n[t.x].parent == Parent(p) && Parent(p) < |n|
    ensures Tagged(n[Parent(p)].cs) == (!p.Top? && p.red)
  {
  }

  lemma SameOrder'(p: Path, t: Tree, q: Path, s: Tree)
    requires Order(Plug(p, t)) == Order(Plug(q, s))
    ensures Ids(Plug(p, t)) == Ids(Plug(q, s))
  {
    IdsOrder(Plug(p, t));
    IdsOrder(Plug(q, s));
  }

  /** The three writes of case 1. */
  lemma RecolourStores(root: nat, n: Nodes, p: Path, t: Tree)
    requires Stored(root, n, p, t) && !p.Top? && !p.up.Top? && Sibling(p.up).Node?
    ensures p.x < |n| && Sibling(p.up).x < |n| && p.up.x < |n|
    ensures var n' := Painted(Painted(Painted(n, p.x, false), Sibling(p.up).x, false), p.up.x, true);
      var q := Recoloured(p);
      Stored(root, n', q.up.up, Step(q.up, Step(q, t))) && TreeOnly(n, n', Ids(Plug(p, t)))
  {
    var p1 := Repainted(p, false);
    StoredParentPainted(root, n, p, t, false);
    var n1 := Painted(n, p.x, false);
    var s := Step(p1, t);
    StoredUp(root, n1, p1, t);
    StoredSiblingPainted(root, n1, p.up, s, false);
    var n2 := Painted(n1, Sibling(p.up).x, false);
    var up2 := WithSibling(p.up, Sibling(p.up).(red := false));
    StoredParentPainted(root, n2, up2, s, true);
    StoredUp(root, Painted(n2, p.up.x, true), Repainted(up2, true), s);
  }

  lemma StoredParent(root: nat, n: Nodes, p: Path, t: Tree)
    requires Stored(root, n, p, t) && t.Node?
    ensures t.x < |n| && (n[t.x].parent == 0 <==> p.Top?)
  {
  }

  /** Case 2 on the left: the left rotation at the parent. */
  lemma InnerLeftStores(root: nat, n: Nodes, p: Path, t: Tree)
    requires Stored(root, n, p, t) && InsertInv(p, t) && p.InR? && p.red
    ensures CanRotateLeft(n, p.x) && n[p.x].right == t.x
    ensures var q := InL(true, t.x, t.r, p.up); var s := Node(true, p.l, p.x, t.l);
      && InsertInv(q, s) && Ids(Plug(q, s)) == Ids(Plug(p, t)) && Order(Plug(q, s)) == Order(Plug(p, t))
      && Stored(if n[p.x].parent == 0 then t.x else root, LeftRotated(n, p.x), q, s)
      && TreeOnly(n, LeftRotated(n, p.x), Ids(Plug(p, t)))
  {
    InnerLeftKeeps(p, t);
    StoredUp(root, n, p, t);
    StoredRotatedLeft(root, n, p.up, Step(p, t));
    StoredFocus(root, n, p.up, Step(p, t));
    var q := InL(true, t.x, t.r, p.up);
    var s := Node(true, p.l, p.x, t.l);
    StoredParent(root, n, p.up, Step(p, t));
    RedParent(p, t);
    StoredUp(root, LeftRotated(n, p.x), q, s);
  }

  /** Case 3 on the left: two recolourings and the right rotation at the grandparent. */
  lemma OuterLeftStores(root: nat, n: Nodes, p: Path, t: Tree)
    requires Stored(root, n, p, t) && InsertInv(p, t) && p.InL? && p.red && p.up.InL? && !IsRed(p.up.r)
    ensures p.x < |n| && p.up.x < |n|
    ensures var n' := Painted(Painted(n, p.x, false), p.up.x, true);
      var q := InL(false, p.x, Node(true, p.r, p.up.x, p.up.r), p.up.up);
      && CanRotateRight(n', p.up.x) && n'[p.up.x].left == p.x
      && InsertInv(q, t) && Ids(Plug(q, t)) == Ids(Plug(p, t)) && Order(Plug(q, t)) == Order(Plug(p, t))
      && Stored(if n'[p.up.x].parent == 0 then p.x else root, RightRotated(n', p.up.x), q, t)
      && TreeOnly(n, RightRotated(n', p.up.x), Ids(Plug(p, t)))
  {
    OuterLeftKeeps(p, t);
    var p1 := Repainted(p, false);
    StoredParentPainted(root, n, p, t, false);
    var n1 := Painted(n, p.x, false);
    StoredUp(root, n1, p1, t);
    StoredParentPainted(root, n1, p.up, Step(p1, t), true);
    var n2 := Painted(n1, p.up.x, true);
    var g := Step(Repainted(p.up, true), Step(p1, t));
    StoredUp(root, n2, Repainted(p.up, true), Step(p1, t));
    StoredRotatedRight(root, n2, p.up.up, g);
    StoredParent(root, n2, p.up.up, g);
    var q := InL(false, p.x, Node(true, p.r, p.up.x, p.up.r), p.up.up);
    StoredUp(if p.up.up.Top? then p.x else root, RightRotated(n2, p.up.x), q, t);
  }

  /** Case 2 on the right: the right rotation at the parent. */
  lemma InnerRightStores(root: nat, n: Nodes, p: Path, t: Tree)
    requires Stored(root, n, p, t) && InsertInv(p, t) && p.InL? && p.red
    ensures CanRotateRight(n, p.x) && n[p.x].left == t.x
    ensures var q := InR(true, t.l, t.x, p.up); var s := Node(true, t.r, p.x, p.r);
      && InsertInv(q, s) && Ids(Plug(q, s)) == Ids(Plug(p, t)) && Order(Plug(q, s)) == Order(Plug(p, t))
      && Stored(if n[p.x].parent == 0 then t.x else root, RightRotated(n, p.x), q, s)
      && TreeOnly(n, RightRotated(n, p.x), Ids(Plug(p, t)))
  {
    InnerRightKeeps(p, t);
    StoredUp(root, n, p, t);
    StoredRotatedRight(root, n, p.up, Step(p, t));
    StoredFocus(root, n, p.up, Step(p, t));
    var q := InR(true, t.l, t.x, p.up);
    var s := Node(true, t.r, p.x, p.r);
    StoredParent(root, n, p.up, Step(p, t));
    RedParent(p, t);
    StoredUp(root, RightRotated(n, p.x), q, s);
  }

  /** Case 3 on the right: two recolourings and the left rotation at the grandparent. */
  lemma OuterRightStores(root: nat, n: Nodes, p: Path, t: Tree)
    requires Stored(root, n, p, t) && InsertInv(p, t) && p.InR? && p.red && p.up.InR? && !IsRed(p.up.l)
    ensures p.x < |n| && p.up.x < |n|
    ensures var n' := Painted(Painted(n, p.x, false), p.up.x, true);
      var q := InR(false, Node(true, p.up.l, p.up.x, p.l), p.x, p.up.up);
      && CanRotateLeft(n', p.up.x) && n'[p.up.x].right == p.x
      && InsertInv(q, t) && Ids(Plug(q, t)) == Ids(Plug(p, t)) && Order(Plug(q, t)) == Order(Plug(p, t))
      && Stored(if n'[p.up.x].parent == 0 then p.x else root, LeftRotated(n', p.up.x), q, t)
      && TreeOnly(n, LeftRotated(n', p.up.x), Ids(Plug(p, t)))
  {
    OuterRightKeeps(p, t);
    var p1 := Repainted(p, false);
    StoredParentPainted(root, n, p, t, false);
    var n1 := Painted(n, p.x, false);
    StoredUp(root, n1, p1, t);
    StoredParentPainted(root, n1, p.up, Step(p1, t), true);
    var n2 := Painted(n1, p.up.x, true);
    var g := Step(Repainted(p.up, true), Step(p1, t));
    StoredUp(root, n2, Repainted(p.up, true), Step(p1, t));
    StoredRotatedLeft(root, n2, p.up.up, g);
    StoredParent(root, n2, p.up.up, g);
    var q := InR(false, Node(true, p.up.l, p.up.x, p.l), p.x, p.up.up);
    StoredUp(if p.up.up.Top? then p.x else root, LeftRotated(n2, p.up.x), q, t);
  }
}
