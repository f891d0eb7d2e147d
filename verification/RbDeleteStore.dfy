/**
Delete fixup on the node array: what the writes of each case store.
*/
module RbDeleteStore {
  import opened RowWord
  import opened RbShape
  import opened RbLink
  import opened RbInsertStore
  import opened RbDeleteShape

  /** The parent word of the focus is right even when the focus is the sentinel. */
  ghost predicate FocusLinked(n: Nodes, p: Path, t: Tree) {
    |n| > 0 && (t.Nil? ==> n[0].parent == Parent(p))
  }

  /** The words around a black focus that is one node short. */
  lemma Around(root: nat, n: Nodes, p: Path, t: Tree)
    requires Stored(root, n, p, t) && DeleteInv(p, t) && FocusLinked(n, p, t) && !p.Top? && !IsRed(t)
    ensures Sibling(p).Node?
    ensures var w := Sibling(p);
      && Root(t) < |n| && n[Root(t)].parent == p.x
      && 0 < p.x < |n| && 0 < w.x < |n| && Root(w.l) < |n| && Root(w.r) < |n|
      && (p.InL? ==> n[p.x].left == Root(t) && n[p.x].right == w.x)
      && (p.InR? ==> n[p.x].left == w.x != Root(t) && n[p.x].right == Root(t))
      && n[w.x].left == Root(w.l) && n[w.x].right == Root(w.r)
      && Tagged(n[p.x].cs) == p.red && Tagged(n[w.x].cs) == w.red
      && Tagged(n[Root(w.l)].cs) == IsRed(w.l) && Tagged(n[Root(w.r)].cs) == IsRed(w.r)
  {
    DeleteSibling(p, t);
    var w := Sibling(p);
    assert Linked(n, w, p.x) && Linked(n, w.l, w.x) && Linked(n, w.r, w.x);
    assert w.x in Ids(w) && p.x in PathIds(p);
    if t.Node? { assert t.x in Ids(t); }
  }

  /** The focus is at the top exactly when it is the root; its colour is its tag bit. */
  lemma FocusWords(root: nat, n: Nodes, p: Path, t: Tree)
    requires Stored(root, n, p, t)
    ensures Root(t) < |n| && (Root(t) == root <==> p.Top?) && Tagged(n[Root(t)].cs) == IsRed(t)
  {
    RootOnPath(n, p, Root(t));
    if t.Node? { assert t.x in Ids(t); }
  }

  lemma {:induction false} RootOnPath(n: Nodes, p: Path, hole: nat)
    requires PathLinked(n, p, hole)
    ensures !p.Top? ==> RootAbove(p, hole) in PathIds(p) && RootAbove(p, hole) != 0
  {
    if !p.Top? && !p.up.Top? {
      RootOnPath(n, p.up, p.x);
    }
  }

  lemma PassUpStores(root: nat, n: Nodes, p: Path, t: Tree)
    requires Stored(root, n, p, t) && !p.Top? && Sibling(p).Node?
    ensures var w := Sibling(p);
      && 0 < w.x < |n|
      && Stored(root, Painted(n, w.x, true), p.up, Step(WithSibling(p, w.(red := true)), t))
      && TreeOnly(n, Painted(n, w.x, true), Ids(Plug(p, t)))
  {
    StoredSiblingPainted(root, n, p, t, true);
    StoredUp(root, Painted(n, Sibling(p).x, true), WithSibling(p, Sibling(p).(red := true)), t);
  }

  /** The path to the sibling of the focus, the focus being kept on the path. */
  function Across(p: Path, t: Tree): Path
    requires !p.Top?
  {
    if p.InL? then InR(p.red, t, p.x, p.up) else InL(p.red, p.x, t, p.up)
  }

  lemma StoredAcross(root: nat, n: Nodes, p: Path, t: Tree)
    requires !p.Top?
    ensures Stored(root, n, p, t) <==> Stored(root, n, Across(p, t), Sibling(p))
    ensures Plug(Across(p, t), Sibling(p)) == Plug(p, t)
  {
    StoredUp(root, n, p, t);
    StoredUp(root, n, Across(p, t), Sibling(p));
  }

  /** Painting a child of the sibling. */
  lemma StoredNephewPainted(root: nat, n: Nodes, p: Path, t: Tree, left: bool, red: bool)
    requires Stored(root, n, p, t) && !p.Top? && Sibling(p).Node?
    requires if left then Sibling(p).l.Node? else Sibling(p).r.Node?
    ensures var w := Sibling(p); var c := if left then w.l else w.r;
      var w' := if left then w.(l := c.(red := red)) else w.(r := c.(red := red));
      && 0 < c.x < |n| && Stored(root, Painted(n, c.x, red), WithSibling(p, w'), t)
      && TreeOnly(n, Painted(n, c.x, red), Ids(Plug(p, t))) && Ids(Plug(WithSibling(p, w'), t)) == Ids(Plug(p, t))
  {
    var w := Sibling(p);
    var c := if left then w.l else w.r;
    var cp := if left then InL(w.red, w.x, w.r, Across(p, t)) else InR(w.red, w.l, w.x, Across(p, t));
    StoredAcross(root, n, p, t);
    StoredUp(root, n, cp, c);
    StoredPainted(root, n, cp, c, red);
    var n' := Painted(n, c.x, red);
    StoredUp(root, n', cp, c.(red := red));
    StoredAcross(root, n', WithSibling(p, Step(cp, c.(red := red))), t);
  }

  // ----- focus on the left

  lemma RedSiblingLeftStores(root: nat, n: Nodes, p: Path, t: Tree)
    requires Stored(root, n, p, t) && p.InL? && p.r.Node? && p.r.r.Node?
    ensures 0 < p.x < |n| && 0 < p.r.x < |n|
    ensures var n' := Painted(Painted(n, p.r.x, false), p.x, true);
      var q := InL(true, p.x, p.r.l, InL(false, p.r.x, p.r.r, p.up));
      && CanRotateLeft(n', p.x) && n'[p.x].right == p.r.x
      && Stored(if n'[p.x].parent == 0 then p.r.x else root, LeftRotated(n', p.x), q, t)
      && TreeOnly(n, LeftRotated(n', p.x), Ids(Plug(p, t))) && LeftRotated(n', p.x)[0] == n[0]
  {
    StoredSiblingPainted(root, n, p, t, false);
    var n1 := Painted(n, p.r.x, false);
    var p1 := WithSibling(p, p.r.(red := false));
    StoredParentPainted(root, n1, p1, t, true);
    var n2 := Painted(n1, p.x, true);
    var p2 := Repainted(p1, true);
    StoredUp(root, n2, p2, t);
    StoredRotatedLeft(root, n2, p.up, Step(p2, t));
    StoredParent(root, n2, p.up, Step(p2, t));
    var q := InL(true, p.x, p.r.l, InL(false, p.r.x, p.r.r, p.up));
    var root' := if p.up.Top? then p.r.x else root;
    StoredUp(root', LeftRotated(n2, p.x), q.up, Step(q, t));
    StoredUp(root', LeftRotated(n2, p.x), q, t);
  }

  lemma InnerNephewLeftStores(root: nat, n: Nodes, p: Path, t: Tree)
    requires Stored(root, n, p, t) && p.InL? && p.r.Node? && p.r.l.Node?
    ensures 0 < p.r.x < |n| && 0 < p.r.l.x < |n|
    ensures var n' := Painted(Painted(n, p.r.l.x, false), p.r.x, true);
      var w := RotatedRight(Node(true, p.r.l.(red := false), p.r.x, p.r.r));
      && CanRotateRight(n', p.r.x) && n'[p.r.x].parent != 0
      && Stored(root, RightRotated(n', p.r.x), InL(p.red, p.x, w, p.up), t)
      && TreeOnly(n, RightRotated(n', p.r.x), Ids(Plug(p, t))) && RightRotated(n', p.r.x)[0] == n[0]
  {
    var w0 := p.r.(l := p.r.l.(red := false));
    StoredNephewPainted(root, n, p, t, true, false);
    var n1 := Painted(n, p.r.l.x, false);
    StoredSiblingPainted(root, n1, WithSibling(p, w0), t, true);
    var n2 := Painted(n1, p.r.x, true);
    var w1 := w0.(red := true);
    StoredAcross(root, n2, WithSibling(p, w1), t);
    StoredRotatedRight(root, n2, Across(p, t), w1);
    StoredParent(root, n2, Across(p, t), w1);
    StoredAcross(root, RightRotated(n2, p.r.x), WithSibling(p, RotatedRight(w1)), t);
  }

  lemma OuterNephewLeftStores(root: nat, n: Nodes, p: Path, t: Tree)
    requires Stored(root, n, p, t) && p.InL? && p.r.Node? && p.r.r.Node?
    ensures 0 < p.x < |n| && 0 < p.r.x < |n| && 0 < p.r.r.x < |n|
    ensures var n' := Painted(Painted(Painted(n, p.r.x, p.red), p.x, false), p.r.r.x, false);
      var s := RotatedLeft(Node(false, t, p.x, Node(p.red, p.r.l, p.r.x, p.r.r.(red := false))));
      && CanRotateLeft(n', p.x) && n'[p.x].right == p.r.x
      && Stored(if n'[p.x].parent == 0 then p.r.x else root, LeftRotated(n', p.x), Top, Plug(p.up, s))
      && TreeOnly(n, LeftRotated(n', p.x), Ids(Plug(p, t)))
  {
    StoredSiblingPainted(root, n, p, t, p.red);
    var n1 := Painted(n, p.r.x, p.red);
    var p1 := WithSibling(p, p.r.(red := p.red));
    StoredParentPainted(root, n1, p1, t, false);
    var n2 := Painted(n1, p.x, false);
    var p2 := Repainted(p1, false);
    StoredNephewPainted(root, n2, p2, t, false, false);
    var n3 := Painted(n2, p.r.r.x, false);
    assert TreeOnly(n, n3, Ids(Plug(p, t)));
    var g := Step(WithSibling(p2, p2.r.(r := p.r.r.(red := false))), t);
    StoredUp(root, n3, WithSibling(p2, g.r), t);
    StoredRotatedLeft(root, n3, p.up, g);
    StoredParent(root, n3, p.up, g);
    StoredPlug(if p.up.Top? then p.r.x else root, LeftRotated(n3, p.x), p.up, RotatedLeft(g));
  }

  // ----- focus on the right

  lemma RedSiblingRightStores(root: nat, n: Nodes, p: Path, t: Tree)
    requires Stored(root, n, p, t) && p.InR? && p.l.Node? && p.l.l.Node?
    ensures 0 < p.x < |n| && 0 < p.l.x < |n|
    ensures var n' := Painted(Painted(n, p.l.x, false), p.x, true);
      var q := InR(true, p.l.r, p.x, InR(false, p.l.l, p.l.x, p.up));
      && CanRotateRight(n', p.x) && n'[p.x].left == p.l.x
      && Stored(if n'[p.x].parent == 0 then p.l.x else root, RightRotated(n', p.x), q, t)
      && TreeOnly(n, RightRotated(n', p.x), Ids(Plug(p, t))) && RightRotated(n', p.x)[0] == n[0]
  {
    StoredSiblingPainted(root, n, p, t, false);
    var n1 := Painted(n, p.l.x, false);
    var p1 := WithSibling(p, p.l.(red := false));
    StoredParentPainted(root, n1, p1, t, true);
    var n2 := Painted(n1, p.x, true);
    var p2 := Repainted(p1, true);
    StoredUp(root, n2, p2, t);
    StoredRotatedRight(root, n2, p.up, Step(p2, t));
    StoredParent(root, n2, p.up, Step(p2, t));
    var q := InR(true, p.l.r, p.x, InR(false, p.l.l, p.l.x, p.up));
    var root' := if p.up.Top? then p.l.x else root;
    StoredUp(root', RightRotated(n2, p.x), q.up, Step(q, t));
    StoredUp(root', RightRotated(n2, p.x), q, t);
  }

  lemma InnerNephewRightStores(root: nat, n: Nodes, p: Path, t: Tree)
    requires Stored(root, n, p, t) && p.InR? && p.l.Node? && p.l.r.Node?
    ensures 0 < p.l.x < |n| && 0 < p.l.r.x < |n|
    ensures var n' := Painted(Painted(n, p.l.r.x, false), p.l.x, true);
      var w := RotatedLeft(Node(true, p.l.l, p.l.x, p.l.r.(red := false)));
      && CanRotateLeft(n', p.l.x) && n'[p.l.x].parent != 0
      && Stored(root, LeftRotated(n', p.l.x), InR(p.red, w, p.x, p.up), t)
      && TreeOnly(n, LeftRotated(n', p.l.x), Ids(Plug(p, t))) && LeftRotated(n', p.l.x)[0] == n[0]
  {
    var w0 := p.l.(r := p.l.r.(red := false));
    StoredNephewPainted(root, n, p, t, false, false);
    var n1 := Painted(n, p.l.r.x, false);
    StoredSiblingPainted(root, n1, WithSibling(p, w0), t, true);
    var n2 := Painted(n1, p.l.x, true);
    var w1 := w0.(red := true);
    StoredAcross(root, n2, WithSibling(p, w1), t);
    StoredRotatedLeft(root, n2, Across(p, t), w1);
    StoredParent(root, n2, Across(p, t), w1);
    StoredAcross(root, LeftRotated(n2, p.l.x), WithSibling(p, RotatedLeft(w1)), t);
  }

  lemma OuterNephewRightStores(root: nat, n: Nodes, p: Path, t: Tree)
    requires Stored(root, n, p, t) && p.InR? && p.l.Node? && p.l.l.Node?
    ensures 0 < p.x < |n| && 0 < p.l.x < |n| && 0 < p.l.l.x < |n|
    ensures var n' := Painted(Painted(Painted(n, p.l.x, p.red), p.x, false), p.l.l.x, false);
      var s := RotatedRight(Node(false, Node(p.red, p.l.l.(red := false), p.l.x, p.l.r), p.x, t));
      && CanRotateRight(n', p.x) && n'[p.x].left == p.l.x
      && Stored(if n'[p.x].parent == 0 then p.l.x else root, RightRotated(n', p.x), Top, Plug(p.up, s))
      && TreeOnly(n, RightRotated(n', p.x), Ids(Plug(p, t)))
  {
    StoredSiblingPainted(root, n, p, t, p.red);
    var n1 := Painted(n, p.l.x, p.red);
    var p1 := WithSibling(p, p.l.(red := p.red));
    StoredParentPainted(root, n1, p1, t, false);
    var n2 := Painted(n1, p.x, false);
    var p2 := Repainted(p1, false);
    StoredNephewPainted(root, n2, p2, t, true, false);
    var n3 := Painted(n2, p.l.l.x, false);
    assert TreeOnly(n, n3, Ids(Plug(p, t)));
    var g := Step(WithSibling(p2, p2.l.(l := p.l.l.(red := false))), t);
    StoredUp(root, n3, WithSibling(p2, g.l), t);
    StoredRotatedRight(root, n3, p.up, g);
    StoredParent(root, n3, p.up, g);
    StoredPlug(if p.up.Top? then p.l.x else root, RightRotated(n3, p.x), p.up, RotatedRight(g));
  }

}
