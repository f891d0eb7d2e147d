/**
Insert fixup on the abstract tree: what each case does to the zipper, and that it keeps
the fixup invariant and the in-order sequence.
*/
module RbInsertShape {
  import opened RbShape
  import opened RbLink

  /** Everything is red-black except that the red focus may hang under a red parent. */
  ghost predicate InsertInv(p: Path, t: Tree) {
    && t.Node? && t.red && NoRedRed(t) && Balanced(t)
    && PathBalanced(p, Blacks(t)) && PathNoRedRed(p, false)
    && (!p.Top? ==> PathRootBlack(p))
  }

  ghost function Depth(p: Path): nat { if p.Top? then 0 else 1 + Depth(p.up) }

  /** A red parent has a black parent. */
  lemma RedParent(p: Path, t: Tree)
    requires InsertInv(p, t) && !p.Top? && p.red
    ensures !p.up.Top? && !p.up.red && PathNoRedRed(p.up, true)
    ensures !p.up.up.Top? ==> PathRootBlack(p.up.up)
  {
    assert PathRootBlack(p) && !p.up.Top? && PathNoRedRed(p.up, true);
    assert PathRootBlack(p.up);
  }

  /** Case 1: parent and uncle black, grandparent red. */
  function Recoloured(p: Path): Path
    requires !p.Top? && !p.up.Top? && Sibling(p.up).Node?
  {
    var up := Repainted(WithSibling(p.up, Sibling(p.up).(red := false)), true);
    if p.InL? then InL(false, p.x, p.r, up) else InR(false, p.l, p.x, up)
  }

  lemma RecolourKeeps(p: Path, t: Tree)
    requires InsertInv(p, t) && !p.Top? && p.red && !p.up.Top? && IsRed(Sibling(p.up))
    ensures var q := Recoloured(p); var s := Step(q.up, Step(q, t));
      InsertInv(q.up.up, s) && Order(Plug(q.up.up, s)) == Order(Plug(p, t)) && Ids(Plug(q.up.up, s)) == Ids(Plug(p, t))
  {
    RedParent(p, t);
    var q := Recoloured(p);
    var s := Step(q.up, Step(q, t));
    var s0 := Step(p.up, Step(p, t));
    assert Order(Step(q, t)) == Order(Step(p, t));
    assert Order(Sibling(q.up)) == Order(Sibling(p.up));
    assert Order(s) == Order(s0);
    SameOrder(q.up.up, s, p.up.up, s0);
    var u, u' := Sibling(p.up), Sibling(q.up);
    assert PathBalanced(p.up, Blacks(Step(p, t)));
    assert Balanced(u) && NoRedRed(u) && u'.l == u.l && u'.r == u.r && u'.x == u.x && !u'.red && u.red;
    assert Balanced(u') && NoRedRed(u');
    assert Balanced(Step(q, t)) && Blacks(Step(q, t)) == Blacks(Step(p, t)) + 1;
    assert Balanced(Sibling(q.up)) && Blacks(Sibling(q.up)) == Blacks(Sibling(p.up)) + 1;
    assert NoRedRed(Step(q, t));
  }

  /** Case 2, parent a left child: after the left rotation the focus is the old parent. */
  lemma InnerLeftKeeps(p: Path, t: Tree)
    requires InsertInv(p, t) && p.InR? && p.red
    ensures var q := InL(true, t.x, t.r, p.up); var s := Node(true, p.l, p.x, t.l);
      && InsertInv(q, s) && Step(q, s) == RotatedLeft(Step(p, t))
      && Order(Plug(q, s)) == Order(Plug(p, t)) && Ids(Plug(q, s)) == Ids(Plug(p, t))
  {
    var q := InL(true, t.x, t.r, p.up);
    var s := Node(true, p.l, p.x, t.l);
    RotatedLeftOrder(Step(p, t));
    SameOrder(p.up, Step(q, s), p.up, Step(p, t));
  }

  lemma InnerRightKeeps(p: Path, t: Tree)
    requires InsertInv(p, t) && p.InL? && p.red
    ensures var q := InR(true, t.l, t.x, p.up); var s := Node(true, t.r, p.x, p.r);
      && InsertInv(q, s) && Step(q, s) == RotatedRight(Step(p, t))
      && Order(Plug(q, s)) == Order(Plug(p, t)) && Ids(Plug(q, s)) == Ids(Plug(p, t))
  {
    var q := InR(true, t.l, t.x, p.up);
    var s := Node(true, t.r, p.x, p.r);
    RotatedRightOrder(Step(p, t));
    SameOrder(p.up, Step(q, s), p.up, Step(p, t));
  }

  /** Case 3, parent a left child: recolour and rotate the grandparent right. */
  lemma OuterLeftKeeps(p: Path, t: Tree)
    requires InsertInv(p, t) && p.InL? && p.red && p.up.InL? && !IsRed(p.up.r)
    ensures var q := InL(false, p.x, Node(true, p.r, p.up.x, p.up.r), p.up.up);
      && InsertInv(q, t)
      && Step(q, t) == RotatedRight(Step(Repainted(p.up, true), Step(Repainted(p, false), t)))
      && Order(Plug(q, t)) == Order(Plug(p, t)) && Ids(Plug(q, t)) == Ids(Plug(p, t))
  {
    RedParent(p, t);
    var q := InL(false, p.x, Node(true, p.r, p.up.x, p.up.r), p.up.up);
    var g := Step(p.up, Step(p, t));
    RotatedRightOrder(g);
    assert Order(Step(q, t)) == Order(RotatedRight(g));
    SameOrder(p.up.up, Step(q, t), p.up.up, g);
    assert PathBalanced(p.up, Blacks(Step(p, t)));
  }

  lemma OuterRightKeeps(p: Path, t: Tree)
    requires InsertInv(p, t) && p.InR? && p.red && p.up.InR? && !IsRed(p.up.l)
    ensures var q := InR(false, Node(true, p.up.l, p.up.x, p.l), p.x, p.up.up);
      && InsertInv(q, t)
      && Step(q, t) == RotatedLeft(Step(Repainted(p.up, true), Step(Repainted(p, false), t)))
      && Order(Plug(q, t)) == Order(Plug(p, t)) && Ids(Plug(q, t)) == Ids(Plug(p, t))
  {
    RedParent(p, t);
    var q := InR(false, Node(true, p.up.l, p.up.x, p.l), p.x, p.up.up);
    var g := Step(p.up, Step(p, t));
    RotatedLeftOrder(g);
    assert Order(Step(q, t)) == Order(RotatedLeft(g));
    SameOrder(p.up.up, Step(q, t), p.up.up, g);
    assert PathBalanced(p.up, Blacks(Step(p, t)));
  }

  /** The loop exit: a black root makes the whole tree red-black. */
  lemma InsertDone(p: Path, t: Tree)
    requires InsertInv(p, t) && (p.Top? || !p.red)
    ensures var w := Plug(p, t); w.Node? && RedBlack(w.(red := false)) && Order(w.(red := false)) == Order(w)
  {
    PlugRedBlack(p, t);
    PlugNode(p, t);
  }

  lemma {:induction false} PlugNode(p: Path, t: Tree)
    requires t.Node?
    ensures Plug(p, t).Node?
  {
    if !p.Top? {
      PlugNode(p.up, Step(p, t));
    }
  }
}
