/**
Delete fixup on the abstract tree: the focus is one black node short, and each case
either moves the shortage up, turns it into a case below, or repairs it.
*/
module RbDeleteShape {
  import opened RbShape
  import opened RbLink
  import opened RbInsertShape

  /** Everything is red-black except that the focus lacks one black node and may be red. */
  ghost predicate DeleteInv(p: Path, t: Tree) {
    && (t.Node? ==> NoRedRed(t.l) && NoRedRed(t.r)) && Balanced(t)
    && PathBalanced(p, Blacks(t) + 1) && PathNoRedRed(p, false)
    && (!p.Top? ==> PathRootBlack(p))
  }

  function Black(t: Tree): Tree { if t.Nil? then Nil else t.(red := false) }

  /** The sibling of a black focus is there, and a red one has black children and a black parent. */
  lemma DeleteSibling(p: Path, t: Tree)
    requires DeleteInv(p, t) && !p.Top? && !IsRed(t)
    ensures Sibling(p).Node? && NoRedRed(t) && PathNoRedRed(p.up, p.red) &&
      PathBalanced(p.up, Blacks(t) + 1 + (if p.red then 0 else 1))
    ensures !p.up.Top? ==> PathRootBlack(p.up)
    ensures p.up.Top? ==> !p.red
    ensures NoRedRed(Sibling(p)) && Balanced(Sibling(p)) && Blacks(Sibling(p)) == Blacks(t) + 1
    ensures Sibling(p).red ==>
      && !p.red && Sibling(p).l.Node? && Sibling(p).r.Node? && !Sibling(p).l.red && !Sibling(p).r.red
  {
  }

  /** Case 2: the sibling turns red and the shortage moves to the parent. */
  lemma PassUpKeeps(p: Path, t: Tree)
    requires DeleteInv(p, t) && !p.Top? && !IsRed(t)
    requires Sibling(p).Node? && !Sibling(p).red && !IsRed(Sibling(p).l) && !IsRed(Sibling(p).r)
    ensures var s := Step(WithSibling(p, Sibling(p).(red := true)), t);
      && DeleteInv(p.up, s)
      && Order(Plug(p.up, s)) == Order(Plug(p, t)) && Ids(Plug(p.up, s)) == Ids(Plug(p, t))
  {
    DeleteSibling(p, t);
    var s := Step(WithSibling(p, Sibling(p).(red := true)), t);
    assert Order(s) == Order(Step(p, t));
    SameOrder(p.up, s, p.up, Step(p, t));
  }

  /** The loop exit: painting the focus black repays the shortage. */
  lemma DeleteDone(p: Path, t: Tree)
    requires DeleteInv(p, t) && (p.Top? || IsRed(t))
    ensures RedBlack(Plug(p, Black(t)))
    ensures Order(Plug(p, Black(t))) == Order(Plug(p, t)) && Ids(Plug(p, Black(t))) == Ids(Plug(p, t))
  {
    PlugRedBlack(p, Black(t));
    SameOrder(p, Black(t), p, t);
  }

  /** Case 1, focus on the left: a red sibling is rotated above the parent. */
  lemma RedSiblingLeftKeeps(p: Path, t: Tree)
    requires DeleteInv(p, t) && p.InL? && !IsRed(t) && IsRed(p.r)
    ensures var q := InL(true, p.x, p.r.l, InL(false, p.r.x, p.r.r, p.up));
      && DeleteInv(q, t) && q.r.Node? && !q.r.red
      && Step(q.up, Step(q, t)) == RotatedLeft(Node(true, t, p.x, p.r.(red := false)))
      && Order(Plug(q, t)) == Order(Plug(p, t)) && Ids(Plug(q, t)) == Ids(Plug(p, t))
  {
    DeleteSibling(p, t);
    var q := InL(true, p.x, p.r.l, InL(false, p.r.x, p.r.r, p.up));
    RotatedLeftOrder(Step(p, t));
    assert Order(Step(q.up, Step(q, t))) == Order(RotatedLeft(Step(p, t)));
    SameOrder(p.up, Step(q.up, Step(q, t)), p.up, Step(p, t));
  }

  /** Case 3, focus on the left: the sibling's red inner child is rotated above it. */
  lemma InnerNephewLeftKeeps(p: Path, t: Tree)
    requires DeleteInv(p, t) && p.InL? && !IsRed(t)
    requires p.r.Node? && !p.r.red && IsRed(p.r.l) && !IsRed(p.r.r)
    ensures var w := RotatedRight(Node(true, p.r.l.(red := false), p.r.x, p.r.r)); var q := InL(p.red, p.x, w, p.up);
      && DeleteInv(q, t) && !w.red && IsRed(w.r)
      && Order(Plug(q, t)) == Order(Plug(p, t)) && Ids(Plug(q, t)) == Ids(Plug(p, t))
  {
    DeleteSibling(p, t);
    assert NoRedRed(p.r.l) && Balanced(p.r.l) && NoRedRed(p.r.r) && Balanced(p.r.r);
    var w := RotatedRight(Node(true, p.r.l.(red := false), p.r.x, p.r.r));
    assert NoRedRed(w.r) && Balanced(w.r) && NoRedRed(w.l) && Balanced(w.l);
    var q := InL(p.red, p.x, w, p.up);
    RotatedRightOrder(p.r);
    assert Order(w) == Order(RotatedRight(p.r));
    assert Order(Step(q, t)) == Order(Step(p, t));
    SameOrder(p.up, Step(q, t), p.up, Step(p, t));
  }

  /** Case 4, focus on the left: the sibling's red outer child pays for the shortage. */
  lemma OuterNephewLeftKeeps(p: Path, t: Tree)
    requires DeleteInv(p, t) && p.InL? && !IsRed(t)
    requires p.r.Node? && !p.r.red && IsRed(p.r.r)
    ensures var s := RotatedLeft(Node(false, t, p.x, Node(p.red, p.r.l, p.r.x, p.r.r.(red := false))));
      var w := Plug(p.up, s);
      && DeleteInv(Top, w) && w.Node? && Order(w) == Order(Plug(p, t)) && Ids(w) == Ids(Plug(p, t))
  {
    DeleteSibling(p, t);
    assert NoRedRed(p.r.l) && Balanced(p.r.l) && NoRedRed(p.r.r) && Balanced(p.r.r);
    var w := Node(p.red, p.r.l, p.r.x, p.r.r.(red := false));
    var s := RotatedLeft(Node(false, t, p.x, w));
    RotatedLeftOrder(Node(false, t, p.x, w));
    assert Order(w) == Order(p.r);
    assert Order(s) == Order(Step(p, t));
    SameOrder(p.up, s, p.up, Step(p, t));
    assert NoRedRed(s.l) && Balanced(s.l) && NoRedRed(s.r) && Balanced(s.r);
    assert Balanced(s) && Blacks(s) == Blacks(t) + 1 + (if p.red then 0 else 1);
    PlugRedBlack(p.up, s);
    PlugNode(p.up, s);
    assert NoRedRed(s) && PathNoRedRed(p.up, IsRed(s));
  }

  lemma RedSiblingRightKeeps(p: Path, t: Tree)
    requires DeleteInv(p, t) && p.InR? && !IsRed(t) && IsRed(p.l)
    ensures var q := InR(true, p.l.r, p.x, InR(false, p.l.l, p.l.x, p.up));
      && DeleteInv(q, t) && q.l.Node? && !q.l.red
      && Step(q.up, Step(q, t)) == RotatedRight(Node(true, p.l.(red := false), p.x, t))
      && Order(Plug(q, t)) == Order(Plug(p, t)) && Ids(Plug(q, t)) == Ids(Plug(p, t))
  {
    DeleteSibling(p, t);
    var q := InR(true, p.l.r, p.x, InR(false, p.l.l, p.l.x, p.up));
    RotatedRightOrder(Step(p, t));
    assert Order(Step(q.up, Step(q, t))) == Order(RotatedRight(Step(p, t)));
    SameOrder(p.up, Step(q.up, Step(q, t)), p.up, Step(p, t));
  }

  lemma InnerNephewRightKeeps(p: Path, t: Tree)
    requires DeleteInv(p, t) && p.InR? && !IsRed(t)
    requires p.l.Node? && !p.l.red && IsRed(p.l.r) && !IsRed(p.l.l)
    ensures var w := RotatedLeft(Node(true, p.l.l, p.l.x, p.l.r.(red := false))); var q := InR(p.red, w, p.x, p.up);
      && DeleteInv(q, t) && !w.red && IsRed(w.l)
      && Order(Plug(q, t)) == Order(Plug(p, t)) && Ids(Plug(q, t)) == Ids(Plug(p, t))
  {
    DeleteSibling(p, t);
    assert NoRedRed(p.l.l) && Balanced(p.l.l) && NoRedRed(p.l.r) && Balanced(p.l.r);
    var w := RotatedLeft(Node(true, p.l.l, p.l.x, p.l.r.(red := false)));
    assert NoRedRed(w.r) && Balanced(w.r) && NoRedRed(w.l) && Balanced(w.l);
    assert Blacks(p.l.l) == Blacks(p.l.r) == Blacks(p.l.r.l) == Blacks(p.l.r.r);
    assert NoRedRed(w) && Balanced(w) && Blacks(w) == Blacks(p.l);
    var q := InR(p.red, w, p.x, p.up);
    RotatedLeftOrder(p.l);
    assert Order(w) == Order(RotatedLeft(p.l));
    assert Order(Step(q, t)) == Order(Step(p, t));
    SameOrder(p.up, Step(q, t), p.up, Step(p, t));
  }

  lemma OuterNephewRightKeeps(p: Path, t: Tree)
    requires DeleteInv(p, t) && p.InR? && !IsRed(t)
    requires p.l.Node? && !p.l.red && IsRed(p.l.l)
    ensures var s := RotatedRight(Node(false, Node(p.red, p.l.l.(red := false), p.l.x, p.l.r), p.x, t));
      var w := Plug(p.up, s);
      && DeleteInv(Top, w) && w.Node? && Order(w) == Order(Plug(p, t)) && Ids(w) == Ids(Plug(p, t))
  {
    DeleteSibling(p, t);
    assert NoRedRed(p.l.l) && Balanced(p.l.l) && NoRedRed(p.l.r) && Balanced(p.l.r);
    var w := Node(p.red, p.l.l.(red := false), p.l.x, p.l.r);
    var s := RotatedRight(Node(false, w, p.x, t));
    RotatedRightOrder(Node(false, w, p.x, t));
    assert Order(w) == Order(p.l);
    assert Order(s) == Order(Step(p, t));
    SameOrder(p.up, s, p.up, Step(p, t));
    assert NoRedRed(s.l) && Balanced(s.l) && NoRedRed(s.r) && Balanced(s.r);
    assert Balanced(s) && Blacks(s) == Blacks(t) + 1 + (if p.red then 0 else 1);
    PlugRedBlack(p.up, s);
    PlugNode(p.up, s);
    assert NoRedRed(s) && PathNoRedRed(p.up, IsRed(s));
  }
}
