/**
Taking a tree node with two children out: its successor is extracted from the right
subtree and put in its place.
*/
module RbRemoveStore {
  import opened RowWord
  import opened RbShape
  import opened RbLink
  import opened RbInsertShape
  import opened RbDeleteShape
  import opened RbDeleteStore
  import opened RbSplice

  /** A path that only goes left. */
  ghost predicate OnlyLeft(p: Path) { !p.Top? ==> p.InL? && OnlyLeft(p.up) }

  lemma {:induction false} OnlyLeftStep(p: Path, c: bool, x: nat, r: Tree)
    requires OnlyLeft(p)
    ensures OnlyLeft(InL(c, x, r, p))
  {
  }

  lemma {:induction false} MinOrder(p: Path, m: Tree)
    requires OnlyLeft(p)
    ensures Before(p) == [] && Order(Plug(p, m)) == Order(m) + After(p)
  {
    PlugOrder(p, m);
    BeforeLeft(p);
    assert [] + Order(m) + After(p) == Order(m) + After(p);
  }

  lemma {:induction false} BeforeLeft(p: Path)
    requires OnlyLeft(p)
    ensures Before(p) == []
  {
    if !p.Top? {
      BeforeLeft(p.up);
    }
  }

  /** Without the minimum, the subtree has the rest of its in-order sequence. */
  lemma ExtractedOrder(cm: Path, m: Tree)
    requires OnlyLeft(cm) && m.Node? && m.l.Nil?
    ensures Order(Plug(cm, m)) == [m.x] + Order(Plug(cm, m.r))
  {
    MinOrder(cm, m);
    MinOrder(cm, m.r);
    assert Order(m) == [m.x] + Order(m.r);
    assert [m.x] + Order(m.r) + After(cm) == [m.x] + (Order(m.r) + After(cm));
  }

  lemma ExtractedIds(cm: Path, m: Tree)
    requires m.Node? && m.l.Nil?
    ensures Ids(Plug(cm, m)) == Ids(Plug(cm, m.r)) + {m.x}
    ensures Distinct(Plug(cm, m)) ==> Distinct(Plug(cm, m.r)) && m.x !in Ids(Plug(cm, m.r))
  {
    PlugIds(cm, m);
    PlugIds(cm, m.r);
  }

  /**
  The minimum Y of Z's right subtree has been taken out of it: the rest hangs below Y,
  which holds it as its right subtree, and everything else is as it was.
  */
  ghost predicate Extracted(n: Nodes, n1: Nodes, cm: Path, m: Tree)
    requires m.Node?
  {
    var rest := Plug(cm, m.r);
    && TreeOnly(n, n1, Ids(Plug(cm, m))) && |n1| > 0 && |n| > 0
    && 0 < m.x < |n1| && n1[m.x].right == Root(rest) && Linked(n1, rest, m.x)
    && n1[0] == n[0].(parent := n1[0].parent)
    && (m.r.Nil? ==> n1[0].parent == if cm.Top? then m.x else Parent(cm))
  }

  /** The minimum is the right child itself. */
  lemma ExtractTop(n: Nodes, z: nat, m: Tree)
    requires |n| > 0 && Linked(n, m, z) && Distinct(m) && m.Node? && m.l.Nil?
    ensures Root(m.r) < |n|
    ensures Extracted(n, n[Root(m.r) := n[Root(m.r)].(parent := m.x)], Top, m)
  {
    assert Linked(n, m.r, m.x);
    assert m.x in Ids(m) && (m.r.Node? ==> m.r.x in Ids(m) && m.r.x != m.x);
    var n1 := n[Root(m.r) := n[Root(m.r)].(parent := m.x)];
    LinkedRange(n, m.r, m.x);
    Reparent(n, n1, m.r, m.x, m.x);
  }

  /** The minimum is further down: what the transplant leaves of the right subtree. */
  lemma DeepSpliced(root: nat, n: Nodes, cm: Path, b: Path, m: Tree)
    requires !cm.Top? && OnlyLeft(cm) && m.Node? && m.l.Nil? && b.InR?
    requires Stored(root, n, Join(cm, b), m)
    ensures 0 < m.x < |n| && Root(m.r) < |n| && n[m.x].parent < |n| && b.x < |n|
    ensures var n' := Transplanted(n, m.x, Root(m.r)); var rest := Plug(cm, m.r);
      && rest.Node? && 0 < rest.x < |n| && rest.x != m.x && n'[b.x].right == rest.x && n'[b.x] == n[b.x]
      && Linked(n', rest, b.x) && TreeOnly(n, n', Ids(Plug(cm, m)))
      && n'[0] == n[0].(parent := n'[0].parent) && (m.r.Nil? ==> n'[0].parent == Parent(cm))
    ensures Distinct(Plug(cm, m))
  {
    var rest := Plug(cm, m.r);
    StoredSpliced(root, n, Join(cm, b), m);
    var n' := Transplanted(n, m.x, Root(m.r));
    ExtractedIds(cm, m);
    PlugNode'(cm, m.r);
    StoredJoin(root, n, cm, b, m);
    StoredJoin(root, n', cm, b, m.r);
    assert Stored(root, n', b, rest);
    assert Stored(root, n, b, Plug(cm, m));
    assert rest.x in Ids(rest);
    DeepFrame(n, n', cm, b, m);
    LinkedRange(n', rest, b.x);
    ParentJoin(cm, b);
  }

  /** And what the two writes after it store. */
  lemma ExtractDeep(root: nat, n: Nodes, cm: Path, b: Path, m: Tree)
    requires !cm.Top? && OnlyLeft(cm) && m.Node? && m.l.Nil? && b.InR?
    requires Stored(root, n, Join(cm, b), m)
    ensures m.x < |n| && Root(m.r) < |n| && n[m.x].parent < |n| && b.x < |n|
    ensures var n' := Transplanted(n, m.x, Root(m.r)); var rest := Plug(cm, m.r);
      && rest.Node? && 0 < rest.x < |n| && rest.x != m.x && n'[b.x].right == rest.x && n'[b.x] == n[b.x]
      && var n2 := n'[m.x := n'[m.x].(right := rest.x)];
        Extracted(n, n2[rest.x := n2[rest.x].(parent := m.x)], cm, m)
  {
    DeepSpliced(root, n, cm, b, m);
    ExtractedIds(cm, m);
    var rest, n' := Plug(cm, m.r), Transplanted(n, m.x, Root(m.r));
    var n2 := n'[m.x := n'[m.x].(right := rest.x)];
    var n3 := n2[rest.x := n2[rest.x].(parent := m.x)];
    assert rest.x in Ids(rest);
    Reparent(n', n3, rest, b.x, m.x);
    assert TreeOnly(n, n3, Ids(Plug(cm, m)));
  }

  lemma ParentJoin(a: Path, b: Path)
    ensures !a.Top? ==> Parent(Join(a, b)) == Parent(a)
  {
  }

  lemma {:induction false} PlugNode'(cm: Path, t: Tree)
    requires !cm.Top?
    ensures Plug(cm, t).Node?
  {
    PlugNode(cm.up, Step(cm, t));
  }

  /** Taking the minimum out touches its subtree and the sentinel only. */
  lemma DeepFrame(n: Nodes, n': Nodes, cm: Path, b: Path, m: Tree)
    requires !cm.Top? && OnlyLeft(cm) && m.Node? && m.l.Nil? && b.InR?
    requires |n| > 0 && Linked(n, m, Parent(Join(cm, b))) && PathLinked(n, Join(cm, b), m.x) &&
      ZipDistinct(Join(cm, b), m)
    requires m.x < |n| && Root(m.r) < |n| && n[m.x].parent < |n| && n' == Transplanted(n, m.x, Root(m.r))
    ensures TreeOnly(n, n', Ids(Plug(cm, m))) && b.x !in Ids(Plug(cm, m)) && 0 < b.x < |n|
    ensures n'[0] == n[0].(parent := n'[0].parent)
  {
    SplicedWrites(n, Join(cm, b), m);
    SplicedIds(n, Join(cm, b), m);
    ParentJoin(cm, b);
    PlugIds(cm, m);
    JoinIds(cm, b);
    PathLinkedRange(n, Join(cm, b), m.x);
    assert cm.x in PathIds(cm) && b.x in PathIds(b);
  }

  lemma {:induction false} JoinIds(a: Path, b: Path)
    ensures PathIds(Join(a, b)) == PathIds(a) + PathIds(b)
    ensures PathDistinct(Join(a, b)) ==> PathIds(a) !! PathIds(b)
  {
    if !a.Top? {
      JoinIds(a.up, b);
    }
  }

  /** Y takes the place of Z: links, colour, and the parent words of its children. */
  lemma SuccessorInPlace(root: nat, n: Nodes, n1: Nodes, p: Path, t: Tree, cm: Path, m: Tree, root': nat, n': Nodes)
    requires Stored(root, n, p, t) && t.Node? && t.l.Node? && t.r == Plug(cm, m) && OnlyLeft(cm) && m.Node? && m.l.Nil?
    requires Extracted(n, n1, cm, m) && |n'| == |n| && t.l.x < |n| && Parent(p) < |n|
    requires n'[m.x].left == t.l.x && n'[m.x].right == n1[m.x].right && n'[m.x].parent == Parent(p)
    requires Tagged(n'[m.x].cs) == t.red
    requires n'[t.l.x] == n1[t.l.x].(parent := m.x)
    requires ChildSet(n1, n', p, m.x)
    requires forall i :: 0 <= i < |n| && i != m.x && i != t.l.x && (i == 0 || i != Parent(p)) ==> n'[i] == n1[i]
    requires root' == if p.Top? then m.x else root
    ensures Stored(root', n', p, Node(t.red, t.l, m.x, Plug(cm, m.r)))
  {
    var rest := Plug(cm, m.r);
    ExtractedIds(cm, m);
    assert Linked(n, t.l, t.x) && Linked(n, t.r, t.x);
    assert m.x in Ids(t.r) && m.x in Ids(t) && t.l.x in Ids(t.l) && t.l.x in Ids(t) && Ids(rest) <= Ids(t.r);
    assert !p.Top? ==> p.x in PathIds(p);
    LinkedRange(n, t, Parent(p));
    PathLinkedRange(n, p, t.x);
    LinkedFrame(n, n1, t.l, t.x);
    Reparent(n1, n', t.l, t.x, m.x);
    LinkedFrame(n1, n', rest, m.x);
    PathFrame(n, n1, p, t.x);
    StoredRenamed(root, n1, p, t.red, t.l, t.x, rest, m.x, root', n');
  }

  /** The words Y's ancestors and Z hold before the successor moves. */
  lemma RemoveWords(root: nat, n: Nodes, p: Path, t: Tree)
    requires Stored(root, n, p, t) && t.Node?
    ensures 0 < t.x < |n| && n[t.x].left == Root(t.l) && n[t.x].right == Root(t.r) && n[t.x].parent == Parent(p)
    ensures Root(t.l) < |n| && Root(t.r) < |n| && Parent(p) < |n| && Tagged(n[t.x].cs) == t.red
    ensures t.l.Node? ==> t.l.x != 0 && t.l.x in Ids(t)
    ensures t.r.Node? ==> t.r.x != 0 && t.r.x in Ids(t)
    ensures t.x in Ids(t)
    ensures !p.Top? ==> 0 < p.x && p.x in PathIds(p) && (n[p.x].left == t.x <==> p.InL?)
  {
    assert Linked(n, t.l, t.x) && Linked(n, t.r, t.x);
    ChildNamed(n, p, t);
    assert t.l.Node? ==> t.l.x in Ids(t.l);
    assert t.r.Node? ==> t.r.x in Ids(t.r);
  }

  lemma SplicedSubset(p: Path, t: Tree)
    requires t.Node? && (t.l.Nil? || t.r.Nil?)
    ensures Ids(Plug(p, OnlyChild(t))) <= Ids(Plug(p, t))
  {
    PlugIds(p, t);
    PlugIds(p, OnlyChild(t));
  }

  /** The words of the successor; its parent is Z exactly when it is Z's right child. */
  lemma SuccessorWords(root: nat, n: Nodes, cm: Path, b: Path, m: Tree)
    requires Stored(root, n, Join(cm, b), m) && m.Node? && b.InR?
    ensures 0 < m.x < |n| && n[m.x].right == Root(m.r) && Root(m.r) < |n| && n[m.x].parent < |n|
    ensures Tagged(n[m.x].cs) == m.red
    ensures n[m.x].parent == b.x <==> cm.Top?
    ensures !cm.Top? ==> n[m.x].parent != 0
  {
    RemoveWords(root, n, Join(cm, b), m);
    if !cm.Top? {
      JoinIds(cm, b);
      ParentJoin(cm, b);
      assert cm.x in PathIds(cm) && b.x in PathIds(b);
    }
  }

  /** What holds of the words written when the successor moves. */
  lemma PlaceWords(root: nat, n: Nodes, n1: Nodes, p: Path, t: Tree, cm: Path, m: Tree)
    requires Stored(root, n, p, t) && t.Node? && t.l.Node? && t.r == Plug(cm, m) && m.Node? && m.l.Nil?
    requires Extracted(n, n1, cm, m)
    ensures |n1| == |n| && 0 < t.x < |n| && Parent(p) < |n| && 0 < t.l.x < |n|
    ensures n1[t.x] == n[t.x] && n1[t.l.x] == n[t.l.x] && n[t.x].parent == Parent(p) && n[t.x].left == t.l.x
    ensures m.x !in {t.x, t.l.x, Parent(p), 0} && t.l.x !in {t.x, Parent(p)} && t.x != Parent(p)
    ensures !p.Top? ==> n1[p.x] == n[p.x] && p.x != 0 && (n1[p.x].left == t.x <==> p.InL?)
    ensures Tagged(n1[t.x].cs) == t.red
    ensures {m.x, t.l.x} <= Ids(Plug(p, t)) && (!p.Top? ==> p.x in Ids(Plug(p, t))) &&
      Ids(Plug(cm, m)) <= Ids(Plug(p, t))
  {
    RemoveWords(root, n, p, t);
    PlugIds(p, t);
    PlugIds(cm, m);
    assert m.x in Ids(m) && m.x in Ids(t.r) && t.l.x in Ids(t.l) && Ids(t.r) <= Ids(t);
  }

  /** What removing the successor leaves for the fixup, Z being replaced by the successor. */
  lemma SuccessorColours(p: Path, t: Tree, cm: Path, m: Tree)
    requires t.Node? && t.r == Plug(cm, m) && m.Node? && m.l.Nil? && RedBlack(Plug(p, t))
    ensures var q := Join(cm, InR(t.red, t.l, m.x, p));
      (m.red ==> RedBlack(Plug(q, m.r))) && (!m.red ==> DeleteInv(q, m.r))
  {
    PlugJoin(cm, InR(t.red, t.l, t.x, p), m);
    SplicedShape(Join(cm, InR(t.red, t.l, t.x, p)), m);
    RenameKeeps(cm, t.red, t.l, t.x, m.x, p, m.r);
  }

  lemma {:induction false} PlugJoin(a: Path, b: Path, t: Tree)
    ensures Plug(Join(a, b), t) == Plug(b, Plug(a, t))
  {
    if !a.Top? {
      PlugJoin(a.up, b, Step(a, t));
    }
  }

  lemma SuccessorOrder(p: Path, t: Tree, cm: Path, m: Tree)
    requires t.Node? && t.r == Plug(cm, m) && OnlyLeft(cm) && m.Node? && m.l.Nil?
    ensures var q := Join(cm, InR(t.red, t.l, m.x, p));
      Order(Plug(q, m.r)) == Before(p) + (Order(t.l) + Order(t.r)) + After(p)
  {
    var s := Node(t.red, t.l, m.x, Plug(cm, m.r));
    PlugJoin(cm, InR(t.red, t.l, m.x, p), m.r);
    ExtractedOrder(cm, m);
    PlugOrder(p, s);
    Reassociate(Order(t.l), [m.x], Order(s.r));
    assert Order(s) == Order(t.l) + Order(t.r);
  }

  lemma Reassociate(a: seq<nat>, b: seq<nat>, c: seq<nat>)
    ensures a + b + c == a + (b + c)
  {
  }

  lemma SuccessorIds(p: Path, t: Tree, cm: Path, m: Tree)
    requires t.Node? && t.r == Plug(cm, m) && m.Node? && m.l.Nil?
    ensures Ids(Plug(Join(cm, InR(t.red, t.l, m.x, p)), m.r)) <= Ids(Plug(p, t))
  {
    var s := Node(t.red, t.l, m.x, Plug(cm, m.r));
    PlugJoin(cm, InR(t.red, t.l, m.x, p), m.r);
    ExtractedIds(cm, m);
    PlugIds(p, t);
    PlugIds(p, s);
  }

  lemma SuccessorStored(root: nat, n: Nodes, p: Path, t: Tree, cm: Path, m: Tree)
    requires t.Node? && m.Node? && |n| > 0
    requires Stored(root, n, p, Node(t.red, t.l, m.x, Plug(cm, m.r)))
    requires m.r.Nil? ==> n[0].parent == if cm.Top? then m.x else Parent(cm)
    ensures var q := Join(cm, InR(t.red, t.l, m.x, p)); Stored(root, n, q, m.r) && FocusLinked(n, q, m.r)
  {
    var b := InR(t.red, t.l, m.x, p);
    StoredUp(root, n, b, Plug(cm, m.r));
    StoredJoin(root, n, cm, b, m.r);
    ParentJoin(cm, b);
  }

  /** The in-order sequence without the node at the focus, whichever way it is bracketed. */
  lemma ThinOrder(p: Path, t: Tree)
    requires t.Node?
    ensures Before(p) + (Order(t.l) + Order(t.r)) + After(p) == (Before(p) + Order(t.l)) + (Order(t.r) + After(p))
    ensures t.l.Nil? || t.r.Nil? ==>
      Order(Plug(p, OnlyChild(t))) == (Before(p) + Order(t.l)) + (Order(t.r) + After(p))
  {
    MovedParens(Before(p), Order(t.l), Order(t.r), After(p));
    if t.l.Nil? || t.r.Nil? {
      PlugOrder(p, OnlyChild(t));
      OnlyChildOrder(t);
    }
  }

  lemma MovedParens(a: seq<nat>, b: seq<nat>, c: seq<nat>, d: seq<nat>)
    ensures a + (b + c) + d == (a + b) + (c + d)
  {
  }

  lemma OnlyChildOrder(t: Tree)
    requires t.Node? && (t.l.Nil? || t.r.Nil?)
    ensures Order(OnlyChild(t)) == Order(t.l) + Order(t.r)
  {
    assert t.l.Nil? ==> Order(t.l) + Order(t.r) == Order(t.r);
    assert t.r.Nil? ==> Order(t.l) + Order(t.r) == Order(t.l);
  }
}
