/**
The red-black index: the node array and its header, changed in place.
*/
module RbTree {
  import opened RowWord
  import opened RbShape
  import opened RbLink
  import opened RbInsertShape
  import opened RbInsertStore
  import opened RbDeleteShape
  import opened RbDeleteStore
  import opened RbSplice
  import opened RbRemoveStore
  import opened Keys
  import opened RbIndex
  import opened RowGroups
  import opened RbListRemove

  class RbTree {
    var root: nat
    var node: Nodes
    var rowCount: nat
    var nodeCount: nat
    /** The key columns of the indexed rows, as read back from the table storage. */
    var rows: Rows
    const unique: bool
    const fields: nat
    ghost var tree: Tree
    ghost var sibs: Sibs
    ghost var owner: map<nat, nat>

    /** All of `Valid` but the two counters. */
    ghost predicate Shaped()
      reads this`root, this`node, this`rows, this`tree, this`sibs, this`owner
    {
      && Stored(root, node, Top, tree) && RedBlack(tree)
      && Keyed(rows, fields, |node|) && Ascending(rows, Order(tree))
      && TopsAre(sibs, tree) && SibsLinked(node, sibs) && Placed(rows, sibs, owner)
      && Cleared(node, rows)
    }

    ghost predicate Valid()
      reads this
    {
      Shaped() && rowCount == |rows| && nodeCount == |sibs|
    }

    constructor (unique: bool, fields: nat, cap: nat)
      ensures Valid() && rows == map[] && Order(tree) == [] && sibs == map[]
      ensures this.unique == unique && this.fields == fields && |node| == cap + 1
    {
      this.unique, this.fields := unique, fields;
      root, node, rowCount, nodeCount, rows := 0, seq(cap + 1, i => ZERO_NODE), 0, 0, map[];
      tree, sibs, owner := Nil, map[], map[];
    }

    method LeftRotate(X: nat)
      requires CanRotateLeft(node, X)
      modifies this`root, this`node
      ensures node == LeftRotated(old(node), X)
      ensures root == if old(node[X].parent) == 0 then old(node[X].right) else old(root)
    {
      var Y := node[X].right;
      node := node[X := node[X].(right := node[Y].left)];
      if node[Y].left != 0 {
        node := node[node[Y].left := node[node[Y].left].(parent := X)];
      }
      node := node[Y := node[Y].(parent := node[X].parent)];
      if node[X].parent == 0 {
        root := Y;
      } else if X == node[node[X].parent].left {
        node := node[node[X].parent := node[node[X].parent].(left := Y)];
      } else {
        node := node[node[X].parent := node[node[X].parent].(right := Y)];
      }
      node := node[Y := node[Y].(left := X)];
      node := node[X := node[X].(parent := Y)];
    }

    method RightRotate(Y: nat)
      requires CanRotateRight(node, Y)
      modifies this`root, this`node
      ensures node == RightRotated(old(node), Y)
      ensures root == if old(node[Y].parent) == 0 then old(node[Y].left) else old(root)
    {
      var X := node[Y].left;
      node := node[Y := node[Y].(left := node[X].right)];
      if node[X].right != 0 {
        node := node[node[X].right := node[node[X].right].(parent := Y)];
      }
      node := node[X := node[X].(parent := node[Y].parent)];
      if node[Y].parent == 0 {
        root := X;
      } else if Y == node[node[Y].parent].left {
        node := node[node[Y].parent := node[node[Y].parent].(left := X)];
      } else {
        node := node[node[Y].parent := node[node[Y].parent].(right := X)];
      }
      node := node[X := node[X].(right := Y)];
      node := node[Y := node[Y].(parent := X)];
    }

    /** Case 1: a red uncle. */
    method InsertRecolour(Z0: nat, Y: nat, ghost p: Path, ghost t: Tree) returns (Z: nat, ghost q: Path, ghost s: Tree)
      requires Stored(root, node, p, t) && InsertInv(p, t) && t.x == Z0
      requires !p.Top? && p.red && !p.up.Top? && IsRed(Sibling(p.up)) && Y == Sibling(p.up).x
      modifies this`node
      ensures Stored(root, node, q, s) && InsertInv(q, s) && s.x == Z && Depth(q) < Depth(p)
      ensures Order(Plug(q, s)) == Order(Plug(p, t))
      ensures TreeOnly(old(node), node, Ids(Plug(p, t)))
    {
      Above(root, node, p, t);
      RecolourStores(root, node, p, t);
      RecolourKeeps(p, t);
      var ZP := node[Z0].parent;
      var ZPP := node[ZP].parent;
      node := node[ZP := node[ZP].(cs := WithTag(node[ZP].cs, false))];
      node := node[Y := node[Y].(cs := WithTag(node[Y].cs, false))];
      node := node[ZPP := node[ZPP].(cs := WithTag(node[ZPP].cs, true))];
      ghost var p1 := Recoloured(p);
      Z, q, s := ZPP, p1.up.up, Step(p1.up, Step(p1, t));
    }

    /** Case 2: Z is turned into an outer grandchild. */
    method InsertInnerLeft(Z0: nat, ghost p: Path, ghost t: Tree) returns (Z: nat, ghost q: Path, ghost s: Tree)
      requires Stored(root, node, p, t) && InsertInv(p, t) && t.x == Z0 && p.InR? && p.red && !p.up.Top?
      modifies this`root, this`node
      ensures Stored(root, node, q, s) && InsertInv(q, s) && s.x == Z
      ensures q.InL? && q.red && q.up == p.up
      ensures Order(Plug(q, s)) == Order(Plug(p, t)) && Ids(Plug(q, s)) == Ids(Plug(p, t))
      ensures TreeOnly(old(node), node, Ids(Plug(p, t)))
    {
      Above(root, node, p, t);
      InnerLeftStores(root, node, p, t);
      Z := node[Z0].parent;
      LeftRotate(Z);
      q, s := InL(true, t.x, t.r, p.up), Node(true, p.l, p.x, t.l);
    }

    /** Case 3: the grandparent is rotated under the parent. */
    method InsertOuterLeft(Z: nat, ghost p: Path, ghost t: Tree) returns (ghost q: Path)
      requires Stored(root, node, p, t) && InsertInv(p, t) && t.x == Z
      requires p.InL? && p.red && p.up.InL? && !IsRed(Sibling(p.up))
      modifies this`root, this`node
      ensures Stored(root, node, q, t) && InsertInv(q, t) && !q.Top? && !q.red
      ensures Order(Plug(q, t)) == Order(Plug(p, t))
      ensures TreeOnly(old(node), node, Ids(Plug(p, t)))
    {
      Above(root, node, p, t);
      var ZP := node[Z].parent;
      var ZPP := node[ZP].parent;
      OuterLeftStores(root, node, p, t);
      node := node[ZP := node[ZP].(cs := WithTag(node[ZP].cs, false))];
      node := node[ZPP := node[ZPP].(cs := WithTag(node[ZPP].cs, true))];
      RightRotate(ZPP);
      q := InL(false, p.x, Node(true, p.r, p.up.x, p.up.r), p.up.up);
    }

    /** Cases 2 and 3 when the parent of Z is a red left child and the uncle is black. */
    method InsertRotateLeft(Z0: nat, ghost p: Path, ghost t: Tree) returns (Z: nat, ghost q: Path, ghost s: Tree)
      requires Stored(root, node, p, t) && InsertInv(p, t) && t.x == Z0
      requires !p.Top? && p.red && p.up.InL? && !IsRed(Sibling(p.up))
      modifies this`root, this`node
      ensures Stored(root, node, q, s) && InsertInv(q, s) && s.x == Z && !q.Top? && !q.red
      ensures Order(Plug(q, s)) == Order(Plug(p, t))
      ensures TreeOnly(old(node), node, Ids(Plug(p, t)))
    {
      Above(root, node, p, t);
      Z, q, s := Z0, p, t;
      if Z == node[node[Z].parent].right {
        Z, q, s := InsertInnerLeft(Z, p, t);
      }
      q := InsertOuterLeft(Z, q, s);
    }

    /** Case 2: Z is turned into an outer grandchild. */
    method InsertInnerRight(Z0: nat, ghost p: Path, ghost t: Tree) returns (Z: nat, ghost q: Path, ghost s: Tree)
      requires Stored(root, node, p, t) && InsertInv(p, t) && t.x == Z0 && p.InL? && p.red && !p.up.Top?
      modifies this`root, this`node
      ensures Stored(root, node, q, s) && InsertInv(q, s) && s.x == Z
      ensures q.InR? && q.red && q.up == p.up
      ensures Order(Plug(q, s)) == Order(Plug(p, t)) && Ids(Plug(q, s)) == Ids(Plug(p, t))
      ensures TreeOnly(old(node), node, Ids(Plug(p, t)))
    {
      Above(root, node, p, t);
      InnerRightStores(root, node, p, t);
      Z := node[Z0].parent;
      RightRotate(Z);
      q, s := InR(true, t.l, t.x, p.up), Node(true, t.r, p.x, p.r);
    }

    /** Case 3: the grandparent is rotated under the parent. */
    method InsertOuterRight(Z: nat, ghost p: Path, ghost t: Tree) returns (ghost q: Path)
      requires Stored(root, node, p, t) && InsertInv(p, t) && t.x == Z
      requires p.InR? && p.red && p.up.InR? && !IsRed(Sibling(p.up))
      modifies this`root, this`node
      ensures Stored(root, node, q, t) && InsertInv(q, t) && !q.Top? && !q.red
      ensures Order(Plug(q, t)) == Order(Plug(p, t))
      ensures TreeOnly(old(node), node, Ids(Plug(p, t)))
    {
      Above(root, node, p, t);
      var ZP := node[Z].parent;
      var ZPP := node[ZP].parent;
      OuterRightStores(root, node, p, t);
      node := node[ZP := node[ZP].(cs := WithTag(node[ZP].cs, false))];
      node := node[ZPP := node[ZPP].(cs := WithTag(node[ZPP].cs, true))];
      LeftRotate(ZPP);
      q := InR(false, Node(true, p.up.l, p.up.x, p.l), p.x, p.up.up);
    }

    /** Cases 2 and 3 when the parent of Z is a red right child and the uncle is black. */
    method InsertRotateRight(Z0: nat, ghost p: Path, ghost t: Tree) returns (Z: nat, ghost q: Path, ghost s: Tree)
      requires Stored(root, node, p, t) && InsertInv(p, t) && t.x == Z0
      requires !p.Top? && p.red && p.up.InR? && !IsRed(Sibling(p.up))
      modifies this`root, this`node
      ensures Stored(root, node, q, s) && InsertInv(q, s) && s.x == Z && !q.Top? && !q.red
      ensures Order(Plug(q, s)) == Order(Plug(p, t))
      ensures TreeOnly(old(node), node, Ids(Plug(p, t)))
    {
      Above(root, node, p, t);
      Z, q, s := Z0, p, t;
      if Z == node[node[Z].parent].left {
        Z, q, s := InsertInnerRight(Z, p, t);
      }
      q := InsertOuterRight(Z, q, s);
    }

    /** One turn of the fixup loop. */
    method InsertStep(Z0: nat, ghost p: Path, ghost t: Tree) returns (Z: nat, ghost q: Path, ghost s: Tree)
      requires Stored(root, node, p, t) && InsertInv(p, t) && t.x == Z0 && !p.Top? && p.red
      modifies this`root, this`node
      ensures Stored(root, node, q, s) && InsertInv(q, s) && s.x == Z
      ensures Depth(q) < Depth(p) || (!q.Top? && !q.red)
      ensures Order(Plug(q, s)) == Order(Plug(p, t))
      ensures TreeOnly(old(node), node, Ids(Plug(p, t)))
    {
      RedParent(p, t);
      Above(root, node, p, t);
      var ZP := node[Z0].parent;
      var ZPP := node[ZP].parent;
      if ZP == node[ZPP].left {
        var Y := node[ZPP].right;
        if Tagged(node[Y].cs) {
          Z, q, s := InsertRecolour(Z0, Y, p, t);
        } else {
          Z, q, s := InsertRotateLeft(Z0, p, t);
        }
      } else {
        var Y := node[ZPP].left;
        if Tagged(node[Y].cs) {
          Z, q, s := InsertRecolour(Z0, Y, p, t);
        } else {
          Z, q, s := InsertRotateRight(Z0, p, t);
        }
      }
    }

    /** Insert fixup: restores the red-black conditions and moves no key. */
    method InsertFixup(Z0: nat, ghost p: Path, ghost t: Tree) returns (ghost w: Tree)
      requires Stored(root, node, p, t) && InsertInv(p, t) && t.x == Z0
      modifies this`root, this`node
      ensures Stored(root, node, Top, w) && RedBlack(w)
      ensures Order(w) == Order(Plug(p, t)) && Ids(w) == Ids(Plug(p, t))
      ensures TreeOnly(old(node), node, Ids(Plug(p, t)))
    {
      var Z := Z0;
      ghost var q, s := p, t;
      StoredFocus(root, node, q, s);
      var ZP := node[Z].parent;
      while Tagged(node[ZP].cs)
        invariant Stored(root, node, q, s) && InsertInv(q, s) && s.x == Z
        invariant ZP == Parent(q) && ZP < |node| && Tagged(node[ZP].cs) == (!q.Top? && q.red)
        invariant Order(Plug(q, s)) == Order(Plug(p, t)) && Ids(Plug(q, s)) == Ids(Plug(p, t))
        invariant TreeOnly(old(node), node, Ids(Plug(p, t)))
        decreases if Tagged(node[ZP].cs) then 1 + Depth(q) else 0
      {
        ghost var q0, s0 := q, s;
        Z, q, s := InsertStep(Z, q, s);
        SameOrder'(q0, s0, q, s);
        StoredFocus(root, node, q, s);
        ZP := node[Z].parent;
      }
      InsertDone(q, s);
      StoredPlug(root, node, q, s);
      w := Plug(q, s);
      StoredPainted(root, node, Top, w, false);
      node := node[root := node[root].(cs := WithTag(node[root].cs, false))];
      w := w.(red := false);
    }

    // ----- removing a tree node

    method Transplant(U: nat, V: nat)
      requires U < |node| && V < |node| && node[U].parent < |node|
      modifies this`root, this`node
      ensures node == Transplanted(old(node), U, V)
      ensures root == if old(node)[U].parent == 0 then V else old(root)
    {
      var UP := node[U].parent;
      if UP == 0 {
        root := V;
      } else if U == node[UP].left {
        node := node[UP := node[UP].(left := V)];
      } else {
        node := node[UP := node[UP].(right := V)];
      }
      node := node[V := node[V].(parent := UP)];
    }

    /** The leftmost node below X. */
    method Minimum(X0: nat, ghost b: Path, ghost s: Tree) returns (X: nat, ghost cm: Path, ghost m: Tree)
      requires Stored(root, node, b, s) && s.Node? && s.x == X0
      ensures Plug(cm, m) == s && OnlyLeft(cm) && m.Node? && m.l.Nil? && m.x == X
      ensures Stored(root, node, Join(cm, b), m)
    {
      X, cm, m := X0, Top, s;
      StoredJoin(root, node, cm, b, m);
      RemoveWords(root, node, b, m);
      while node[X].left != 0
        invariant Plug(cm, m) == s && OnlyLeft(cm) && m.Node? && m.x == X
        invariant Stored(root, node, Join(cm, b), m)
        invariant X < |node| && node[X].left == Root(m.l) && (m.l.Node? ==> m.l.x != 0)
        decreases m
      {
        X := node[X].left;
        OnlyLeftStep(cm, m.red, m.x, m.r);
        ghost var cm' := InL(m.red, m.x, m.r, cm);
        StoredUp(root, node, Join(cm', b), m.l);
        cm, m := cm', m.l;
        RemoveWords(root, node, Join(cm, b), m);
      }
    }

    /** Z has at most one child: the child, or nil, takes its place. */
    method RemoveThin(Z: nat, X: nat, ghost p: Path, ghost t: Tree)
      requires Stored(root, node, p, t) && t.Node? && t.x == Z && RedBlack(Plug(p, t))
      requires (t.l.Nil? || t.r.Nil?) && X == Root(OnlyChild(t))
      modifies this`root, this`node, this`tree
      ensures Stored(root, node, Top, tree) && RedBlack(tree)
      ensures Order(tree) == Order(Plug(p, OnlyChild(t)))
      ensures TreeOnly(old(node), node, Ids(Plug(p, t)))
    {
      StoredSpliced(root, node, p, t);
      SplicedShape(p, t);
      RemoveWords(root, node, p, t);
      var wasRed := Tagged(node[Z].cs);
      ghost var c := OnlyChild(t);
      SplicedSubset(p, t);
      Transplant(Z, X);
      if !wasRed {
        tree := DeleteFixup(X, p, c);
      } else {
        tree := Plug(p, c);
        StoredPlug(root, node, p, c);
      }
    }

    /** xdb_rbtree.c:646-666: the successor is taken out of Z's right subtree. */
    method ExtractSuccessor(Z: nat, ghost p: Path, ghost t: Tree)
      returns (Y: nat, X: nat, ghost cm: Path, ghost m: Tree)
      requires Stored(root, node, p, t) && t.Node? && t.x == Z && t.r.Node?
      modifies this`root, this`node
      ensures t.r == Plug(cm, m) && OnlyLeft(cm) && m.Node? && m.l.Nil? && m.x == Y && X == Root(m.r)
      ensures Extracted(old(node), node, cm, m) && root == old(root)
      ensures Tagged(node[Y].cs) == m.red
    {
      ghost var b := InR(t.red, t.l, t.x, p);
      StoredUp(root, node, b, t.r);
      RemoveWords(root, node, p, t);
      Y, cm, m := Minimum(node[Z].right, b, t.r);
      SuccessorWords(root, node, cm, b, m);
      X := node[Y].right;
      if node[Y].parent == Z {
        ExtractTop(node, Z, m);
        node := node[X := node[X].(parent := Y)];
      } else {
        ExtractDeep(root, node, cm, b, m);
        Transplant(Y, X);
        node := node[Y := node[Y].(right := node[Z].right)];
        node := node[node[Y].right := node[node[Y].right].(parent := Y)];
      }
    }

    /** Y takes Z's parent, left child and colour. */
    method SwapIn(Z: nat, Y: nat)
      requires 0 < Z < |node| && 0 < Y < |node| && node[Z].parent < |node| && 0 < node[Z].left < |node|
      requires Y !in {Z, node[Z].left, node[Z].parent} && node[Z].left !in {Z, node[Z].parent} && Z != node[Z].parent
      modifies this`root, this`node
      ensures |node| == old(|node|) && root == if old(node)[Z].parent == 0 then Y else old(root)
      ensures var n, P := old(node), old(node)[Z].parent;
        && node[Y] == RbNode(n[Z].left, n[Y].right, P, WithTag(n[Y].cs, Tagged(n[Z].cs)))
        && node[n[Z].left] == n[n[Z].left].(parent := Y)
        && (P != 0 ==> node[P] == if n[P].left == Z then n[P].(left := Y) else n[P].(right := Y))
        && (forall i :: 0 <= i < |n| && i != Y && i != n[Z].left && (i == 0 || i != P) ==> node[i] == n[i])
    {
      Transplant(Z, Y);
      node := node[Y := node[Y].(left := node[Z].left)];
      node := node[node[Y].left := node[node[Y].left].(parent := Y)];
      node := node[Y := node[Y].(cs := WithTag(node[Y].cs, Tagged(node[Z].cs)))];
    }

    /** xdb_rbtree.c:667-673: Y takes the links and the colour of Z. */
    method PutInPlace(Z: nat, Y: nat, ghost root0: nat, ghost n: Nodes, ghost p: Path, ghost t: Tree, ghost cm: Path,
          ghost m: Tree)
      requires Stored(root0, n, p, t) && t.Node? && t.x == Z && t.l.Node? && t.r == Plug(cm, m)
      requires OnlyLeft(cm) && m.Node? && m.l.Nil? && m.x == Y
      requires Extracted(n, node, cm, m) && root == root0
      modifies this`root, this`node
      ensures Stored(root, node, p, Node(t.red, t.l, Y, Plug(cm, m.r)))
      ensures TreeOnly(n, node, Ids(Plug(p, t))) && node[0] == old(node)[0]
    {
      ghost var n1 := node;
      RemoveWords(root0, n, p, t);
      PlaceWords(root0, n, n1, p, t, cm, m);
      SwapIn(Z, Y);
      SuccessorInPlace(root0, n, n1, p, t, cm, m, root, node);
    }

    /** Z has two children: its successor takes its place. */
    method RemoveFull(Z: nat, ghost p: Path, ghost t: Tree)
      requires Stored(root, node, p, t) && t.Node? && t.x == Z && RedBlack(Plug(p, t))
      requires t.l.Node? && t.r.Node?
      modifies this`root, this`node, this`tree
      ensures Stored(root, node, Top, tree) && RedBlack(tree)
      ensures Order(tree) == Before(p) + (Order(t.l) + Order(t.r)) + After(p)
      ensures TreeOnly(old(node), node, Ids(Plug(p, t)))
    {
      ghost var n, root0 := node, root;
      var Y, X;
      ghost var cm, m;
      Y, X, cm, m := ExtractSuccessor(Z, p, t);
      var wasRed := Tagged(node[Y].cs);
      PutInPlace(Z, Y, root0, n, p, t, cm, m);
      ghost var q := Join(cm, InR(t.red, t.l, Y, p));
      SuccessorStored(root, node, p, t, cm, m);
      SuccessorColours(p, t, cm, m);
      SuccessorOrder(p, t, cm, m);
      SuccessorIds(p, t, cm, m);
      if !wasRed {
        tree := DeleteFixup(X, q, m.r);
      } else {
        tree := Plug(q, m.r);
        StoredPlug(root, node, q, m.r);
      }
    }

    // ----- adding a row

    /** The search for the key: the node with an equal key, or the leaf place. */
    method FindPlace(k: Key) returns (X: nat, Y: nat, cmp: int, ghost p: Path, ghost t: Tree)
      requires Valid() && |k| == fields
      ensures Plug(p, t) == tree && Stored(root, node, p, t) && X == Root(t) && (X == 0 <==> t.Nil?)
      ensures t.Node? ==> X in rows && rows[X] == k
      ensures t.Nil? ==> Y == Parent(p) && AllBelow(rows, Before(p), k) && AllAbove(rows, After(p), k)
      ensures t.Nil? && !p.Top? ==> (cmp < 0 <==> p.InL?)
    {
      X, Y, cmp, p, t := root, 0, 0, Top, tree;
      while X != 0
        invariant Plug(p, t) == tree && Stored(root, node, p, t) && X == Root(t) && Y == Parent(p)
        invariant AllBelow(rows, Before(p), k) && AllAbove(rows, After(p), k)
        invariant !p.Top? ==> (cmp < 0 <==> p.InL?)
        decreases t
      {
        TreeRow(p, t);
        Y := X;
        cmp := CompareKeys(k, rows[X], fields);
        FullCmp(k, rows[X]);
        if cmp == 0 {
          return;
        }
        if cmp < 0 {
          SearchLeft(root, node, rows, p, t, k);
          X := node[X].left;
          p, t := InL(t.red, t.x, t.r, p), t.l;
        } else {
          SearchRight(root, node, rows, p, t, k);
          X := node[X].right;
          p, t := InR(t.red, t.l, t.x, p), t.r;
        }
      }
    }

    /** The index stands for other rows, once the node array stores them. */
    method Settle(rows': Rows, ghost sibs': Sibs, ghost owner': map<nat, nat>)
      requires Stored(root, node, Top, tree) && RedBlack(tree)
      requires Keyed(rows', fields, |node|) && Ascending(rows', Order(tree))
      requires TopsAre(sibs', tree) && SibsLinked(node, sibs') && Placed(rows', sibs', owner')
      requires Cleared(node, rows')
      modifies this`rows, this`sibs, this`owner
      ensures Shaped() && rows == rows' && sibs == sibs' && owner == owner'
    {
      rows, sibs, owner := rows', sibs', owner';
    }

    /** The storage of the nodes doubles; new nodes are zero. */
    method Grow()
      requires Valid()
      modifies this`node
      ensures Valid() && |node| == 2 * old(|node|) - 1
    {
      ghost var n := node;
      node := node + seq(|node| - 1, i => ZERO_NODE);
      StoredGrown(root, n, tree, node);
      SibsGrown(n, sibs, node);
    }

    /** Z becomes the first sibling of X, S being the first one so far. */
    method LinkSibling(X: nat, Z: nat)
      requires 0 < X < |node| && 0 < Z < |node| && X != Z && Z < RID_LIMIT
      requires Rid(node[X].cs) < |node| && Rid(node[X].cs) !in {X, Z}
      modifies this`node
      ensures |node| == old(|node|) && node[0] == old(node[0])
      ensures node[Z] == RbNode(0, Rid(old(node)[X].cs), MSB + X, 0)
      ensures node[X] == old(node)[X].(cs := WithRid(old(node)[X].cs, Z))
      ensures Rid(old(node)[X].cs) != 0 ==>
        node[Rid(old(node)[X].cs)] == old(node)[Rid(old(node)[X].cs)].(left := Z, parent := MSB)
      ensures forall i :: 0 < i < |node| && i !in {X, Z, Rid(old(node)[X].cs)} ==> node[i] == old(node)[i]
    {
      var S := Rid(node[X].cs);
      node := node[X := node[X].(cs := WithRid(node[X].cs, Z))];
      node := node[Z := node[Z].(right := S)];
      node := node[Z := node[Z].(left := 0)];
      node := node[Z := node[Z].(parent := MSB + X)];
      node := node[Z := node[Z].(cs := 0)];
      if S != 0 {
        node := node[S := node[S].(left := Z)];
        node := node[S := node[S].(parent := MSB)];
      }
    }

    /** The row joins the sibling list of the node with its key, as first sibling. */
    method AddSibling(X: nat, Z: nat, k: Key)
      requires Shaped() && 0 < Z < |node| && Z < RID_LIMIT && Z !in rows && |k| == fields
      requires X in sibs && X in rows && rows[X] == k
      modifies this`node, this`rows, this`sibs, this`owner
      ensures Shaped()
      ensures sibs == old(sibs)[X := [Z] + old(sibs)[X]]
      ensures rows == old(rows)[Z := k] && |node| == old(|node|)
    {
      ghost var n := node;
      SiblingWords(n, rows, sibs, owner, X);
      TreeUntouched(rows, sibs, owner, tree, Z);
      TreeUntouched(rows, sibs, owner, tree, Head(sibs[X]));
      LinkSibling(X, Z);
      StoredLoose(root, n, tree, node);
      SiblingAdded(n, node, rows, sibs, owner, X, Z);
      SiblingAddedPlaced(rows, sibs, owner, X, Z);
      AscendingMore(rows, Order(tree), Z, k);
      TopsSame(sibs, tree, sibs[X := [Z] + sibs[X]]);
      Settle(rows[Z := k], sibs[X := [Z] + sibs[X]], owner[Z := X]);
    }

    /** Z becomes a red leaf at the end of the path and the tree is repaired. */
    method LinkLeaf(Y: nat, cmp: int, Z: nat, ghost p: Path)
      requires Stored(root, node, p, Nil) && RedBlack(Plug(p, Nil)) && Y == Parent(p)
      requires 0 < Z < |node| && Z !in PathIds(p) && Rid(node[Z].cs) == 0
      requires !p.Top? ==> (cmp < 0 <==> p.InL?)
      modifies this`root, this`node, this`tree
      ensures Stored(root, node, Top, tree) && RedBlack(tree)
      ensures Order(tree) == Order(Plug(p, Node(true, Nil, Z, Nil))) && Ids(tree) == PathIds(p) + {Z}
      ensures TreeOnly(old(node), node, PathIds(p) + {Z})
    {
      ghost var n, root0 := node, root;
      PathLinkedRange(n, p, 0);
      assert !p.Top? ==> p.x in PathIds(p);
      node := node[Z := node[Z].(parent := Y)];
      if Y == 0 {
        root := Z;
      } else if cmp < 0 {
        node := node[Y := node[Y].(left := Z)];
      } else {
        node := node[Y := node[Y].(right := Z)];
      }
      node := node[Z := node[Z].(left := 0, right := 0)];
      node := node[Z := node[Z].(cs := MSB)];
      StoredLeaf(root0, n, p, Z, root, node);
      LeafInv(p, Z);
      PlugIds(p, Node(true, Nil, Z, Nil));
      tree := InsertFixup(Z, p, Node(true, Nil, Z, Nil));
    }

    /** The row becomes a tree node of its own. */
    method AddLeaf(Y: nat, cmp: int, Z: nat, k: Key, ghost p: Path)
      requires Shaped() && 0 < Z < |node| && Z < RID_LIMIT && Z !in rows && |k| == fields
      requires Plug(p, Nil) == tree && Stored(root, node, p, Nil) && Y == Parent(p)
      requires AllBelow(rows, Before(p), k) && AllAbove(rows, After(p), k)
      requires !p.Top? ==> (cmp < 0 <==> p.InL?)
      modifies this`root, this`node, this`rows, this`tree, this`sibs, this`owner
      ensures Shaped() && Z !in old(sibs) && sibs == old(sibs)[Z := []]
      ensures rows == old(rows)[Z := k] && |node| == old(|node|)
      ensures Order(tree) == Before(p) + [Z] + After(p)
    {
      LeafPlace(node, p, rows, sibs, owner, Z);
      assert Z in sibs ==> ListPlaced(rows, owner, Z, sibs[Z]);
      LeafOrder(rows, p, Z, k);
      ghost var n := node;
      LinkLeaf(Y, cmp, Z, p);
      LeafAdded(n, node, rows, sibs, owner, Plug(p, Nil), Z, k);
      LeafPlaced(rows, sibs, owner, Z, k);
      TopsMore(sibs, Plug(p, Nil), tree, Z);
      Settle(rows[Z := k], sibs[Z := []], owner[Z := Z]);
    }

    /** The two ways a row goes in: beside the node with its key, or as a node of its own. */
    ghost predicate AddedTo(rows0: Rows, tree0: Tree, sibs0: Sibs, Z: nat, k: Key)
      reads this`rows, this`tree, this`sibs
    {
      && rows == rows0[Z := k]
      && (forall x :: x in sibs0 && x in rows0 && rows0[x] == k ==>
            sibs == sibs0[x := [Z] + sibs0[x]] && Order(tree) == Order(tree0))
      && ((forall x :: x in sibs0 ==> x in rows0 && rows0[x] != k) ==>
            sibs == sibs0[Z := []] && InsertedInto(Order(tree0), Order(tree), Z))
    }

    method AddAt(X: nat, Y: nat, cmp: int, Z: nat, k: Key, ghost p: Path, ghost t: Tree)
      requires Valid() && 0 < Z < |node| && Z < RID_LIMIT && Z !in rows && |k| == fields
      requires Plug(p, t) == tree && Stored(root, node, p, t) && X == Root(t) && (X == 0 <==> t.Nil?)
      requires t.Node? ==> X in rows && rows[X] == k
      requires t.Nil? ==> Y == Parent(p) && AllBelow(rows, Before(p), k) && AllAbove(rows, After(p), k)
      requires t.Nil? && !p.Top? ==> (cmp < 0 <==> p.InL?)
      modifies this
      ensures Valid() && |node| == old(|node|)
      ensures AddedTo(old(rows), old(tree), old(sibs), Z, k)
    {
      if X != 0 {
        TreeRow(p, t);
        KeyOfOneTop(rows, tree, sibs, X);
        AddSibling(X, Z, k);
      } else {
        NoTopHasKey(rows, p, sibs, k);
        PutMiddle(Before(p), Z, After(p));
        AddLeaf(Y, cmp, Z, k, p);
        nodeCount := nodeCount + 1;
      }
      rowCount := rowCount + 1;
    }

    /**
    Adds row Z with key k. A unique index refuses it when the tree node with that key is
    visible to the connection.
    */
    method Add(Z: nat, k: Key, visible: set<nat>, withConn: bool) returns (rc: Status)
      requires Valid() && |k| == fields && Z !in rows
      requires 0 < Z < RID_LIMIT && Z < 2 * |node| - 1
      modifies this
      ensures Valid() && |node| == (if Z < old(|node|) then old(|node|) else 2 * old(|node|) - 1)
      ensures rc == Exists <==>
        unique && withConn && exists x :: x in old(sibs) && x in visible && x in old(rows) && old(rows)[x] == k
      ensures rc == Exists ==> rows == old(rows) && sibs == old(sibs) && tree == old(tree)
      ensures rc == Ok ==> AddedTo(old(rows), old(tree), old(sibs), Z, k)
    {
      if Z >= |node| {
        Grow();
      }
      var X, Y, cmp;
      ghost var p, t;
      X, Y, cmp, p, t := FindPlace(k);
      if X != 0 {
        TreeRow(p, t);
        KeyOfOneTop(rows, tree, sibs, X);
      } else {
        NoTopHasKey(rows, p, sibs, k);
      }
      if X != 0 && unique && withConn && X in visible {
        assert node[Z := ZERO_NODE] == node;
        node := node[Z := ZERO_NODE];
        return Exists;
      }
      AddAt(X, Y, cmp, Z, k, p, t);
      rc := Ok;
    }

    // ----- removing a row

    /**
    How a row goes: a sibling leaves its list, a tree node with siblings is replaced by the
    first of them, and a tree node without siblings is taken out.
    */
    ghost predicate RemovedFrom(tree0: Tree, sibs0: Sibs, Z: nat)
      reads this`tree, this`sibs
    {
      if Z !in sibs0 then
        && Order(tree) == Order(tree0)
        && exists x, j :: x in sibs0 && 0 <= j < |sibs0[x]| && sibs0[x][j] == Z && sibs == sibs0[x := Cut(sibs0[x], j)]
      else if sibs0[Z] != [] then
        sibs == Promoted(sibs0, Z) && SwappedIn(Order(tree0), Order(tree), Z, sibs0[Z][0])
      else
        sibs == sibs0 - {Z} && InsertedInto(Order(tree), Order(tree0), Z)
    }

    /** One row fewer; the tree node count drops with a tree node. */
    method Uncount(node1: bool)
      requires Shaped() && rowCount == |rows| + 1 && nodeCount == |sibs| + (if node1 then 1 else 0)
      modifies this`rowCount, this`nodeCount
      ensures Valid()
    {
      if node1 {
        nodeCount := nodeCount - 1;
      }
      rowCount := rowCount - 1;
    }

    /** xdb_rbtree.c:554-566: the first sibling is unlinked, the next one becomes first. */
    method UnlinkFirst(Z: nat, ghost x: nat, ghost s: seq<nat>)
      requires |s| > 0 && s[0] == Z && 0 < x < |node| && x < RID_LIMIT && x !in s && NoDup(s)
      requires 0 < Z < |node| && node[Z] == SibNode(x, s, 0)
      requires |s| > 1 ==> SibAt(node, x, s, 1) && s[1] < RID_LIMIT
      requires InRange(s, |node|)
      modifies this`node
      ensures CutWrites(old(node), node, x, s, 0)
      ensures forall i :: 2 <= i < |s| ==> node[s[i]] == old(node)[s[i]]
    {
      var P := Rid(node[Z].parent);
      assert P == x && s[0] in s && (|s| > 1 ==> s[1] in s);
      var Y := node[Z].right;
      node := node[P := node[P].(cs := WithRid(node[P].cs, 0))];
      if Y != 0 {
        node := node[P := node[P].(cs := WithRid(node[P].cs, Y))];
        node := node[Y := node[Y].(parent := node[Y].parent + P)];
        node := node[Y := node[Y].(left := 0)];
      }
      node := node[Z := ZERO_NODE];
    }

    /** xdb_rbtree.c:567-577: a later sibling is unlinked. */
    method UnlinkLater(Z: nat, ghost x: nat, ghost s: seq<nat>, ghost j: nat)
      requires 0 < j < |s| && s[j] == Z && 0 < x < |node| && x !in s && NoDup(s)
      requires 0 < Z < |node| && node[Z] == SibNode(x, s, j) && SibAt(node, x, s, j - 1)
      requires j + 1 < |s| ==> SibAt(node, x, s, j + 1)
      requires InRange(s, |node|)
      modifies this`node
      ensures CutWrites(old(node), node, x, s, j)
      ensures forall i :: 0 <= i < |s| && i != j - 1 && i != j && i != j + 1 ==> node[s[i]] == old(node)[s[i]]
    {
      var X := node[Z].left;
      var Y := node[Z].right;
      assert X in s && Z in s && (Y != 0 ==> Y in s);
      node := node[X := node[X].(right := Y)];
      if Y != 0 {
        node := node[Y := node[Y].(left := X)];
      }
      node := node[Z := ZERO_NODE];
    }

    /** xdb_rbtree.c:550-577: a sibling is unlinked and its words cleared. */
    method UnlinkSibling(Z: nat, ghost x: nat, ghost s: seq<nat>, ghost j: nat)
      requires NoDup(s) && x !in s && 0 < x < |node| && x < RID_LIMIT
      requires j < |s| && s[j] == Z && 0 < Z < |node| && node[Z] == SibNode(x, s, j)
      requires j + 1 < |s| ==> SibAt(node, x, s, j + 1) && s[j + 1] < RID_LIMIT
      requires j > 0 ==> SibAt(node, x, s, j - 1)
      requires InRange(s, |node|)
      modifies this`node
      ensures CutWrites(old(node), node, x, s, j)
      ensures forall i :: 0 <= i < |s| && i != j - 1 && i != j && i != j + 1 ==> node[s[i]] == old(node)[s[i]]
    {
      if node[Z].left == 0 {
        UnlinkFirst(Z, x, s);
      } else {
        UnlinkLater(Z, x, s, j);
      }
    }

    method RemoveSibling(Z: nat)
      requires Shaped() && Z in rows && Z !in sibs
      modifies this`node, this`rows, this`sibs, this`owner
      ensures Shaped() && rows == old(rows) - {Z} && |node| == old(|node|) && |rows| == old(|rows|) - 1
      ensures RemovedFrom(old(tree), old(sibs), Z) && |sibs| == old(|sibs|)
    {
      ghost var n := node;
      ghost var x, j := SiblingPlace(node, rows, sibs, owner, Z);
      ListNotInTree(rows, sibs, owner, tree, x);
      ListRange(node, x, sibs[x]);
      UnlinkSibling(Z, x, sibs[x], j);
      CutShaped(root, n, node, rows, sibs, owner, tree, x, j);
      Settle(rows - {Z}, sibs[x := Cut(sibs[x], j)], owner - {Z});
    }

    /** xdb_rbtree.c:592-617: S takes the tree words of Z and is named by its neighbours. */
    method PutSibling(Z: nat, S: nat)
      requires 0 < Z < |node| && 0 < S < |node|
      requires node[Z].left < |node| && node[Z].right < |node| && node[Z].parent < |node| && Z != node[Z].parent
      requires S !in {Z, node[Z].left, node[Z].right, node[Z].parent}
      requires node[Z].left != 0 ==> node[Z].left !in {Z, node[Z].right, node[Z].parent}
      requires node[Z].right != 0 ==> node[Z].right !in {Z, node[Z].parent}
      modifies this`root, this`node
      ensures |node| == old(|node|) && root == if old(node)[Z].parent == 0 then S else old(root)
      ensures var n, z := old(node), old(node)[Z];
        && node[S] == RbNode(z.left, z.right, z.parent, n[S].cs)
        && (z.left != 0 ==> node[z.left] == n[z.left].(parent := S))
        && (z.right != 0 ==> node[z.right] == n[z.right].(parent := S))
        && (z.parent != 0 ==>
              node[z.parent] == if n[z.parent].left == Z then n[z.parent].(left := S) else n[z.parent].(right := S))
        && (forall i :: 0 <= i < |n| && i != S && (i == 0 || i !in {z.left, z.right, z.parent}) ==> node[i] == n[i])
    {
      var X := node[Z].left;
      node := node[S := node[S].(left := X)];
      if X != 0 {
        node := node[X := node[X].(parent := S)];
      }
      X := node[Z].right;
      node := node[S := node[S].(right := X)];
      if X != 0 {
        node := node[X := node[X].(parent := S)];
      }
      var P := node[Z].parent;
      node := node[S := node[S].(parent := P)];
      if P != 0 {
        if node[P].left == Z {
          node := node[P := node[P].(left := S)];
        } else {
          node := node[P := node[P].(right := S)];
        }
      } else {
        root := S;
      }
    }

    /** xdb_rbtree.c:582-591: S heads the remaining siblings, of which Y becomes the first. */
    method HandOver(Z: nat, S: nat, Y: nat)
      requires Z < |node| && S < |node| && Y < |node| && Y < RID_LIMIT && S != Z && S != Y
      requires Y != 0 ==> node[Y].parent == MSB
      modifies this`node
      ensures |node| == old(|node|) && node[S] == old(node)[S].(cs := WithRid(old(node)[Z].cs, Y))
      ensures Y != 0 ==> node[Y] == old(node)[Y].(left := 0, parent := MSB + S)
      ensures forall i :: 0 <= i < |node| && i != S && (Y == 0 || i != Y) ==> node[i] == old(node)[i]
    {
      node := node[S := node[S].(cs := WithRid(node[Z].cs, Y))];
      if Y != 0 {
        node := node[Y := node[Y].(parent := node[Y].parent + S)];
        node := node[Y := node[Y].(left := 0)];
      }
    }

    /** The writes of lines 582-617 and the clearing of Z. */
    method RewritePromoted(Z: nat, S: nat, Y: nat)
      requires 0 < Z < |node| && 0 < S < |node| && Y < |node| && Y < RID_LIMIT && Y == node[S].right
      requires node[Z].left < |node| && node[Z].right < |node| && node[Z].parent < |node| && Z != node[Z].parent
      requires S !in {Z, node[Z].left, node[Z].right, node[Z].parent}
      requires Y != 0 ==> Y !in {Z, S, node[Z].left, node[Z].right, node[Z].parent} && node[Y].parent == MSB
      requires node[Z].left != 0 ==> node[Z].left !in {Z, node[Z].right, node[Z].parent}
      requires node[Z].right != 0 ==> node[Z].right !in {Z, node[Z].parent}
      modifies this`root, this`node
      ensures |node| == old(|node|) && root == if old(node)[Z].parent == 0 then S else old(root)
      ensures Rewritten(old(node), node, Z, S, Y)
    {
      HandOver(Z, S, Y);
      PutSibling(Z, S);
      node := node[Z := ZERO_NODE];
    }

    /** xdb_rbtree.c:578-617: the first sibling S takes Z's place in the tree; Y is the next sibling. */
    method PromoteLinks(Z: nat, ghost p: Path, ghost t: Tree, ghost s: seq<nat>)
      requires Stored(root, node, p, t) && t.Node? && t.x == Z && s != [] && Rid(node[Z].cs) == s[0]
      requires ListLinked(node, Z, s) && NoDup(s) && forall r :: r in s ==> r !in Ids(Plug(p, t)) && 0 < r < RID_LIMIT
      requires InRange(s, |node|)
      modifies this`root, this`node
      ensures root == (if p.Top? then s[0] else old(root)) && |node| == old(|node|)
      ensures Z < |node| && s[0] < |node| && Head(s[1..]) < |node| && Head(s[1..]) < RID_LIMIT
      ensures Rewritten(old(node), node, Z, s[0], Head(s[1..]))
    {
      PromoteWords(root, node, p, t, s);
      var S := Rid(node[Z].cs);
      var Y := node[S].right;
      RewritePromoted(Z, S, Y);
    }

    method PromoteSibling(Z: nat, ghost p: Path, ghost t: Tree, ghost s: seq<nat>)
      requires Stored(root, node, p, t) && t.Node? && t.x == Z && s != [] && Rid(node[Z].cs) == s[0]
      requires ListLinked(node, Z, s) && NoDup(s) && forall r :: r in s ==> r !in Ids(Plug(p, t)) && 0 < r < RID_LIMIT
      requires InRange(s, |node|)
      modifies this`root, this`node
      ensures PromoteWrites(old(node), node, Z, s)
      ensures Stored(root, node, p, Node(t.red, t.l, s[0], t.r))
      ensures forall i :: 0 <= i < |node| ==> i in s || i == Z || Rid(node[i].cs) == Rid(old(node)[i].cs)
      ensures forall i :: 0 < i < |node| && i !in Ids(Plug(p, t)) && i != s[0] && (|s| > 1 ==> i != s[1]) ==>
        node[i] == old(node)[i]
    {
      ghost var n, root0 := node, root;
      PromoteWords(root, node, p, t, s);
      PromoteLinks(Z, p, t, s);
      RewrittenPromotes(root0, n, node, p, t, s);
      PromotedStored(root0, n, p, t, s[0], Head(s[1..]), root, node);
    }

    /** The promotion seen from the tree: one row id stands for another. */
    method PromoteInTree(Z: nat, ghost p: Path, ghost t: Tree, ghost s: seq<nat>)
      requires Stored(root, node, p, t) && t.Node? && t.x == Z && s != [] && Rid(node[Z].cs) == s[0] &&
        RedBlack(Plug(p, t))
      requires ListLinked(node, Z, s) && NoDup(s) && forall r :: r in s ==> r !in Ids(Plug(p, t)) && 0 < r < RID_LIMIT
      requires InRange(s, |node|)
      modifies this`root, this`node, this`tree
      ensures PromoteWrites(old(node), node, Z, s)
      ensures Stored(root, node, Top, tree) && RedBlack(tree)
      ensures Order(tree) == (Before(p) + Order(t.l)) + [s[0]] + (Order(t.r) + After(p))
      ensures Ids(tree) == Ids(Plug(p, t)) - {Z} + {s[0]}
      ensures forall i :: 0 <= i < |node| ==> i in s || i == Z || Rid(node[i].cs) == Rid(old(node)[i].cs)
      ensures forall i :: 0 < i < |node| && i !in Ids(Plug(p, t)) && i != s[0] && (|s| > 1 ==> i != s[1]) ==>
        node[i] == old(node)[i]
    {
      StoredPlug(root, node, p, t);
      PromoteSibling(Z, p, t, s);
      ghost var t' := Node(t.red, t.l, s[0], t.r);
      tree := Plug(p, t');
      StoredPlug(root, node, p, t');
      RenamedColours(p, t, s[0]);
      RenamedIds(p, t, s[0]);
      FocusOrder(p, t');
    }

    /** Z has siblings: the first one becomes the tree node. */
    method RemoveTop(Z: nat)
      requires Shaped() && Z in sibs && sibs[Z] != []
      modifies this`root, this`node, this`rows, this`tree, this`sibs, this`owner
      ensures Shaped() && rows == old(rows) - {Z} && |node| == old(|node|) && |rows| == old(|rows|) - 1
      ensures RemovedFrom(old(tree), old(sibs), Z) && |sibs| == old(|sibs|)
    {
      ghost var n, S, tree0 := node, sibs[Z][0], tree;
      ListNotInTree(rows, sibs, owner, tree, Z);
      ListRange(node, Z, sibs[Z]);
      ghost var p, t := Focus(Top, tree, Z);
      ghost var a, c := Before(p) + Order(t.l), Order(t.r) + After(p);
      StoredPlug(root, node, p, t);
      FocusOrder(p, t);
      PromoteInTree(Z, p, t, sibs[Z]);
      SwapMiddle(a, Z, S, c);
      SwapKeeps(rows, sibs, owner, tree0, Z, a, c);
      PromotedLists(n, node, rows, sibs, owner, tree0, Z);
      PromotedPlaced(rows, sibs, owner, Z);
      PromotedCleared(n, node, rows, sibs, owner, tree0, Z);
      TopsRenamed(sibs, tree0, tree, Z);
      PromotedCount(rows, sibs, owner, Z);
      Settle(rows - {Z}, Promoted(sibs, Z), PromotedOwner(owner, Z, S));
    }

    /** xdb_rbtree.c:619-684: Z is taken out of the tree. */
    method RemoveFromTree(Z: nat, ghost p: Path, ghost t: Tree)
      requires Stored(root, node, p, t) && t.Node? && t.x == Z && RedBlack(Plug(p, t))
      modifies this`root, this`node, this`tree
      ensures Stored(root, node, Top, tree) && RedBlack(tree)
      ensures Order(tree) == (Before(p) + Order(t.l)) + (Order(t.r) + After(p))
      ensures TreeOnly(old(node), node, Ids(Plug(p, t)))
    {
      RemoveWords(root, node, p, t);
      ThinOrder(p, t);
      if node[Z].left == 0 {
        RemoveThin(Z, node[Z].right, p, t);
      } else if node[Z].right == 0 {
        RemoveThin(Z, node[Z].left, p, t);
      } else {
        RemoveFull(Z, p, t);
      }
    }

    /** Z has no siblings: its tree node goes. */
    method RemoveNode(Z: nat)
      requires Shaped() && Z in sibs && sibs[Z] == []
      modifies this`root, this`node, this`rows, this`tree, this`sibs, this`owner
      ensures Shaped() && rows == old(rows) - {Z} && |node| == old(|node|) && |rows| == old(|rows|) - 1
      ensures RemovedFrom(old(tree), old(sibs), Z) && |sibs| == old(|sibs|) - 1
    {
      ghost var n, tree0, sibs0 := node, tree, sibs;
      ListNotInTree(rows, sibs, owner, tree, Z);
      ghost var p, t := Focus(Top, tree, Z);
      ghost var a, c := Before(p) + Order(t.l), Order(t.r) + After(p);
      StoredPlug(root, node, p, t);
      FocusOrder(p, t);
      RemoveFromTree(Z, p, t);
      PutMiddle(a, Z, c);
      AscendingCut(rows, a, Z, c);
      GoneTops(rows, sibs, tree0, tree, Z, a, c);
      GoneLists(n, node, rows, sibs, owner, tree0, Z);
      GoneCleared(n, node, rows, sibs, owner, tree0, Z);
      GonePlaced(rows, sibs, owner, Z);
      GoneStored(root, node, tree, Z);
      node := node[Z := ZERO_NODE];
      Settle(rows - {Z}, sibs - {Z}, owner - {Z});
      assert sibs.Keys == sibs0.Keys - {Z};
    }

    method DropSibling(Z: nat)
      requires Valid() && Z in rows && Z !in sibs
      modifies this
      ensures Valid() && |node| == old(|node|) && rows == old(rows) - {Z}
      ensures RemovedFrom(old(tree), old(sibs), Z)
    {
      RemoveSibling(Z);
      Uncount(false);
    }

    method DropTop(Z: nat)
      requires Valid() && Z in sibs && sibs[Z] != []
      modifies this
      ensures Valid() && |node| == old(|node|) && rows == old(rows) - {Z}
      ensures RemovedFrom(old(tree), old(sibs), Z)
    {
      RemoveTop(Z);
      Uncount(false);
    }

    method DropNode(Z: nat)
      requires Valid() && Z in sibs && sibs[Z] == []
      modifies this
      ensures Valid() && |node| == old(|node|) && rows == old(rows) - {Z}
      ensures RemovedFrom(old(tree), old(sibs), Z)
    {
      RemoveNode(Z);
      Uncount(true);
    }

    method RemoveIndexed(Z: nat)
      requires Valid() && Z in rows && 0 < Z < |node|
      requires Tagged(node[Z].parent) <==> Z !in sibs
      requires Z in sibs ==> (Rid(node[Z].cs) != 0 <==> sibs[Z] != [])
      modifies this
      ensures Valid() && |node| == old(|node|) && rows == old(rows) - {Z}
      ensures RemovedFrom(old(tree), old(sibs), Z)
    {
      if Tagged(node[Z].parent) {
        DropSibling(Z);
      } else if Rid(node[Z].cs) != 0 {
        DropTop(Z);
      } else {
        DropNode(Z);
      }
    }

    /** Removes row Z. Nothing happens when it is not indexed. */
    method Remove(Z: nat)
      requires Valid() && 0 < Z < |node|
      modifies this
      ensures Valid() && |node| == old(|node|) && rows == old(rows) - {Z}
      ensures Z !in old(rows) ==> sibs == old(sibs) && tree == old(tree) && node == old(node) && root == old(root)
      ensures Z in old(rows) ==> RemovedFrom(old(tree), old(sibs), Z)
    {
      IndexedWords(Z);
      if Wrap(node[Z].left + node[Z].right + node[Z].parent + node[Z].cs) == 0 && root != Z {
        return;
      }
      RemoveIndexed(Z);
    }

    /** The words of a row id tell whether it is indexed and in which role. */
    lemma IndexedWords(Z: nat)
      requires Valid() && 0 < Z < |node|
      ensures Z in rows <==> !(Wrap(node[Z].left + node[Z].right + node[Z].parent + node[Z].cs) == 0 && root != Z)
      ensures Z in rows ==> (Tagged(node[Z].parent) <==> Z !in sibs)
      ensures Z in sibs ==> Z in rows && (Rid(node[Z].cs) != 0 <==> sibs[Z] != [])
    {
      if Z in sibs {
        TopWords(Z);
      } else if Z in rows {
        ListWords(Z);
      } else {
        RootIndexed();
      }
    }

    lemma TopWords(Z: nat)
      requires Valid() && Z in sibs
      ensures Z in rows && Z < |node| && (Rid(node[Z].cs) != 0 <==> sibs[Z] != []) && Rid(node[Z].cs) < RID_LIMIT
      ensures node[Z].left < RID_LIMIT && node[Z].right < RID_LIMIT && node[Z].parent < RID_LIMIT
      ensures root == Z || node[Z].parent != 0
    {
      assert TopAt(sibs, tree, Z) && ListPlaced(rows, owner, Z, sibs[Z]);
      SiblingWords(node, rows, sibs, owner, Z);
      var p, t := Focus(Top, tree, Z);
      StoredPlug(root, node, p, t);
      RemoveWords(root, node, p, t);
      NeighbourRows(p, t);
    }

    lemma ListWords(Z: nat)
      requires Valid() && Z in rows && Z !in sibs
      ensures Z < |node| && node[Z].left < RID_LIMIT && node[Z].right < RID_LIMIT && node[Z].cs == 0
      ensures MSB <= node[Z].parent < MSB + RID_LIMIT
    {
      var x, j := SiblingPlace(node, rows, sibs, owner, Z);
      ListNotInTree(rows, sibs, owner, tree, x);
      assert j > 0 ==> sibs[x][j - 1] in sibs[x];
      assert j + 1 < |sibs[x]| ==> sibs[x][j + 1] in sibs[x];
    }

    lemma RootIndexed()
      requires Valid()
      ensures root != 0 ==> root in rows
    {
      if tree.Node? {
        TreeRow(Top, tree);
      }
    }

    /** Children and parent of a tree node are small row ids. */
    lemma NeighbourRows(p: Path, t: Tree)
      requires Valid() && Plug(p, t) == tree && t.Node?
      ensures Root(t.l) < RID_LIMIT && Root(t.r) < RID_LIMIT && Parent(p) < RID_LIMIT
      ensures !p.Top? ==> Parent(p) != 0
    {
      if t.l.Node? { TreeRow(InL(t.red, t.x, t.r, p), t.l); }
      if t.r.Node? { TreeRow(InR(t.red, t.l, t.x, p), t.r); }
      if !p.Top? { TreeRow(p.up, Step(p, t)); }
    }

    /** A node of the tree has a row. */
    lemma TreeRow(p: Path, t: Tree)
      requires Valid() && Plug(p, t) == tree && t.Node?
      ensures t.x in sibs && t.x in rows && t.x in owner && owner[t.x] == t.x && 0 < t.x < |node| && t.x < RID_LIMIT
    {
      PlugIds(p, t);
      assert t.x in Ids(t) && TopAt(sibs, tree, t.x);
      assert ListPlaced(rows, owner, t.x, sibs[t.x]);
    }

    // ----- delete fixup

    /** The focus is one black node short and its parent word is right. */
    ghost predicate Deleting(p: Path, t: Tree)
      reads this`root, this`node
    {
      Stored(root, node, p, t) && DeleteInv(p, t) && FocusLinked(node, p, t)
    }

    /** Case 2: the sibling turns red, the shortage moves to the parent. */
    method DeletePassUp(X0: nat, W: nat, ghost p: Path, ghost t: Tree) returns (X: nat, ghost q: Path, ghost s: Tree)
      requires Deleting(p, t) && X0 == Root(t) && !p.Top? && !IsRed(t)
      requires Sibling(p).Node? && W == Sibling(p).x
      requires !Sibling(p).red && !IsRed(Sibling(p).l) && !IsRed(Sibling(p).r)
      modifies this`node
      ensures Deleting(q, s) && X == Root(s) && q == p.up && (p.red ==> IsRed(s))
      ensures Order(Plug(q, s)) == Order(Plug(p, t))
      ensures TreeOnly(old(node), node, Ids(Plug(p, t)))
    {
      Around(root, node, p, t);
      PassUpKeeps(p, t);
      PassUpStores(root, node, p, t);
      node := node[W := node[W].(cs := WithTag(node[W].cs, true))];
      X := node[X0].parent;
      q, s := p.up, Step(WithSibling(p, Sibling(p).(red := true)), t);
    }

    /** Case 1, X a left child: the red sibling is rotated above the parent. */
    method DeleteRedSiblingLeft(X: nat, ghost p: Path, ghost t: Tree) returns (ghost q: Path)
      requires Deleting(p, t) && X == Root(t) && p.InL? && !IsRed(t) && IsRed(p.r)
      modifies this`root, this`node
      ensures Deleting(q, t) && q.InL? && q.red && q.r.Node? && !q.r.red && q.up.InL? && q.up.up == p.up
      ensures Order(Plug(q, t)) == Order(Plug(p, t)) && Ids(Plug(q, t)) == Ids(Plug(p, t))
      ensures TreeOnly(old(node), node, Ids(Plug(p, t)))
    {
      Around(root, node, p, t);
      DeleteSibling(p, t);
      RedSiblingLeftKeeps(p, t);
      RedSiblingLeftStores(root, node, p, t);
      var XP := node[X].parent;
      var W := node[XP].right;
      node := node[W := node[W].(cs := WithTag(node[W].cs, false))];
      node := node[XP := node[XP].(cs := WithTag(node[XP].cs, true))];
      LeftRotate(XP);
      q := InL(true, p.x, p.r.l, InL(false, p.r.x, p.r.r, p.up));
    }

    /** Case 3, X a left child: the sibling's red inner child is rotated above it. */
    method DeleteInnerNephewLeft(X: nat, ghost p: Path, ghost t: Tree) returns (ghost q: Path)
      requires Deleting(p, t) && X == Root(t) && p.InL? && !IsRed(t)
      requires p.r.Node? && !p.r.red && IsRed(p.r.l) && !IsRed(p.r.r)
      modifies this`root, this`node
      ensures Deleting(q, t) && q.InL? && q.r.Node? && !q.r.red && IsRed(q.r.r) && q.up == p.up
      ensures Order(Plug(q, t)) == Order(Plug(p, t)) && Ids(Plug(q, t)) == Ids(Plug(p, t))
      ensures TreeOnly(old(node), node, Ids(Plug(p, t)))
    {
      Around(root, node, p, t);
      InnerNephewLeftKeeps(p, t);
      InnerNephewLeftStores(root, node, p, t);
      var XP := node[X].parent;
      var W := node[XP].right;
      var C := node[W].left;
      node := node[C := node[C].(cs := WithTag(node[C].cs, false))];
      node := node[W := node[W].(cs := WithTag(node[W].cs, true))];
      RightRotate(W);
      ghost var w := RotatedRight(Node(true, p.r.l.(red := false), p.r.x, p.r.r));
      q := InL(p.red, p.x, w, p.up);
    }

    /** Case 4, X a left child: the sibling's red outer child repays the shortage. */
    method DeleteOuterNephewLeft(X0: nat, ghost p: Path, ghost t: Tree) returns (X: nat, ghost s: Tree)
      requires Deleting(p, t) && X0 == Root(t) && p.InL? && !IsRed(t)
      requires p.r.Node? && !p.r.red && IsRed(p.r.r)
      modifies this`root, this`node
      ensures Deleting(Top, s) && X == root == Root(s)
      ensures Order(s) == Order(Plug(p, t)) && Ids(s) == Ids(Plug(p, t))
      ensures TreeOnly(old(node), node, Ids(Plug(p, t)))
    {
      Around(root, node, p, t);
      OuterNephewLeftKeeps(p, t);
      OuterNephewLeftStores(root, node, p, t);
      var XP := node[X0].parent;
      var W := node[XP].right;
      var C := node[W].right;
      // The colour bit of W is cleared and the colour bit of XP or-ed in.
      node := node[W := node[W].(cs := WithTag(node[W].cs, Tagged(node[XP].cs)))];
      node := node[XP := node[XP].(cs := WithTag(node[XP].cs, false))];
      node := node[C := node[C].(cs := WithTag(node[C].cs, false))];
      LeftRotate(XP);
      X := root;
      s := Plug(p.up, RotatedLeft(Node(false, t, p.x, Node(p.red, p.r.l, p.r.x, p.r.r.(red := false)))));
    }

    /** Cases 2 to 4, X a left child: the sibling is black. */
    method DeleteBlackSiblingLeft(X0: nat, ghost p0: Path, ghost t: Tree) returns (X: nat, ghost q: Path, ghost s: Tree)
      requires Deleting(p0, t) && X0 == Root(t) && p0.InL? && !IsRed(t) && p0.r.Node? && !p0.r.red
      modifies this`root, this`node
      ensures Deleting(q, s) && X == Root(s) && (q.Top? || (q == p0.up && (p0.red ==> IsRed(s))))
      ensures Order(Plug(q, s)) == Order(Plug(p0, t))
      ensures TreeOnly(old(node), node, Ids(Plug(p0, t)))
    {
      ghost var p := p0;
      Around(root, node, p, t);
      var XP := node[X0].parent;
      var W := node[XP].right;
      if !Tagged(node[node[W].left].cs) && !Tagged(node[node[W].right].cs) {
        X, q, s := DeletePassUp(X0, W, p, t);
      } else {
        if !Tagged(node[node[W].right].cs) {
          p := DeleteInnerNephewLeft(X0, p, t);
        }
        X, s := DeleteOuterNephewLeft(X0, p, t);
        q := Top;
      }
    }

    /** One turn of the loop, X a left child. */
    method DeleteStepLeft(X0: nat, ghost p0: Path, ghost t: Tree) returns (X: nat, ghost q: Path, ghost s: Tree)
      requires Deleting(p0, t) && X0 == Root(t) && p0.InL? && !IsRed(t)
      modifies this`root, this`node
      ensures Deleting(q, s) && X == Root(s)
      ensures Depth(q) < Depth(p0) || q.Top? || IsRed(s)
      ensures Order(Plug(q, s)) == Order(Plug(p0, t))
      ensures TreeOnly(old(node), node, Ids(Plug(p0, t)))
    {
      ghost var p := p0;
      Around(root, node, p, t);
      DeleteSibling(p, t);
      if Tagged(node[node[node[X0].parent].right].cs) {
        p := DeleteRedSiblingLeft(X0, p, t);
      }
      X, q, s := DeleteBlackSiblingLeft(X0, p, t);
    }

    /** Case 1, X a right child: the red sibling is rotated above the parent. */
    method DeleteRedSiblingRight(X: nat, ghost p: Path, ghost t: Tree) returns (ghost q: Path)
      requires Deleting(p, t) && X == Root(t) && p.InR? && !IsRed(t) && IsRed(p.l)
      modifies this`root, this`node
      ensures Deleting(q, t) && q.InR? && q.red && q.l.Node? && !q.l.red && q.up.InR? && q.up.up == p.up
      ensures Order(Plug(q, t)) == Order(Plug(p, t)) && Ids(Plug(q, t)) == Ids(Plug(p, t))
      ensures TreeOnly(old(node), node, Ids(Plug(p, t)))
    {
      Around(root, node, p, t);
      DeleteSibling(p, t);
      RedSiblingRightKeeps(p, t);
      RedSiblingRightStores(root, node, p, t);
      var XP := node[X].parent;
      var W := node[XP].left;
      node := node[W := node[W].(cs := WithTag(node[W].cs, false))];
      node := node[XP := node[XP].(cs := WithTag(node[XP].cs, true))];
      RightRotate(XP);
      q := InR(true, p.l.r, p.x, InR(false, p.l.l, p.l.x, p.up));
    }

    /** Case 3, X a right child: the sibling's red inner child is rotated above it. */
    method DeleteInnerNephewRight(X: nat, ghost p: Path, ghost t: Tree) returns (ghost q: Path)
      requires Deleting(p, t) && X == Root(t) && p.InR? && !IsRed(t)
      requires p.l.Node? && !p.l.red && IsRed(p.l.r) && !IsRed(p.l.l)
      modifies this`root, this`node
      ensures Deleting(q, t) && q.InR? && q.l.Node? && !q.l.red && IsRed(q.l.l) && q.up == p.up
      ensures Order(Plug(q, t)) == Order(Plug(p, t)) && Ids(Plug(q, t)) == Ids(Plug(p, t))
      ensures TreeOnly(old(node), node, Ids(Plug(p, t)))
    {
      Around(root, node, p, t);
      InnerNephewRightKeeps(p, t);
      InnerNephewRightStores(root, node, p, t);
      var XP := node[X].parent;
      var W := node[XP].left;
      var C := node[W].right;
      node := node[C := node[C].(cs := WithTag(node[C].cs, false))];
      node := node[W := node[W].(cs := WithTag(node[W].cs, true))];
      LeftRotate(W);
      ghost var w := RotatedLeft(Node(true, p.l.l, p.l.x, p.l.r.(red := false)));
      q := InR(p.red, w, p.x, p.up);
    }

    /** Case 4, X a right child: the sibling's red outer child repays the shortage. */
    method DeleteOuterNephewRight(X0: nat, ghost p: Path, ghost t: Tree) returns (X: nat, ghost s: Tree)
      requires Deleting(p, t) && X0 == Root(t) && p.InR? && !IsRed(t)
      requires p.l.Node? && !p.l.red && IsRed(p.l.l)
      modifies this`root, this`node
      ensures Deleting(Top, s) && X == root == Root(s)
      ensures Order(s) == Order(Plug(p, t)) && Ids(s) == Ids(Plug(p, t))
      ensures TreeOnly(old(node), node, Ids(Plug(p, t)))
    {
      Around(root, node, p, t);
      OuterNephewRightKeeps(p, t);
      OuterNephewRightStores(root, node, p, t);
      var XP := node[X0].parent;
      var W := node[XP].left;
      var C := node[W].left;
      // The colour bit of W is cleared and the colour bit of XP or-ed in.
      node := node[W := node[W].(cs := WithTag(node[W].cs, Tagged(node[XP].cs)))];
      node := node[XP := node[XP].(cs := WithTag(node[XP].cs, false))];
      node := node[C := node[C].(cs := WithTag(node[C].cs, false))];
      RightRotate(XP);
      X := root;
      s := Plug(p.up, RotatedRight(Node(false, Node(p.red, p.l.l.(red := false), p.l.x, p.l.r), p.x, t)));
    }

    /** Cases 2 to 4, X a right child: the sibling is black. */
    method DeleteBlackSiblingRight(X0: nat, ghost p0: Path, ghost t: Tree)
      returns (X: nat, ghost q: Path, ghost s: Tree)
      requires Deleting(p0, t) && X0 == Root(t) && p0.InR? && !IsRed(t) && p0.l.Node? && !p0.l.red
      modifies this`root, this`node
      ensures Deleting(q, s) && X == Root(s) && (q.Top? || (q == p0.up && (p0.red ==> IsRed(s))))
      ensures Order(Plug(q, s)) == Order(Plug(p0, t))
      ensures TreeOnly(old(node), node, Ids(Plug(p0, t)))
    {
      ghost var p := p0;
      Around(root, node, p, t);
      var XP := node[X0].parent;
      var W := node[XP].left;
      if !Tagged(node[node[W].left].cs) && !Tagged(node[node[W].right].cs) {
        X, q, s := DeletePassUp(X0, W, p, t);
      } else {
        if !Tagged(node[node[W].left].cs) {
          p := DeleteInnerNephewRight(X0, p, t);
        }
        X, s := DeleteOuterNephewRight(X0, p, t);
        q := Top;
      }
    }

    /** One turn of the loop, X a right child. */
    method DeleteStepRight(X0: nat, ghost p0: Path, ghost t: Tree) returns (X: nat, ghost q: Path, ghost s: Tree)
      requires Deleting(p0, t) && X0 == Root(t) && p0.InR? && !IsRed(t)
      modifies this`root, this`node
      ensures Deleting(q, s) && X == Root(s)
      ensures Depth(q) < Depth(p0) || q.Top? || IsRed(s)
      ensures Order(Plug(q, s)) == Order(Plug(p0, t))
      ensures TreeOnly(old(node), node, Ids(Plug(p0, t)))
    {
      ghost var p := p0;
      Around(root, node, p, t);
      DeleteSibling(p, t);
      if Tagged(node[node[node[X0].parent].left].cs) {
        p := DeleteRedSiblingRight(X0, p, t);
      }
      X, q, s := DeleteBlackSiblingRight(X0, p, t);
    }

    /** Delete fixup: restores the red-black conditions and moves no key. */
    method DeleteFixup(X0: nat, ghost p: Path, ghost t: Tree) returns (ghost w: Tree)
      requires Deleting(p, t) && X0 == Root(t)
      modifies this`root, this`node
      ensures Stored(root, node, Top, w) && RedBlack(w)
      ensures Order(w) == Order(Plug(p, t)) && Ids(w) == Ids(Plug(p, t))
      ensures TreeOnly(old(node), node, Ids(Plug(p, t)))
    {
      var X := X0;
      ghost var q, s := p, t;
      FocusWords(root, node, q, s);
      while X != root && !Tagged(node[X].cs)
        invariant Deleting(q, s) && X == Root(s)
        invariant X < |node| && (X == root <==> q.Top?) && Tagged(node[X].cs) == IsRed(s)
        invariant Order(Plug(q, s)) == Order(Plug(p, t)) && Ids(Plug(q, s)) == Ids(Plug(p, t))
        invariant TreeOnly(old(node), node, Ids(Plug(p, t)))
        decreases if q.Top? || IsRed(s) then 0 else 1 + Depth(q)
      {
        ghost var q0, s0 := q, s;
        Around(root, node, q, s);
        if X == node[node[X].parent].left {
          X, q, s := DeleteStepLeft(X, q, s);
        } else {
          X, q, s := DeleteStepRight(X, q, s);
        }
        SameOrder'(q0, s0, q, s);
        FocusWords(root, node, q, s);
      }
      DeleteDone(q, s);
      if s.Node? {
        StoredPainted(root, node, q, s, false);
      }
      node := node[X := node[X].(cs := WithTag(node[X].cs, false))];
      w := Plug(q, Black(s));
      StoredPlug(root, node, q, Black(s));
    }
  }
}
