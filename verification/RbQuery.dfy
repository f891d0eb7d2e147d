/**
Reading the red-black index: neighbours in the order, the search for a key prefix, the
equality query, and the height bound.
*/
module RbQuery {
  import opened RowWord
  import opened Keys
  import opened RbShape
  import opened RbLink
  import opened RbSplice
  import opened RbRemoveStore
  import opened RbIndex
  import opened RowGroups
  import opened RbListRemove
  import opened RbTree

  // ----- neighbours in the order

  lemma MinFirst(p: Path, m: Tree)
    requires OnlyLeft(p) && m.Node? && m.l.Nil?
    ensures Head(Order(Plug(p, m))) == m.x && Order(Plug(p, m)) != []
  {
    MinOrder(p, m);
    assert Order(m) == [m.x] + Order(m.r);
  }

  ghost predicate OnlyRight(p: Path) { !p.Top? ==> p.InR? && OnlyRight(p.up) }

  lemma {:induction false} MaxLast(p: Path, m: Tree)
    requires OnlyRight(p) && m.Node? && m.r.Nil?
    ensures Last(Order(Plug(p, m))) == m.x && Order(Plug(p, m)) != []
  {
    PlugOrder(p, m);
    AfterRight(p);
    assert Order(m) == Order(m.l) + [m.x] + [];
  }

  lemma {:induction false} AfterRight(p: Path)
    requires OnlyRight(p)
    ensures After(p) == []
  {
    if !p.Top? {
      AfterRight(p.up);
    }
  }

  /** The rightmost node below X. */
  method Maximum(ix: RbTree, X0: nat, ghost b: Path, ghost s: Tree) returns (X: nat, ghost cm: Path, ghost m: Tree)
    requires Stored(ix.root, ix.node, b, s) && s.Node? && s.x == X0
    ensures Plug(cm, m) == s && OnlyRight(cm) && m.Node? && m.r.Nil? && m.x == X
  {
    X, cm, m := X0, Top, s;
    StoredJoin(ix.root, ix.node, cm, b, m);
    RemoveWords(ix.root, ix.node, b, m);
    while ix.node[X].right != 0
      invariant Plug(cm, m) == s && OnlyRight(cm) && m.Node? && m.x == X
      invariant Stored(ix.root, ix.node, Join(cm, b), m)
      invariant X < |ix.node| && ix.node[X].right == Root(m.r) && (m.r.Node? ==> m.r.x != 0)
      decreases m
    {
      X := ix.node[X].right;
      ghost var cm' := InR(m.red, m.l, m.x, cm);
      StoredUp(ix.root, ix.node, Join(cm', b), m.r);
      cm, m := cm', m.r;
      RemoveWords(ix.root, ix.node, Join(cm, b), m);
    }
  }

  /** The climb of the successor search: up while coming from the right. */
  method ClimbRight(ix: RbTree, X0: nat, ghost p: Path, ghost t: Tree) returns (P: nat)
    requires Stored(ix.root, ix.node, p, t) && t.Node? && t.x == X0
    ensures P == Head(After(p))
  {
    var X := X0;
    ghost var q, s := p, t;
    RemoveWords(ix.root, ix.node, q, s);
    P := ix.node[X].parent;
    while P != 0 && X == ix.node[P].right
      invariant Stored(ix.root, ix.node, q, s) && s.Node? && s.x == X
      invariant P == Parent(q) && P < |ix.node| && (P == 0 <==> q.Top?) && After(q) == After(p)
      invariant P != 0 ==> (ix.node[P].right == X <==> q.InR?)
      decreases q
    {
      X := P;
      StoredUp(ix.root, ix.node, q, s);
      q, s := q.up, Step(q, s);
      RemoveWords(ix.root, ix.node, q, s);
      P := ix.node[P].parent;
    }
  }

  method ClimbLeft(ix: RbTree, X0: nat, ghost p: Path, ghost t: Tree) returns (P: nat)
    requires Stored(ix.root, ix.node, p, t) && t.Node? && t.x == X0
    ensures P == Last(Before(p))
  {
    var X := X0;
    ghost var q, s := p, t;
    RemoveWords(ix.root, ix.node, q, s);
    P := ix.node[X].parent;
    while P != 0 && X == ix.node[P].left
      invariant Stored(ix.root, ix.node, q, s) && s.Node? && s.x == X
      invariant P == Parent(q) && P < |ix.node| && (P == 0 <==> q.Top?) && Before(q) == Before(p)
      decreases q
    {
      X := P;
      StoredUp(ix.root, ix.node, q, s);
      q, s := q.up, Step(q, s);
      RemoveWords(ix.root, ix.node, q, s);
      P := ix.node[P].parent;
    }
  }

  /** The subtree whose root stands at position i of the order. */
  lemma {:induction false} FocusIndex(p: Path, t: Tree, i: nat) returns (q: Path, s: Tree)
    requires i < |Order(t)|
    ensures Plug(q, s) == Plug(p, t) && s.Node?
    ensures |Before(q)| + |Order(s.l)| == |Before(p)| + i
    decreases t
  {
    if i < |Order(t.l)| {
      q, s := FocusIndex(InL(t.red, t.x, t.r, p), t.l, i);
    } else if i == |Order(t.l)| {
      q, s := p, t;
    } else {
      q, s := FocusIndex(InR(t.red, t.l, t.x, p), t.r, i - |Order(t.l)| - 1);
    }
  }

  lemma Neighbours(p: Path, t: Tree)
    requires t.Node?
    ensures var s := Order(Plug(p, t)); var i := |Before(p)| + |Order(t.l)|;
      && i < |s| && s[i] == t.x
      && Head(Order(t.r) + After(p)) == (if i + 1 < |s| then s[i + 1] else 0)
      && Last(Before(p) + Order(t.l)) == (if i > 0 then s[i - 1] else 0)
  {
    FocusOrder(p, t);
  }

  lemma HeadOf(a: seq<nat>, b: seq<nat>)
    requires a != []
    ensures Head(a + b) == Head(a)
  {
  }

  method Successor(ix: RbTree, X: nat, ghost i: nat) returns (P: nat)
    requires ix.Valid() && i < |Order(ix.tree)| && Order(ix.tree)[i] == X
    ensures P == if i + 1 < |Order(ix.tree)| then Order(ix.tree)[i + 1] else 0
  {
    ghost var p, t := FocusIndex(Top, ix.tree, i);
    StoredPlug(ix.root, ix.node, p, t);
    Neighbours(p, t);
    RemoveWords(ix.root, ix.node, p, t);
    if ix.node[X].right != 0 {
      ghost var b := InR(t.red, t.l, t.x, p);
      StoredUp(ix.root, ix.node, b, t.r);
      ghost var cm, m;
      P, cm, m := ix.Minimum(ix.node[X].right, b, t.r);
      MinFirst(cm, m);
      HeadOf(Order(t.r), After(p));
    } else {
      P := ClimbRight(ix, X, p, t);
      assert Order(t.r) + After(p) == After(p);
    }
    assert P == Head(Order(t.r) + After(p));
  }

  lemma LastOf(a: seq<nat>, b: seq<nat>)
    requires b != []
    ensures Last(a + b) == Last(b)
  {
  }

  method Predecessor(ix: RbTree, X: nat, ghost i: nat) returns (P: nat)
    requires ix.Valid() && i < |Order(ix.tree)| && Order(ix.tree)[i] == X
    ensures P == if i > 0 then Order(ix.tree)[i - 1] else 0
  {
    ghost var p, t := FocusIndex(Top, ix.tree, i);
    StoredPlug(ix.root, ix.node, p, t);
    Neighbours(p, t);
    RemoveWords(ix.root, ix.node, p, t);
    if ix.node[X].left != 0 {
      ghost var b := InL(t.red, t.x, t.r, p);
      StoredUp(ix.root, ix.node, b, t.l);
      ghost var cm, m;
      P, cm, m := Maximum(ix, ix.node[X].left, b, t.l);
      MaxLast(cm, m);
      LastOf(Before(p), Order(t.l));
    } else {
      P := ClimbLeft(ix, X, p, t);
      assert Before(p) + Order(t.l) == Before(p);
    }
    assert P == Last(Before(p) + Order(t.l));
  }

  // ----- the height

  ghost function Height(t: Tree): nat {
    if t.Nil? then 0 else 1 + if Height(t.l) > Height(t.r) then Height(t.l) else Height(t.r)
  }

  lemma {:induction false} Pow2Sum(a: nat, b: nat)
    ensures Pow2(a + b) == Pow2(a) * Pow2(b)
  {
    if a > 0 {
      Pow2Sum(a - 1, b);
    }
  }

  lemma Pow2Less(a: nat, b: nat)
    requires a <= b
    ensures 1 <= Pow2(a) <= Pow2(b)
  {
  }

  /** Black nodes bound the height from above and the size from below. */
  lemma {:induction false} BlackBounds(t: Tree)
    requires Balanced(t) && NoRedRed(t)
    ensures Height(t) <= 2 * Blacks(t) + (if IsRed(t) then 1 else 0)
    ensures Pow2(Blacks(t)) <= |Order(t)| + 1
  {
    if t.Node? {
      BlackBounds(t.l);
      BlackBounds(t.r);
    }
  }

  lemma SquareLess(a: nat, b: nat)
    requires a <= b
    ensures a * a <= b * b
  {
  }

  /** A red-black tree of n nodes is at most 2 log2(n + 1) high. */
  lemma HeightBound(t: Tree)
    requires RedBlack(t)
    ensures Pow2(Height(t)) <= (|Order(t)| + 1) * (|Order(t)| + 1)
  {
    BlackBounds(t);
    var b := Pow2(Blacks(t));
    Pow2Sum(Blacks(t), Blacks(t));
    Pow2Less(Height(t), 2 * Blacks(t));
    assert Pow2(2 * Blacks(t)) == b * b;
    SquareLess(b, |Order(t)| + 1);
  }

  /** node_count is the number of tree nodes. */
  lemma NodesCounted(ix: RbTree)
    requires ix.Valid()
    ensures |Order(ix.tree)| == ix.nodeCount
  {
    var s := Order(ix.tree);
    forall i, j | 0 <= i < j < |s|
      ensures s[i] != s[j]
    {
      AscendingApart(ix.rows, s, i, j);
    }
    ElementsCount(s);
    IdsOrder(ix.tree);
    TopsKeys(ix.sibs, ix.tree);
    assert Elements(s) == ix.sibs.Keys;
  }

  // ----- the search for a key prefix

  /** How the values compare with the leading columns of a row's key. */
  ghost predicate RowBelow(rows: Rows, r: nat, vals: Key) {
    r in rows && |vals| <= |rows[r]| && Cmp(vals, rows[r][..|vals|]) > 0
  }

  ghost predicate RowAbove(rows: Rows, r: nat, vals: Key) {
    r in rows && |vals| <= |rows[r]| && Cmp(vals, rows[r][..|vals|]) < 0
  }

  predicate Matches(rows: Rows, r: nat, vals: Key) { r in rows && vals <= rows[r] }

  ghost predicate AllBefore(rows: Rows, s: seq<nat>, vals: Key) {
    forall i :: 0 <= i < |s| ==> RowBelow(rows, s[i], vals)
  }

  ghost predicate AllAfter(rows: Rows, s: seq<nat>, vals: Key) {
    forall i :: 0 <= i < |s| ==> RowAbove(rows, s[i], vals)
  }

  /** A row above a row whose prefix is above the values is above them too. */
  lemma PrefixAbove(a: Key, b: Key, vals: Key)
    requires Less(a, b) && |vals| <= |a| && Cmp(vals, a[..|vals|]) < 0
    ensures Cmp(vals, b[..|vals|]) < 0
  {
    var m := |vals|;
    CmpPrefix(a, b, m);
    CmpEqual(a[..m], b[..m]);
    if Less(a[..m], b[..m]) {
      LessTransitive(vals, a[..m], b[..m]);
    }
  }

  lemma PrefixBelow(a: Key, b: Key, vals: Key)
    requires Less(a, b) && |vals| <= |a| && Cmp(vals, b[..|vals|]) > 0
    ensures Cmp(vals, a[..|vals|]) > 0
  {
    var m := |vals|;
    CmpPrefix(a, b, m);
    CmpEqual(a[..m], b[..m]);
    CmpFlip(vals, b[..m]);
    if Less(a[..m], b[..m]) {
      LessTransitive(a[..m], b[..m], vals);
    }
    CmpFlip(vals, a[..m]);
  }

  lemma FindLeft(rows: Rows, p: Path, t: Tree, vals: Key)
    requires t.Node? && Ascending(rows, Order(Plug(p, t))) && AllAfter(rows, After(p), vals) &&
      RowAbove(rows, t.x, vals)
    ensures AllAfter(rows, After(InL(t.red, t.x, t.r, p)), vals)
  {
    PlugOrder(p, t);
    AscendingParts(rows, Before(p), Order(t), After(p));
    var s, m := Order(t), |Order(t.l)|;
    forall i | 0 <= i < |Order(t.r)|
      ensures RowAbove(rows, Order(t.r)[i], vals)
    {
      assert s[m] == t.x && s[m + 1 + i] == Order(t.r)[i] && LessAt(rows, s, m, m + 1 + i);
      PrefixAbove(rows[t.x], rows[Order(t.r)[i]], vals);
    }
  }

  lemma FindRight(rows: Rows, p: Path, t: Tree, vals: Key)
    requires t.Node? && Ascending(rows, Order(Plug(p, t))) && AllBefore(rows, Before(p), vals) &&
      RowBelow(rows, t.x, vals)
    ensures AllBefore(rows, Before(InR(t.red, t.l, t.x, p)), vals)
  {
    PlugOrder(p, t);
    AscendingParts(rows, Before(p), Order(t), After(p));
    var s, m := Order(t), |Order(t.l)|;
    forall i | 0 <= i < |Order(t.l)|
      ensures RowBelow(rows, Order(t.l)[i], vals)
    {
      assert s[m] == t.x && s[i] == Order(t.l)[i] && LessAt(rows, s, i, m);
      PrefixBelow(rows[Order(t.l)[i]], rows[t.x], vals);
    }
  }

  /** How a comparison with the leading columns decides. */
  lemma CmpDecides(rows: Rows, r: nat, vals: Key)
    requires r in rows && |vals| <= |rows[r]|
    ensures vals[..|vals|] == vals
    ensures Cmp(vals, rows[r][..|vals|]) == 0 <==> Matches(rows, r, vals)
    ensures Cmp(vals, rows[r][..|vals|]) < 0 <==> RowAbove(rows, r, vals)
    ensures Cmp(vals, rows[r][..|vals|]) > 0 <==> RowBelow(rows, r, vals)
  {
    CmpEqual(vals, rows[r][..|vals|]);
  }

  lemma NoneMatches(rows: Rows, p: Path, vals: Key)
    requires AllBefore(rows, Before(p), vals) && AllAfter(rows, After(p), vals)
    ensures forall i :: 0 <= i < |Order(Plug(p, Nil))| ==> !Matches(rows, Order(Plug(p, Nil))[i], vals)
  {
    PlugOrder(p, Nil);
    var s := Order(Plug(p, Nil));
    forall i | 0 <= i < |s|
      ensures !Matches(rows, s[i], vals)
    {
      assert s[i] == if i < |Before(p)| then Before(p)[i] else After(p)[i - |Before(p)|];
      CmpDecides(rows, s[i], vals);
    }
  }

  /** Where the search stands: what is left of the path is below the values, what is right above. */
  ghost predicate Searching(root: nat, n: Nodes, rows: Rows, w: Tree, p: Path, t: Tree, vals: Key) {
    Plug(p, t) == w && Stored(root, n, p, t) && AllBefore(rows, Before(p), vals) && AllAfter(rows, After(p), vals)
  }

  lemma StepLeft(root: nat, n: Nodes, rows: Rows, w: Tree, p: Path, t: Tree, vals: Key)
    requires Searching(root, n, rows, w, p, t, vals) && Ascending(rows, Order(w)) && t.Node? &&
      RowAbove(rows, t.x, vals)
    ensures Searching(root, n, rows, w, InL(t.red, t.x, t.r, p), t.l, vals)
    ensures t.x < |n| && n[t.x].left == Root(t.l)
  {
    FindLeft(rows, p, t, vals);
    StoredUp(root, n, InL(t.red, t.x, t.r, p), t.l);
  }

  lemma StepRight(root: nat, n: Nodes, rows: Rows, w: Tree, p: Path, t: Tree, vals: Key)
    requires Searching(root, n, rows, w, p, t, vals) && Ascending(rows, Order(w)) && t.Node? &&
      RowBelow(rows, t.x, vals)
    ensures Searching(root, n, rows, w, InR(t.red, t.l, t.x, p), t.r, vals)
    ensures t.x < |n| && n[t.x].right == Root(t.r)
  {
    FindRight(rows, p, t, vals);
    StoredUp(root, n, InR(t.red, t.l, t.x, p), t.r);
  }

  lemma Found(rows: Rows, w: Tree, p: Path, t: Tree) returns (i: nat)
    requires Plug(p, t) == w && t.Node?
    ensures i < |Order(w)| && Order(w)[i] == t.x
  {
    i := |Before(p)| + |Order(t.l)|;
    Neighbours(p, t);
  }

  lemma NotFound(root: nat, n: Nodes, rows: Rows, w: Tree, p: Path, t: Tree, vals: Key)
    requires Searching(root, n, rows, w, p, t, vals) && Root(t) == 0
    ensures forall j :: 0 <= j < |Order(w)| ==> !Matches(rows, Order(w)[j], vals)
  {
    NoneMatches(rows, p, vals);
  }

  /** How many tree nodes a search meets from the top of t down to a match or out of the tree. */
  ghost function Met(t: Tree, rows: Rows, vals: Key): nat {
    if t.Nil? then 0
    else if Matches(rows, t.x, vals) then 1
    else 1 + if RowAbove(rows, t.x, vals) then Met(t.l, rows, vals) else Met(t.r, rows, vals)
  }

  /**
  Some tree node whose key starts with the values, or 0 when there is none. The descent is
  no longer than twice the binary logarithm of node_count plus one.
  */
  method Find(ix: RbTree, vals: Key) returns (X: nat, steps: nat, ghost i: nat)
    requires ix.Valid() && |vals| <= ix.fields
    ensures X != 0 ==> i < |Order(ix.tree)| && Order(ix.tree)[i] == X && Matches(ix.rows, X, vals)
    ensures X == 0 ==> forall j :: 0 <= j < |Order(ix.tree)| ==> !Matches(ix.rows, Order(ix.tree)[j], vals)
    ensures steps == Met(ix.tree, ix.rows, vals) && Pow2(steps) <= (ix.nodeCount + 1) * (ix.nodeCount + 1)
  {
    NodesCounted(ix);
    X, steps, i := ix.root, 0, 0;
    ghost var p, t := Top, ix.tree;
    while X != 0
      invariant Searching(ix.root, ix.node, ix.rows, ix.tree, p, t, vals) && X == Root(t)
      invariant steps + Height(t) <= Height(ix.tree)
      invariant steps + Met(t, ix.rows, vals) == Met(ix.tree, ix.rows, vals)
      decreases t
    {
      ix.TreeRow(p, t);
      CmpDecides(ix.rows, X, vals);
      steps := steps + 1;
      var cmp := CompareKeys(vals, ix.rows[X], |vals|);
      if cmp < 0 {
        StepLeft(ix.root, ix.node, ix.rows, ix.tree, p, t, vals);
        X := ix.node[X].left;
        p, t := InL(t.red, t.x, t.r, p), t.l;
      } else if cmp > 0 {
        StepRight(ix.root, ix.node, ix.rows, ix.tree, p, t, vals);
        X := ix.node[X].right;
        p, t := InR(t.red, t.l, t.x, p), t.r;
      } else {
        i := Found(ix.rows, ix.tree, p, t);
        StepsBound(ix.tree, steps);
        return;
      }
    }
    NotFound(ix.root, ix.node, ix.rows, ix.tree, p, t, vals);
    StepsBound(ix.tree, steps);
  }

  lemma StepsBound(t: Tree, steps: nat)
    requires RedBlack(t) && steps <= Height(t)
    ensures Pow2(steps) <= (|Order(t)| + 1) * (|Order(t)| + 1)
  {
    HeightBound(t);
    Pow2Less(steps, Height(t));
  }

  // ----- the equality query

  /** Rows between two matching rows match. */
  lemma Between(rows: Rows, s: seq<nat>, i: nat, j: nat, k: nat, vals: Key)
    requires Ascending(rows, s) && i <= j <= k < |s| && Matches(rows, s[i], vals) && Matches(rows, s[k], vals)
    requires |vals| <= |rows[s[i]]|
    ensures Matches(rows, s[j], vals)
  {
    if i < j < k {
      assert LessAt(rows, s, i, j) && LessAt(rows, s, j, k);
      var m := |vals|;
      var a, b, c := rows[s[i]], rows[s[j]], rows[s[k]];
      CmpPrefix(a, b, m);
      CmpPrefix(b, c, m);
      CmpFlip(a[..m], b[..m]);
      CmpEqual(b[..m], c[..m]);
      assert a[..m] == vals == c[..m];
    }
  }

  /** The first tree node with the prefix, found by walking back from any one. */
  method FindMinimum(ix: RbTree, vals: Key, X0: nat, ghost i0: nat) returns (X: nat, ghost i: nat)
    requires ix.Valid() && |vals| <= ix.fields
    requires i0 < |Order(ix.tree)| && Order(ix.tree)[i0] == X0 && Matches(ix.rows, X0, vals)
    ensures i <= i0 && Order(ix.tree)[i] == X && Matches(ix.rows, X, vals)
    ensures i > 0 ==> !Matches(ix.rows, Order(ix.tree)[i - 1], vals)
  {
    X, i := X0, i0;
    while true
      invariant i <= i0 && Order(ix.tree)[i] == X && Matches(ix.rows, X, vals)
      decreases i
    {
      var L := Predecessor(ix, X, i);
      IndexRow(ix, i);
      if i > 0 {
        IndexRow(ix, i - 1);
      }
      if L == 0 {
        return;
      }
      CmpDecides(ix.rows, L, vals);
      var cmp := CompareKeys(vals, ix.rows[L], |vals|);
      if cmp != 0 {
        return;
      }
      X, i := L, i - 1;
    }
  }

  /** Every position of the order holds an indexed tree node. */
  lemma IndexRow(ix: RbTree, i: nat)
    requires ix.Valid() && i < |Order(ix.tree)|
    ensures var x := Order(ix.tree)[i];
      && 0 < x < |ix.node| && x in ix.rows && x in ix.sibs && |ix.rows[x]| == ix.fields
      && Rid(ix.node[x].cs) == Head(ix.sibs[x])
  {
    IdsOrder(ix.tree);
    assert TopAt(ix.sibs, ix.tree, Order(ix.tree)[i]);
    SiblingWords(ix.node, ix.rows, ix.sibs, ix.owner, Order(ix.tree)[i]);
  }

  /** The sibling list, read along the next words. */
  method Siblings(ix: RbTree, X: nat) returns (list: seq<nat>)
    requires ix.Valid() && X in ix.sibs && X < |ix.node|
    ensures list == ix.sibs[X]
  {
    SiblingWords(ix.node, ix.rows, ix.sibs, ix.owner, X);
    ghost var s := ix.sibs[X];
    assert ListLinked(ix.node, X, s);
    var S := Rid(ix.node[X].cs);
    list := [];
    assert s != [] ==> SibAt(ix.node, X, s, 0);
    while S != 0
      invariant |list| <= |s| && list == s[..|list|] && S == (if |list| < |s| then s[|list|] else 0)
      invariant |list| < |s| ==> S != 0
      decreases |s| - |list|
    {
      assert SibAt(ix.node, X, s, |list|);
      assert s[..|list| + 1] == s[..|list|] + [s[|list|]];
      list := list + [S];
      S := ix.node[S].right;
      assert |list| < |s| ==> SibAt(ix.node, X, s, |list|);
    }
  }

  /** The tree nodes of `s`, each followed by its siblings. */
  ghost function Groups(sibs: Sibs, s: seq<nat>): seq<nat> {
    if s == [] then [] else
      var x := s[|s| - 1];
      Groups(sibs, s[..|s| - 1]) + ([x] + (if x in sibs then sibs[x] else []))
  }

  lemma GroupsNext(sibs: Sibs, s: seq<nat>, lo: nat, i: nat)
    requires lo <= i < |s| && s[i] in sibs
    ensures Groups(sibs, s[lo..i + 1]) == Groups(sibs, s[lo..i]) + ([s[i]] + sibs[s[i]])
  {
    assert s[lo..i + 1][..i - lo] == s[lo..i];
  }

  /** A tree node followed by its siblings. */
  method Group(ix: RbTree, X: nat, ghost i: nat) returns (group: seq<nat>)
    requires ix.Valid() && i < |Order(ix.tree)| && Order(ix.tree)[i] == X
    ensures X in ix.sibs && group == [X] + ix.sibs[X]
  {
    IndexRow(ix, i);
    var list := Siblings(ix, X);
    group := [X] + list;
  }

  /** The next tree node, if it matches too. */
  method Next(ix: RbTree, vals: Key, X0: nat, ghost i: nat) returns (X: nat, more: bool)
    requires ix.Valid() && |vals| <= ix.fields && i < |Order(ix.tree)| && Order(ix.tree)[i] == X0
    ensures more <==> i + 1 < |Order(ix.tree)| && Matches(ix.rows, Order(ix.tree)[i + 1], vals)
    ensures more ==> X == Order(ix.tree)[i + 1]
  {
    X := Successor(ix, X0, i);
    if i + 1 < |Order(ix.tree)| {
      IndexRow(ix, i + 1);
    }
    if X == 0 {
      return X, false;
    }
    CmpDecides(ix.rows, X, vals);
    var cmp := CompareKeys(vals, ix.rows[X], |vals|);
    more := cmp == 0;
  }

  /** What an equality query on the leading columns visits, in this order. */
  method QueryEq(ix: RbTree, vals: Key) returns (visited: seq<nat>, ghost lo: nat, ghost hi: nat)
    requires ix.Valid() && |vals| <= ix.fields
    ensures lo <= hi <= |Order(ix.tree)| && visited == Groups(ix.sibs, Order(ix.tree)[lo..hi])
    ensures forall r :: r in visited <==> r in ix.rows && vals <= ix.rows[r]
    ensures NoDup(visited) && KeysAscend(ix.rows, visited)
  {
    visited, lo, hi := [], 0, 0;
    var X, steps;
    ghost var i;
    X, steps, i := Find(ix, vals);
    if X == 0 {
      VisitsExactly(ix, vals, 0, 0);
      return;
    }
    if |vals| < ix.fields {
      X, i := FindMinimum(ix, vals, X, i);
    } else {
      OnlyOne(ix, vals, i);
    }
    visited, lo, hi := Walk(ix, vals, X, i);
    VisitsExactly(ix, vals, lo, hi);
  }

  /** From the first matching tree node on, until one does not match. */
  method Walk(ix: RbTree, vals: Key, X0: nat, ghost i0: nat) returns (visited: seq<nat>, ghost lo: nat, ghost hi: nat)
    requires ix.Valid() && |vals| <= ix.fields && i0 < |Order(ix.tree)| && Order(ix.tree)[i0] == X0
    requires Matches(ix.rows, X0, vals) && (i0 > 0 ==> !Matches(ix.rows, Order(ix.tree)[i0 - 1], vals))
    ensures lo <= hi <= |Order(ix.tree)| && visited == Groups(ix.sibs, Order(ix.tree)[lo..hi])
    ensures forall i :: 0 <= i < |Order(ix.tree)| ==> (Matches(ix.rows, Order(ix.tree)[i], vals) <==> lo <= i < hi)
  {
    ghost var s, i := Order(ix.tree), i0;
    var X, more := X0, true;
    visited, lo := [], i0;
    assert s[lo..lo] == [];
    while more
      invariant lo == i0 <= i <= |s| && visited == Groups(ix.sibs, s[lo..i])
      invariant forall j :: lo <= j < i ==> Matches(ix.rows, s[j], vals)
      invariant more ==> i < |s| && s[i] == X && Matches(ix.rows, X, vals)
      invariant !more ==> lo < i && (|vals| == ix.fields || i == |s| || !Matches(ix.rows, s[i], vals))
      decreases |s| - i, more
    {
      var group := Group(ix, X, i);
      visited := visited + group;
      GroupsNext(ix.sibs, s, lo, i);
      more := false;
      if |vals| < ix.fields {
        X, more := Next(ix, vals, X, i);
      }
      i := i + 1;
    }
    hi := i;
    if |vals| == ix.fields {
      OnlyOne(ix, vals, lo);
    } else {
      Interval(ix, vals, lo, hi);
    }
  }

  /** With all columns given at most one tree node matches. */
  lemma OnlyOne(ix: RbTree, vals: Key, i: nat)
    requires ix.Valid() && |vals| == ix.fields && i < |Order(ix.tree)| && Matches(ix.rows, Order(ix.tree)[i], vals)
    ensures forall j :: 0 <= j < |Order(ix.tree)| && Matches(ix.rows, Order(ix.tree)[j], vals) ==> j == i
  {
    var s := Order(ix.tree);
    IndexRow(ix, i);
    forall j | 0 <= j < |s| && Matches(ix.rows, s[j], vals)
      ensures j == i
    {
      IndexRow(ix, j);
      AscendingApart(ix.rows, s, i, j);
    }
  }

  /** Matching positions form an interval. */
  lemma Interval(ix: RbTree, vals: Key, lo: nat, hi: nat)
    requires ix.Valid() && |vals| <= ix.fields && lo < hi <= |Order(ix.tree)|
    requires forall j :: lo <= j < hi ==> Matches(ix.rows, Order(ix.tree)[j], vals)
    requires lo > 0 ==> !Matches(ix.rows, Order(ix.tree)[lo - 1], vals)
    requires hi < |Order(ix.tree)| ==> !Matches(ix.rows, Order(ix.tree)[hi], vals)
    ensures forall i :: 0 <= i < |Order(ix.tree)| ==> (Matches(ix.rows, Order(ix.tree)[i], vals) <==> lo <= i < hi)
  {
    var s := Order(ix.tree);
    forall i | 0 <= i < |s| && Matches(ix.rows, s[i], vals)
      ensures lo <= i < hi
    {
      IndexRow(ix, i);
      IndexRow(ix, lo);
      if i < lo {
        Between(ix.rows, s, i, lo - 1, lo, vals);
      } else if i >= hi {
        Between(ix.rows, s, lo, hi, i, vals);
      }
    }
  }

  // ----- what the groups hold

  /** The keys are the same, or at the first column in which they differ the first is smaller. */
  ghost predicate KeysOrdered(rows: Rows, v: seq<nat>, i: nat, j: nat)
    requires i < |v| && j < |v|
  {
    && v[i] in rows && v[j] in rows && |rows[v[i]]| == |rows[v[j]]|
    && var a, b := rows[v[i]], rows[v[j]]; a == b || exists n :: 0 <= n < |a| && a[..n] == b[..n] && a[n] < b[n]
  }

  ghost predicate KeysAscend(rows: Rows, v: seq<nat>) {
    forall i, j :: 0 <= i < j < |v| ==> KeysOrdered(rows, v, i, j)
  }

  /** A group holds the row ids its tree node owns. */
  lemma GroupOwns(rows: Rows, sibs: Sibs, owner: map<nat, nat>, x: nat, r: nat)
    requires Placed(rows, sibs, owner) && x in sibs
    ensures r in [x] + sibs[x] <==> r in rows && r in owner && owner[r] == x
    ensures r in [x] + sibs[x] ==> x in rows && rows[r] == rows[x]
  {
    assert ListPlaced(rows, owner, x, sibs[x]);
    if r in sibs[x] {
      var i :| 0 <= i < |sibs[x]| && sibs[x][i] == r;
    }
    if r in rows {
      assert RowPlaced(rows, sibs, owner, r);
    }
  }

  lemma {:induction false} GroupsOwn(rows: Rows, sibs: Sibs, owner: map<nat, nat>, s: seq<nat>, r: nat)
    requires Placed(rows, sibs, owner) && forall i :: 0 <= i < |s| ==> s[i] in sibs
    ensures r in Groups(sibs, s) <==> r in rows && r in owner && owner[r] in s
  {
    if s != [] {
      var x := s[|s| - 1];
      GroupsOwn(rows, sibs, owner, s[..|s| - 1], r);
      GroupOwns(rows, sibs, owner, x, r);
      assert s == s[..|s| - 1] + [x];
    }
  }

  lemma NoDupJoin(a: seq<nat>, b: seq<nat>)
    requires NoDup(a) && NoDup(b) && forall r :: r in a ==> r !in b
    ensures NoDup(a + b)
  {
    var s := a + b;
    forall i, j | 0 <= i < j < |s|
      ensures s[i] != s[j]
    {
      if i < |a| <= j {
        assert a[i] in a && b[j - |a|] in b;
      }
    }
  }

  lemma {:induction false} GroupsNoDup(rows: Rows, sibs: Sibs, owner: map<nat, nat>, s: seq<nat>)
    requires Placed(rows, sibs, owner) && NoDup(s) && forall i :: 0 <= i < |s| ==> s[i] in sibs
    ensures NoDup(Groups(sibs, s))
  {
    if s != [] {
      var x, a := s[|s| - 1], s[..|s| - 1];
      GroupsNoDup(rows, sibs, owner, a);
      assert ListPlaced(rows, owner, x, sibs[x]);
      NoDupJoin([x], sibs[x]);
      forall r | r in Groups(sibs, a)
        ensures r !in [x] + sibs[x]
      {
        GroupsOwn(rows, sibs, owner, a, r);
        GroupOwns(rows, sibs, owner, x, r);
        assert x !in a;
      }
      NoDupJoin(Groups(sibs, a), [x] + sibs[x]);
    }
  }

  lemma {:induction false} GroupsAscend(rows: Rows, sibs: Sibs, owner: map<nat, nat>, s: seq<nat>)
    requires Placed(rows, sibs, owner) && Ascending(rows, s) && forall i :: 0 <= i < |s| ==> s[i] in sibs
    ensures KeysAscend(rows, Groups(sibs, s))
  {
    if s != [] {
      var x, a := s[|s| - 1], s[..|s| - 1];
      assert s == a + [x] + [] && s == [] + a + [x];
      AscendingParts(rows, [], a, [x]);
      GroupsAscend(rows, sibs, owner, a);
      var v, g := Groups(sibs, s), Groups(sibs, a);
      forall i, j | 0 <= i < j < |v|
        ensures KeysOrdered(rows, v, i, j)
      {
        GroupsOwn(rows, sibs, owner, a, v[i]);
        GroupOwns(rows, sibs, owner, x, v[i]);
        GroupOwns(rows, sibs, owner, x, v[j]);
        if j < |g| {
          assert KeysOrdered(rows, g, i, j);
        } else if i < |g| {
          assert v[i] == g[i] && v[i] in g && v[j] in [x] + sibs[x];
          var k :| 0 <= k < |a| && a[k] == owner[v[i]];
          assert LessAt(rows, s, k, |s| - 1) && RowPlaced(rows, sibs, owner, v[i]);
          LessMeans(rows[a[k]], rows[x]);
        } else {
          assert v[i] in [x] + sibs[x] && v[j] in [x] + sibs[x];
        }
      }
    }
  }

  lemma SliceMember(rows: Rows, w: seq<nat>, lo: nat, hi: nat, i: nat)
    requires Ascending(rows, w) && lo <= hi <= |w| && i < |w|
    ensures w[i] in w[lo..hi] <==> lo <= i < hi
  {
    if lo <= i < hi {
      assert w[lo..hi][i - lo] == w[i];
    }
    if w[i] in w[lo..hi] {
      var j :| 0 <= j < hi - lo && w[lo..hi][j] == w[i];
      AscendingApart(rows, w, i, lo + j);
    }
  }

  /** The groups of the matching tree nodes hold exactly the matching rows, once, keys ascending. */
  lemma VisitsExactly(ix: RbTree, vals: Key, lo: nat, hi: nat)
    requires ix.Valid() && |vals| <= ix.fields && lo <= hi <= |Order(ix.tree)|
    requires forall i :: 0 <= i < |Order(ix.tree)| ==> (Matches(ix.rows, Order(ix.tree)[i], vals) <==> lo <= i < hi)
    ensures var v := Groups(ix.sibs, Order(ix.tree)[lo..hi]);
      && (forall r :: r in v <==> r in ix.rows && vals <= ix.rows[r])
      && NoDup(v) && KeysAscend(ix.rows, v)
  {
    var w := Order(ix.tree);
    var s := w[lo..hi];
    assert w == w[..lo] + s + w[hi..];
    AscendingParts(ix.rows, w[..lo], s, w[hi..]);
    forall i | 0 <= i < |w|
      ensures w[i] in ix.sibs
    {
      IndexRow(ix, i);
    }
    forall i, j | 0 <= i < j < |s|
      ensures s[i] != s[j]
    {
      AscendingApart(ix.rows, s, i, j);
    }
    GroupsNoDup(ix.rows, ix.sibs, ix.owner, s);
    GroupsAscend(ix.rows, ix.sibs, ix.owner, s);
    forall r
      ensures r in Groups(ix.sibs, s) <==> r in ix.rows && vals <= ix.rows[r]
    {
      GroupsOwn(ix.rows, ix.sibs, ix.owner, s, r);
      if r in ix.rows {
        OwnerPosition(ix, r);
        var i :| 0 <= i < |w| && w[i] == ix.owner[r];
        assert Matches(ix.rows, w[i], vals) <==> vals <= ix.rows[r];
        SliceMember(ix.rows, w, lo, hi, i);
      }
    }
  }

  lemma OwnerPosition(ix: RbTree, r: nat)
    requires ix.Valid() && r in ix.rows
    ensures r in ix.owner && ix.owner[r] in Order(ix.tree) && ix.owner[r] in ix.rows &&
      ix.rows[ix.owner[r]] == ix.rows[r]
  {
    assert RowPlaced(ix.rows, ix.sibs, ix.owner, r);
    assert TopAt(ix.sibs, ix.tree, ix.owner[r]);
    IdsOrder(ix.tree);
  }

  // ----- the node count

  /** There is one tree node for every distinct key. */
  lemma NodeCountIsKeyCount(ix: RbTree)
    requires ix.Valid()
    ensures ix.nodeCount == |set r | r in ix.rows :: ix.rows[r]|
  {
    var tops := ix.sibs.Keys;
    forall x | x in tops
      ensures x in ix.rows
    {
      assert ListPlaced(ix.rows, ix.owner, x, ix.sibs[x]);
    }
    forall x, y | x in tops && y in tops && x != y
      ensures ix.rows[x] != ix.rows[y]
    {
      KeyOfOneTop(ix.rows, ix.tree, ix.sibs, x);
    }
    DistinctKeys(ix.rows, tops);
    assert (set x | x in tops :: ix.rows[x]) == (set r | r in ix.rows :: ix.rows[r]) by {
      forall r | r in ix.rows
        ensures exists x :: x in tops && ix.rows[x] == ix.rows[r]
      {
        assert RowPlaced(ix.rows, ix.sibs, ix.owner, r);
      }
    }
    assert |tops| == |ix.sibs|;
  }
}
