/**
Taking a row id out of a sibling list, and making the first sibling the tree node.
*/
module RbListRemove {
  import opened RowWord
  import opened RbShape
  import opened RbLink
  import opened RbSplice
  import opened RbRemoveStore
  import opened RbIndex
  import opened RowGroups

  /** Where a row id that is no tree node stands. */
  lemma SiblingPlace(n: Nodes, rows: Rows, sibs: Sibs, owner: map<nat, nat>, Z: nat) returns (x: nat, j: nat)
    requires SibsLinked(n, sibs) && Placed(rows, sibs, owner) && Z in rows && Z !in sibs
    ensures x in sibs && x < |n| && j < |sibs[x]| && sibs[x][j] == Z && owner.Keys >= {Z} && owner[Z] == x
    ensures Z < |n| && n[Z] == SibNode(x, sibs[x], j) && NoDup(sibs[x]) && x !in sibs[x]
    ensures Rid(n[x].cs) == Head(sibs[x])
    ensures j + 1 < |sibs[x]| ==> SibAt(n, x, sibs[x], j + 1)
    ensures j > 0 ==> SibAt(n, x, sibs[x], j - 1)
    ensures rows.Keys >= {x} && rows[x] == rows[Z]
  {
    assert RowPlaced(rows, sibs, owner, Z);
    x := owner[Z];
    assert ListPlaced(rows, owner, x, sibs[x]);
    j :| 0 <= j < |sibs[x]| && sibs[x][j] == Z;
    assert SibAt(n, x, sibs[x], j);
  }

  /** The writes that take the j-th sibling of `x` out. */
  ghost predicate CutWrites(n: Nodes, n': Nodes, x: nat, s: seq<nat>, j: nat)
    requires j < |s|
  {
    && |n'| == |n| && x < |n| && InRange(s, |n|)
    && n'[x] == n[x].(cs := n'[x].cs) && Tagged(n'[x].cs) == Tagged(n[x].cs)
    && Rid(n'[x].cs) == (if j == 0 then Head(s[1..]) else Rid(n[x].cs))
    && (j > 0 ==> n'[s[j - 1]] == n[s[j - 1]].(right := n[s[j]].right))
    && (j + 1 < |s| && j == 0 ==> n'[s[1]] == n[s[1]].(left := 0, parent := MSB + x))
    && (j + 1 < |s| && j > 0 ==> n'[s[j + 1]] == n[s[j + 1]].(left := s[j - 1]))
    && n'[s[j]] == ZERO_NODE
    && forall i :: 0 <= i < |n| && i != x && i !in s ==> n'[i] == n[i]
  }

  lemma ListCut(n: Nodes, n': Nodes, x: nat, s: seq<nat>, j: nat)
    requires ListLinked(n, x, s) && NoDup(s) && x !in s && j < |s|
    requires CutWrites(n, n', x, s, j)
    requires forall i :: 0 <= i < |s| && i != j - 1 && i != j && i != j + 1 ==> n'[s[i]] == n[s[i]]
    ensures ListLinked(n', x, Cut(s, j))
  {
    var s' := Cut(s, j);
    forall i | 0 <= i < |s'|
      ensures SibAt(n', x, s', i)
    {
      ListCutAt(n, n', x, s, j, i);
    }
  }

  lemma ListCutAt(n: Nodes, n': Nodes, x: nat, s: seq<nat>, j: nat, i: nat)
    requires ListLinked(n, x, s) && j < |s| && i + 1 < |s|
    requires CutWrites(n, n', x, s, j)
    requires var i0 := if i < j then i else i + 1; i0 != j - 1 && i0 != j + 1 ==> n'[s[i0]] == n[s[i0]]
    ensures SibAt(n', x, Cut(s, j), i)
  {
    var i0 := if i < j then i else i + 1;
    assert SibAt(n, x, s, j) && SibAt(n, x, s, i0);
    CutNode(x, s, j, i);
  }

  /** The words of a sibling once the j-th is gone. */
  lemma CutNode(x: nat, s: seq<nat>, j: nat, i: nat)
    requires j < |s| && i + 1 < |s|
    ensures Cut(s, j)[i] == s[if i < j then i else i + 1]
    ensures SibNode(x, Cut(s, j), i) ==
      if i + 1 < j then SibNode(x, s, i)
      else if i < j then SibNode(x, s, i).(right := SibNode(x, s, j).right)
      else if i > j then SibNode(x, s, i + 1)
      else if j > 0 then SibNode(x, s, j + 1).(left := s[j - 1])
      else SibNode(x, s, 1).(left := 0, parent := MSB + x)
  {
  }

  lemma AscendingFewer(rows: Rows, s: seq<nat>, Z: nat)
    requires Ascending(rows, s) && Z !in s
    ensures Ascending(rows - {Z}, s)
  {
    var rows' := rows - {Z};
    forall i, j | 0 <= i < j < |s|
      ensures LessAt(rows', s, i, j)
    {
      assert LessAt(rows, s, i, j);
    }
  }

  /** Leaving one row id out of an ascending sequence. */
  lemma AscendingCut(rows: Rows, a: seq<nat>, Z: nat, c: seq<nat>)
    requires Ascending(rows, a + [Z] + c)
    ensures Ascending(rows - {Z}, a + c)
  {
    var s, u, rows' := a + [Z] + c, a + c, rows - {Z};
    var m := |a|;
    forall i | 0 <= i < |u|
      ensures u[i] == s[if i < m then i else i + 1] && u[i] in rows'
    {
      assert s[m] == Z;
      AscendingApart(rows, s, if i < m then i else i + 1, m);
    }
    forall i, j | 0 <= i < j < |u|
      ensures LessAt(rows', u, i, j)
    {
      assert LessAt(rows, s, if i < m then i else i + 1, if j < m then j else j + 1);
    }
  }

  /** Putting one row id for another with the same key. */
  lemma AscendingSwap(rows: Rows, a: seq<nat>, Z: nat, S: nat, c: seq<nat>)
    requires Ascending(rows, a + [Z] + c) && S in rows && Z in rows && rows[S] == rows[Z] && S !in a + [Z] + c
    ensures Ascending(rows - {Z}, a + [S] + c)
  {
    var s, u, rows' := a + [Z] + c, a + [S] + c, rows - {Z};
    var m := |a|;
    assert s[m] == Z;
    forall i | 0 <= i < |u|
      ensures u[i] in rows' && (i == m || u[i] == s[i])
    {
      AscendingApart(rows, s, i, m);
    }
    forall i, j | 0 <= i < j < |u|
      ensures LessAt(rows', u, i, j)
    {
      assert LessAt(rows, s, i, j);
    }
  }

  // ----- the first sibling becomes the tree node

  /** The writes of the promotion: S takes the words of Z, the next sibling becomes first. */
  ghost predicate PromoteWrites(n: Nodes, n': Nodes, Z: nat, s: seq<nat>)
    requires s != []
  {
    && |n'| == |n| && Z < |n| && InRange(s, |n|)
    && n'[s[0]] == RbNode(n[Z].left, n[Z].right, n[Z].parent, n'[s[0]].cs)
    && Tagged(n'[s[0]].cs) == Tagged(n[Z].cs) && Rid(n'[s[0]].cs) == Head(s[1..])
    && (|s| > 1 ==> n'[s[1]] == n[s[1]].(left := 0, parent := MSB + s[0]))
    && n'[Z] == ZERO_NODE
  }

  lemma ListPromoted(n: Nodes, n': Nodes, Z: nat, s: seq<nat>)
    requires s != [] && ListLinked(n, Z, s) && NoDup(s) && PromoteWrites(n, n', Z, s)
    requires forall i :: 2 <= i < |s| ==> n'[s[i]] == n[s[i]]
    ensures ListLinked(n', s[0], s[1..])
  {
    var s' := s[1..];
    forall i | 0 <= i < |s'|
      ensures SibAt(n', s[0], s', i)
    {
      assert s'[i] == s[i + 1] && SibAt(n, Z, s, i + 1);
    }
  }

  // ----- what the list writes leave of the index

  /** Row ids of a list are no tree nodes. */
  lemma ListNotInTree(rows: Rows, sibs: Sibs, owner: map<nat, nat>, t: Tree, x: nat)
    requires Placed(rows, sibs, owner) && TopsAre(sibs, t) && x in sibs
    ensures forall i :: i in sibs[x] ==> i in rows && i in owner && owner[i] == x && i !in Ids(t) && i !in sibs
    ensures x in Ids(t) && x in rows && x in owner && owner[x] == x && x !in sibs[x] && NoDup(sibs[x])
  {
    TopsKeys(sibs, t);
    assert ListPlaced(rows, owner, x, sibs[x]);
    forall i | i in sibs[x]
      ensures i in rows && i in owner && owner[i] == x && i !in Ids(t) && i !in sibs
    {
      var j :| 0 <= j < |sibs[x]| && sibs[x][j] == i;
      SiblingNotTop(rows, sibs, owner, x, j);
    }
  }

  lemma CutStored(root: nat, n: Nodes, n': Nodes, rows: Rows, sibs: Sibs, owner: map<nat, nat>, t: Tree, x: nat, j: nat)
    requires Stored(root, n, Top, t) && Placed(rows, sibs, owner) && TopsAre(sibs, t) && x in sibs && j < |sibs[x]|
    requires CutWrites(n, n', x, sibs[x], j) && 0 !in rows
    ensures Stored(root, n', Top, t)
  {
    ListNotInTree(rows, sibs, owner, t, x);
    StoredLoose(root, n, t, n');
  }

  lemma CutLists(n: Nodes, n': Nodes, rows: Rows, sibs: Sibs, owner: map<nat, nat>, t: Tree, x: nat, j: nat)
    requires SibsLinked(n, sibs) && Placed(rows, sibs, owner) && TopsAre(sibs, t) && x in sibs && j < |sibs[x]|
    requires CutWrites(n, n', x, sibs[x], j)
    requires forall i :: 0 <= i < |sibs[x]| && i != j - 1 && i != j && i != j + 1 ==> n'[sibs[x][i]] == n[sibs[x][i]]
    ensures SibsLinked(n', sibs[x := Cut(sibs[x], j)])
  {
    var s := sibs[x];
    ListNotInTree(rows, sibs, owner, t, x);
    ListCut(n, n', x, s, j);
    assert Head(Cut(s, j)) == if j == 0 then Head(s[1..]) else Head(s);
    forall i | i in rows && i in owner && owner[i] != x && i < |n|
      ensures n'[i] == n[i]
    {
      OwnedApart(rows, sibs, owner, x, i);
    }
    OtherListsKept(n, n', rows, sibs, owner, x);
  }

  lemma CutCleared(n: Nodes, n': Nodes, rows: Rows, sibs: Sibs, owner: map<nat, nat>, t: Tree, x: nat, j: nat)
    requires Cleared(n, rows) && Placed(rows, sibs, owner) && TopsAre(sibs, t) && x in sibs && j < |sibs[x]|
    requires CutWrites(n, n', x, sibs[x], j)
    ensures Cleared(n', rows - {sibs[x][j]})
  {
    ListNotInTree(rows, sibs, owner, t, x);
  }

  /** What cutting a sibling out of its list leaves. */
  lemma CutShaped(root: nat, n: Nodes, n': Nodes, rows: Rows, sibs: Sibs, owner: map<nat, nat>, t: Tree, x: nat, j: nat)
    requires Stored(root, n, Top, t) && Placed(rows, sibs, owner) && TopsAre(sibs, t) && x in sibs && j < |sibs[x]|
    requires SibsLinked(n, sibs) && Cleared(n, rows) && Ascending(rows, Order(t)) && 0 !in rows
    requires CutWrites(n, n', x, sibs[x], j)
    requires forall i :: 0 <= i < |sibs[x]| && i != j - 1 && i != j && i != j + 1 ==> n'[sibs[x][i]] == n[sibs[x][i]]
    ensures var Z, sibs' := sibs[x][j], sibs[x := Cut(sibs[x], j)];
      && Stored(root, n', Top, t) && SibsLinked(n', sibs') && Cleared(n', rows - {Z}) &&
        Placed(rows - {Z}, sibs', owner - {Z})
      && Ascending(rows - {Z}, Order(t)) && TopsAre(sibs', t) && |rows - {Z}| == |rows| - 1 && |sibs'| == |sibs|
  {
    CutStored(root, n, n', rows, sibs, owner, t, x, j);
    CutLists(n, n', rows, sibs, owner, t, x, j);
    CutCleared(n, n', rows, sibs, owner, t, x, j);
    CutPlaced(rows, sibs, owner, x, j);
    IdsOrder(t);
    assert TopAt(sibs, t, sibs[x][j]);
    AscendingFewer(rows, Order(t), sibs[x][j]);
    TopsSame(sibs, t, sibs[x := Cut(sibs[x], j)]);
    ListNotInTree(rows, sibs, owner, t, x);
    CutCounts(rows, sibs, x, j);
  }

  /** All the words the promotion writes: those of PromoteWrites, and the tree around Z. */
  ghost predicate PromoteTreeWrites(n: Nodes, n': Nodes, p: Path, t: Tree, S: nat)
    requires t.Node? && S < |n| && t.x < |n| && Root(t.l) < |n| && Root(t.r) < |n| && Parent(p) < |n| && |n'| == |n|
  {
    && n'[S].left == Root(t.l) && n'[S].right == Root(t.r) && n'[S].parent == Parent(p) && Tagged(n'[S].cs) == t.red
    && (t.l.Node? ==> n'[t.l.x] == n[t.l.x].(parent := S))
    && (t.r.Node? ==> n'[t.r.x] == n[t.r.x].(parent := S))
    && ChildSet(n, n', p, S) && n'[0] == n[0]
  }

  /** The words around Z and its first two siblings before the promotion. */
  lemma PromoteWords(root: nat, n: Nodes, p: Path, t: Tree, s: seq<nat>)
    requires Stored(root, n, p, t) && t.Node? && s != [] && ListLinked(n, t.x, s) && NoDup(s)
    requires forall r :: r in s ==> r !in Ids(Plug(p, t)) && 0 < r < RID_LIMIT
    ensures 0 < t.x < |n| && n[t.x].left == Root(t.l) && n[t.x].right == Root(t.r) && n[t.x].parent == Parent(p)
    ensures Tagged(n[t.x].cs) == t.red && Root(t.l) < |n| && Root(t.r) < |n| && Parent(p) < |n|
    ensures var S, Y := s[0], Head(s[1..]);
      && 0 < S < |n| && n[S].right == Y && Y < |n| && Y < RID_LIMIT
      && S !in {t.x, Root(t.l), Root(t.r), Parent(p)} && S !in Ids(Plug(p, t)) && Y !in Ids(Plug(p, t))
      && (Y != 0 ==> Y !in {t.x, S, Root(t.l), Root(t.r), Parent(p)} && n[Y].parent == MSB && |s| > 1 && Y == s[1])
      && (|s| > 1 ==> Y != 0)
    ensures t.x != Parent(p) && t.x in Ids(Plug(p, t))
    ensures t.l.Node? ==> t.l.x != 0 && t.l.x !in {t.x, Root(t.r), Parent(p)} && t.l.x in Ids(Plug(p, t))
    ensures t.r.Node? ==> t.r.x != 0 && t.r.x !in {t.x, Parent(p)} && t.r.x in Ids(Plug(p, t))
    ensures !p.Top? ==> p.x != 0 && p.x in Ids(Plug(p, t)) && (n[p.x].left == t.x <==> p.InL?)
  {
    RemoveWords(root, n, p, t);
    PlugIds(p, t);
    assert SibAt(n, t.x, s, 0) && (|s| > 1 ==> SibAt(n, t.x, s, 1));
    assert s[0] in s && (|s| > 1 ==> s[1] in s);
    StoredPlug(root, n, p, t);
    LinkedRange(n, Plug(p, t), 0);
    assert t.l.Node? ==> t.l.x in Ids(t.l);
    assert t.r.Node? ==> t.r.x in Ids(t.r);
  }

  /** The words written when S takes the place of Z in the tree and Y becomes the first sibling. */
  ghost predicate Rewritten(n: Nodes, n': Nodes, Z: nat, S: nat, Y: nat)
    requires Z < |n| && S < |n| && Y < |n| && Y < RID_LIMIT && |n'| == |n|
  {
    var z := n[Z];
    && z.left < |n| && z.right < |n| && z.parent < |n|
    && n'[S] == RbNode(z.left, z.right, z.parent, WithRid(z.cs, Y))
    && (Y != 0 ==> n'[Y] == n[Y].(left := 0, parent := MSB + S))
    && (z.left != 0 ==> n'[z.left] == n[z.left].(parent := S))
    && (z.right != 0 ==> n'[z.right] == n[z.right].(parent := S))
    && (z.parent != 0 ==>
          n'[z.parent] == if n[z.parent].left == Z then n[z.parent].(left := S) else n[z.parent].(right := S))
    && n'[Z] == ZERO_NODE && n'[0] == n[0]
    && (forall i :: 0 < i < |n| && i !in {S, Y, Z, z.left, z.right, z.parent} ==> n'[i] == n[i])
  }

  lemma RewrittenPromotes(root: nat, n: Nodes, n': Nodes, p: Path, t: Tree, s: seq<nat>)
    requires Stored(root, n, p, t) && t.Node? && s != [] && ListLinked(n, t.x, s) && NoDup(s) && InRange(s, |n|)
    requires forall r :: r in s ==> r !in Ids(Plug(p, t)) && 0 < r < RID_LIMIT
    requires t.x < |n| && s[0] < |n| && Head(s[1..]) < |n| && Head(s[1..]) < RID_LIMIT && |n'| == |n|
    requires Rewritten(n, n', t.x, s[0], Head(s[1..]))
    ensures t.x < |n| && Root(t.l) < |n| && Root(t.r) < |n| && Parent(p) < |n|
    ensures PromoteWrites(n, n', t.x, s) && PromoteTreeWrites(n, n', p, t, s[0])
    ensures forall i :: 0 < i < |n| && i !in {s[0], Head(s[1..]), t.x, Root(t.l), Root(t.r), Parent(p)} ==>
      n'[i] == n[i]
    ensures forall i :: 0 <= i < |n| ==> i in s || i == t.x || Rid(n'[i].cs) == Rid(n[i].cs)
  {
    PromoteWords(root, n, p, t, s);
  }

  lemma PromotedStored(root: nat, n: Nodes, p: Path, t: Tree, S: nat, Y: nat, root': nat, n': Nodes)
    requires Stored(root, n, p, t) && t.Node? && 0 < S < |n| && S !in Ids(Plug(p, t)) && Y !in Ids(Plug(p, t))
    requires t.x < |n| && Root(t.l) < |n| && Root(t.r) < |n| && Parent(p) < |n| && |n'| == |n|
    requires PromoteTreeWrites(n, n', p, t, S)
    requires forall i :: 0 < i < |n| && i !in {S, Y, t.x, Root(t.l), Root(t.r), Parent(p)} ==> n'[i] == n[i]
    requires root' == if p.Top? then S else root
    ensures Stored(root', n', p, Node(t.red, t.l, S, t.r))
  {
    PlugIds(p, t);
    assert Linked(n, t.l, t.x) && Linked(n, t.r, t.x);
    LinkedRange(n, t, Parent(p));
    PathLinkedRange(n, p, t.x);
    assert t.l.Node? ==> t.l.x in Ids(t.l);
    assert t.r.Node? ==> t.r.x in Ids(t.r);
    assert !p.Top? ==> p.x in PathIds(p);
    Reparent(n, n', t.l, t.x, S);
    Reparent(n, n', t.r, t.x, S);
    StoredRenamed(root, n, p, t.red, t.l, t.x, t.r, S, root', n');
  }

  /** The red-black conditions do not look at row ids. */
  lemma RenamedColours(p: Path, t: Tree, S: nat)
    requires RedBlack(Plug(p, t)) && t.Node?
    ensures RedBlack(Plug(p, Node(t.red, t.l, S, t.r)))
  {
    PlugRedBlack(p, t);
    PlugRedBlack(p, Node(t.red, t.l, S, t.r));
  }

  lemma FocusOrder(p: Path, t: Tree)
    requires t.Node?
    ensures Order(Plug(p, t)) == (Before(p) + Order(t.l)) + [t.x] + (Order(t.r) + After(p))
  {
    PlugOrder(p, t);
    MoveParens(Before(p), Order(t.l), [t.x], Order(t.r), After(p));
  }

  lemma MoveParens(a: seq<nat>, b: seq<nat>, c: seq<nat>, d: seq<nat>, e: seq<nat>)
    ensures a + (b + c + d) + e == (a + b) + c + (d + e)
  {
  }

  lemma RenamedIds(p: Path, t: Tree, S: nat)
    requires t.Node? && Distinct(Plug(p, t))
    ensures Ids(Plug(p, Node(t.red, t.l, S, t.r))) == Ids(Plug(p, t)) - {t.x} + {S}
  {
    PlugIds(p, t);
    PlugIds(p, Node(t.red, t.l, S, t.r));
  }

  lemma TopsRenamed(sibs: Sibs, t: Tree, t': Tree, Z: nat)
    requires TopsAre(sibs, t) && Z in sibs && sibs[Z] != [] && Ids(t') == Ids(t) - {Z} + {sibs[Z][0]}
    ensures TopsAre(Promoted(sibs, Z), t')
  {
    TopsKeys(sibs, t);
    TopsKeys(Promoted(sibs, Z), t');
  }

  lemma PromotedLists(n: Nodes, n': Nodes, rows: Rows, sibs: Sibs, owner: map<nat, nat>, t: Tree, Z: nat)
    requires SibsLinked(n, sibs) && Placed(rows, sibs, owner) && TopsAre(sibs, t) && Z in sibs && sibs[Z] != []
    requires PromoteWrites(n, n', Z, sibs[Z])
    requires forall i :: 0 <= i < |n| ==> i in sibs[Z] || i == Z || Rid(n'[i].cs) == Rid(n[i].cs)
    requires forall i :: 0 < i < |n| && i !in Ids(t) && i != sibs[Z][0] && (|sibs[Z]| > 1 ==> i != sibs[Z][1]) ==>
      n'[i] == n[i]
    ensures SibsLinked(n', Promoted(sibs, Z))
  {
    var s := sibs[Z];
    ListNotInTree(rows, sibs, owner, t, Z);
    assert ListLinked(n, Z, s);
    forall i | 2 <= i < |s|
      ensures n'[s[i]] == n[s[i]]
    {
      assert SibAt(n, Z, s, i) && s[i] in s && s[i] != s[0] && s[i] != s[1];
    }
    ListPromoted(n, n', Z, s);
    forall y | y in sibs && y != Z
      ensures y < |n| && Rid(n'[y].cs) == Head(sibs[y]) && ListLinked(n', y, sibs[y])
    {
      OtherList(n, n', rows, sibs, owner, t, Z, y);
    }
  }

  lemma OtherList(n: Nodes, n': Nodes, rows: Rows, sibs: Sibs, owner: map<nat, nat>, t: Tree, Z: nat, y: nat)
    requires SibsLinked(n, sibs) && Placed(rows, sibs, owner) && TopsAre(sibs, t) && Z in sibs && y in sibs && y != Z
    requires sibs[Z] != [] && |n'| == |n|
    requires forall i :: 0 <= i < |n| ==> i in sibs[Z] || i == Z || Rid(n'[i].cs) == Rid(n[i].cs)
    requires forall i :: 0 < i < |n| && i !in Ids(t) && i != sibs[Z][0] && (|sibs[Z]| > 1 ==> i != sibs[Z][1]) ==>
      n'[i] == n[i]
    ensures y < |n| && Rid(n'[y].cs) == Head(sibs[y]) && ListLinked(n', y, sibs[y])
  {
    ListNotInTree(rows, sibs, owner, t, Z);
    ListNotInTree(rows, sibs, owner, t, y);
    OwnedApart(rows, sibs, owner, Z, y);
    forall i | 0 <= i < |sibs[y]|
      ensures SibAt(n', y, sibs[y], i)
    {
      assert SibAt(n, y, sibs[y], i);
      assert sibs[y][i] in sibs[y];
      OwnedApart(rows, sibs, owner, Z, sibs[y][i]);
    }
  }

  lemma PromotedCleared(n: Nodes, n': Nodes, rows: Rows, sibs: Sibs, owner: map<nat, nat>, t: Tree, Z: nat)
    requires Cleared(n, rows) && Placed(rows, sibs, owner) && TopsAre(sibs, t) && Z in sibs && sibs[Z] != []
    requires |n'| == |n| && Z < |n| && n'[Z] == ZERO_NODE
    requires forall i :: 0 < i < |n| && i !in Ids(t) && i != sibs[Z][0] && (|sibs[Z]| > 1 ==> i != sibs[Z][1]) ==>
      n'[i] == n[i]
    ensures Cleared(n', rows - {Z})
  {
    ListNotInTree(rows, sibs, owner, t, Z);
    TopsKeys(sibs, t);
    forall i | i in Ids(t)
      ensures i in rows
    {
      assert ListPlaced(rows, owner, i, sibs[i]);
    }
    assert sibs[Z][0] in sibs[Z] && (|sibs[Z]| > 1 ==> sibs[Z][1] in sibs[Z]);
  }

  /** `u` is `s` with one `z` replaced by `y`. */
  ghost predicate SwappedIn(s: seq<nat>, u: seq<nat>, z: nat, y: nat) {
    exists i :: 0 <= i < |s| && s[i] == z && u == s[i := y]
  }

  lemma SwapMiddle(a: seq<nat>, z: nat, y: nat, c: seq<nat>)
    ensures SwappedIn(a + [z] + c, a + [y] + c, z, y)
  {
    var s := a + [z] + c;
    assert s[|a|] == z && s[|a| := y] == a + [y] + c;
  }

  lemma SwapKeeps(rows: Rows, sibs: Sibs, owner: map<nat, nat>, t: Tree, Z: nat, a: seq<nat>, c: seq<nat>)
    requires Placed(rows, sibs, owner) && TopsAre(sibs, t) && Z in sibs && sibs[Z] != []
    requires Order(t) == a + [Z] + c && Ascending(rows, Order(t))
    ensures Ascending(rows - {Z}, a + [sibs[Z][0]] + c)
  {
    ListNotInTree(rows, sibs, owner, t, Z);
    IdsOrder(t);
    assert RowPlaced(rows, sibs, owner, sibs[Z][0]);
    AscendingSwap(rows, a, Z, sibs[Z][0], c);
  }

  // ----- a tree node without siblings is gone

  lemma DroppedMembers(rows: Rows, a: seq<nat>, Z: nat, c: seq<nat>, r: nat)
    requires Ascending(rows, a + [Z] + c)
    ensures r in a + c <==> r in a + [Z] + c && r != Z
  {
    var s := a + [Z] + c;
    assert s[|a|] == Z;
    if r in a + c {
      var i :| 0 <= i < |a + c| && (a + c)[i] == r;
      var i' := if i < |a| then i else i + 1;
      assert s[i'] == r;
      AscendingApart(rows, s, i', |a|);
    }
  }

  lemma GoneTops(rows: Rows, sibs: Sibs, t: Tree, t': Tree, Z: nat, a: seq<nat>, c: seq<nat>)
    requires TopsAre(sibs, t) && Z in sibs && Ascending(rows, a + [Z] + c)
    requires Order(t) == a + [Z] + c && Order(t') == a + c
    ensures TopsAre(sibs - {Z}, t') && Z !in Ids(t') && Ids(t') == Ids(t) - {Z}
  {
    IdsOrder(t);
    IdsOrder(t');
    forall r
      ensures r in Ids(t') <==> r in Ids(t) && r != Z
    {
      DroppedMembers(rows, a, Z, c, r);
    }
    TopsKeys(sibs, t);
    TopsKeys(sibs - {Z}, t');
  }

  lemma GoneLists(n: Nodes, n1: Nodes, rows: Rows, sibs: Sibs, owner: map<nat, nat>, t: Tree, Z: nat)
    requires SibsLinked(n, sibs) && Placed(rows, sibs, owner) && TopsAre(sibs, t) && Z in sibs && sibs[Z] == []
    requires TreeOnly(n, n1, Ids(t)) && 0 < Z < |n|
    ensures SibsLinked(n1[Z := ZERO_NODE], sibs - {Z})
  {
    TopsKeys(sibs, t);
    forall r | r in Ids(t)
      ensures r in owner && owner[r] == r
    {
      assert ListPlaced(rows, owner, r, sibs[r]);
    }
    SibsKept(n, n1, sibs, rows, owner, Ids(t));
    var n2 := n1[Z := ZERO_NODE];
    forall y | y in sibs && y != Z
      ensures y < |n| && Rid(n2[y].cs) == Head(sibs[y]) && ListLinked(n2, y, sibs[y])
    {
      ListNotInTree(rows, sibs, owner, t, y);
      forall i | 0 <= i < |sibs[y]|
        ensures SibAt(n2, y, sibs[y], i)
      {
        assert SibAt(n1, y, sibs[y], i) && sibs[y][i] in sibs[y];
      }
    }
  }

  lemma GoneCleared(n: Nodes, n1: Nodes, rows: Rows, sibs: Sibs, owner: map<nat, nat>, t: Tree, Z: nat)
    requires Cleared(n, rows) && Placed(rows, sibs, owner) && TopsAre(sibs, t) && 0 < Z < |n|
    requires TreeOnly(n, n1, Ids(t))
    ensures Cleared(n1[Z := ZERO_NODE], rows - {Z})
  {
    TopsKeys(sibs, t);
    forall i | i in Ids(t)
      ensures i in rows
    {
      assert ListPlaced(rows, owner, i, sibs[i]);
    }
  }

  lemma GoneStored(root: nat, n: Nodes, t: Tree, Z: nat)
    requires Stored(root, n, Top, t) && Z !in Ids(t) && 0 < Z < |n|
    ensures Stored(root, n[Z := ZERO_NODE], Top, t)
  {
    StoredLoose(root, n, t, n[Z := ZERO_NODE]);
  }
}
