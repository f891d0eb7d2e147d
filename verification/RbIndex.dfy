/**
What the red-black index stores besides its tree: a key for every row id, and for every
tree node the list of the other row ids with the same key.
*/
module RbIndex {
  import opened RowWord
  import opened Keys
  import opened RbShape
  import opened RbLink
  import opened RowGroups

  /** The words of the i-th row id in the sibling list of `x`: previous, next, owner, colour. */
  function SibNode(x: nat, s: seq<nat>, i: nat): RbNode
    requires i < |s|
  {
    RbNode(if i == 0 then 0 else s[i - 1], if i + 1 == |s| then 0 else s[i + 1],
           MSB + (if i == 0 then x else 0), 0)
  }

  ghost predicate SibAt(n: Nodes, x: nat, s: seq<nat>, i: nat)
    requires i < |s|
  {
    0 < s[i] < |n| && n[s[i]] == SibNode(x, s, i)
  }

  ghost predicate ListLinked(n: Nodes, x: nat, s: seq<nat>) {
    forall i :: 0 <= i < |s| ==> SibAt(n, x, s, i)
  }

  lemma ListRange(n: Nodes, x: nat, s: seq<nat>)
    requires ListLinked(n, x, s)
    ensures InRange(s, |n|)
  {
    forall i | 0 <= i < |s|
      ensures s[i] < |n|
    {
      assert SibAt(n, x, s, i);
    }
  }

  ghost predicate SibsLinked(n: Nodes, sibs: Sibs) {
    forall x :: x in sibs ==> x < |n| && Rid(n[x].cs) == Head(sibs[x]) && ListLinked(n, x, sibs[x])
  }

  ghost predicate TopAt(sibs: Sibs, t: Tree, x: nat) { x in sibs <==> x in Ids(t) }

  /** The tree nodes are the row ids that have a sibling list. */
  ghost predicate TopsAre(sibs: Sibs, t: Tree) {
    forall x {:trigger TopAt(sibs, t, x)} :: TopAt(sibs, t, x)
  }

  lemma TopsKeys(sibs: Sibs, t: Tree)
    ensures TopsAre(sibs, t) <==> sibs.Keys == Ids(t)
  {
    if TopsAre(sibs, t) {
      forall x
        ensures x in sibs <==> x in Ids(t)
      {
        assert TopAt(sibs, t, x);
      }
    }
  }

  lemma TopsSame(sibs: Sibs, t: Tree, sibs': Sibs)
    requires TopsAre(sibs, t) && sibs'.Keys == sibs.Keys
    ensures TopsAre(sibs', t)
  {
    TopsKeys(sibs, t);
    TopsKeys(sibs', t);
  }

  lemma TopsMore(sibs: Sibs, t: Tree, t': Tree, Z: nat)
    requires TopsAre(sibs, t) && Ids(t') == Ids(t) + {Z}
    ensures TopsAre(sibs[Z := []], t')
  {
    TopsKeys(sibs, t);
    TopsKeys(sibs[Z := []], t');
  }

  ghost predicate Keyed(rows: Rows, fields: nat, len: nat) {
    forall r :: r in rows ==> 0 < r < len && r < RID_LIMIT && |rows[r]| == fields
  }

  /** A row id that is not indexed has four zero words. */
  ghost predicate Cleared(n: Nodes, rows: Rows) {
    forall i :: 0 < i < |n| && i !in rows ==> n[i] == ZERO_NODE
  }

  ghost predicate LessAt(rows: Rows, s: seq<nat>, i: nat, j: nat)
    requires i < |s| && j < |s|
  {
    s[i] in rows && s[j] in rows && Less(rows[s[i]], rows[s[j]])
  }

  ghost predicate Ascending(rows: Rows, s: seq<nat>) {
    && (forall i :: 0 <= i < |s| ==> s[i] in rows)
    && (forall i, j :: 0 <= i < j < |s| ==> LessAt(rows, s, i, j))
  }

  /** The tree writes leave all sibling lists alone. */
  lemma SibsKept(n: Nodes, n': Nodes, sibs: Sibs, rows: Rows, owner: map<nat, nat>, s: set<nat>)
    requires SibsLinked(n, sibs) && Placed(rows, sibs, owner) && TreeOnly(n, n', s)
    requires forall r :: r in s && r in rows ==> r in owner && owner[r] == r
    ensures SibsLinked(n', sibs)
  {
    forall y | y in sibs
      ensures ListLinked(n', y, sibs[y])
    {
      assert ListPlaced(rows, owner, y, sibs[y]);
      forall i | 0 <= i < |sibs[y]|
        ensures SibAt(n', y, sibs[y], i)
      {
        assert SibAt(n, y, sibs[y], i);
      }
    }
  }

  // ----- searching

  ghost predicate AllBelow(rows: Rows, s: seq<nat>, k: Key) {
    forall i :: 0 <= i < |s| ==> s[i] in rows && Less(rows[s[i]], k)
  }

  ghost predicate AllAbove(rows: Rows, s: seq<nat>, k: Key) {
    forall i :: 0 <= i < |s| ==> s[i] in rows && Less(k, rows[s[i]])
  }

  lemma AscendingParts(rows: Rows, a: seq<nat>, b: seq<nat>, c: seq<nat>)
    requires Ascending(rows, a + b + c)
    ensures Ascending(rows, b)
  {
    var s := a + b + c;
    assert forall i :: 0 <= i < |b| ==> b[i] == s[|a| + i];
    forall i, j | 0 <= i < j < |b|
      ensures LessAt(rows, b, i, j)
    {
      assert LessAt(rows, s, |a| + i, |a| + j);
    }
  }

  /** Going left keeps everything after the path above the key. */
  lemma GoLeft(rows: Rows, p: Path, t: Tree, k: Key)
    requires t.Node? && Ascending(rows, Order(Plug(p, t))) && AllAbove(rows, After(p), k)
    requires t.x in rows && Less(k, rows[t.x])
    ensures AllAbove(rows, After(InL(t.red, t.x, t.r, p)), k)
  {
    PlugOrder(p, t);
    AscendingParts(rows, Before(p), Order(t), After(p));
    var s := Order(t);
    var m := |Order(t.l)|;
    forall i | 0 <= i < |Order(t.r)|
      ensures Order(t.r)[i] in rows && Less(k, rows[Order(t.r)[i]])
    {
      assert s[m] == t.x && s[m + 1 + i] == Order(t.r)[i] && LessAt(rows, s, m, m + 1 + i);
      LessTransitive(k, rows[t.x], rows[Order(t.r)[i]]);
    }
  }

  lemma GoRight(rows: Rows, p: Path, t: Tree, k: Key)
    requires t.Node? && Ascending(rows, Order(Plug(p, t))) && AllBelow(rows, Before(p), k)
    requires t.x in rows && Less(rows[t.x], k)
    ensures AllBelow(rows, Before(InR(t.red, t.l, t.x, p)), k)
  {
    PlugOrder(p, t);
    AscendingParts(rows, Before(p), Order(t), After(p));
    var s := Order(t);
    var m := |Order(t.l)|;
    forall i | 0 <= i < m
      ensures Order(t.l)[i] in rows && Less(rows[Order(t.l)[i]], k)
    {
      assert s[m] == t.x && s[i] == Order(t.l)[i] && LessAt(rows, s, i, m);
      LessTransitive(rows[Order(t.l)[i]], rows[t.x], k);
    }
  }

  /** One step of the search to the left. */
  lemma SearchLeft(root: nat, n: Nodes, rows: Rows, p: Path, t: Tree, k: Key)
    requires Stored(root, n, p, t) && t.Node? && Ascending(rows, Order(Plug(p, t)))
    requires AllBelow(rows, Before(p), k) && AllAbove(rows, After(p), k)
    requires t.x in rows && Less(k, rows[t.x])
    ensures var q := InL(t.red, t.x, t.r, p);
      && Stored(root, n, q, t.l) && Plug(q, t.l) == Plug(p, t)
      && AllBelow(rows, Before(q), k) && AllAbove(rows, After(q), k)
    ensures t.x < |n| && n[t.x].left == Root(t.l)
  {
    GoLeft(rows, p, t, k);
    StoredUp(root, n, InL(t.red, t.x, t.r, p), t.l);
  }

  lemma SearchRight(root: nat, n: Nodes, rows: Rows, p: Path, t: Tree, k: Key)
    requires Stored(root, n, p, t) && t.Node? && Ascending(rows, Order(Plug(p, t)))
    requires AllBelow(rows, Before(p), k) && AllAbove(rows, After(p), k)
    requires t.x in rows && Less(rows[t.x], k)
    ensures var q := InR(t.red, t.l, t.x, p);
      && Stored(root, n, q, t.r) && Plug(q, t.r) == Plug(p, t)
      && AllBelow(rows, Before(q), k) && AllAbove(rows, After(q), k)
    ensures t.x < |n| && n[t.x].right == Root(t.r)
  {
    GoRight(rows, p, t, k);
    StoredUp(root, n, InR(t.red, t.l, t.x, p), t.r);
  }

  /** A new row id between the smaller and the greater ones keeps the order. */
  lemma InsertAscending(rows: Rows, a: seq<nat>, c: seq<nat>, Z: nat, k: Key)
    requires Ascending(rows, a + c) && AllBelow(rows, a, k) && AllAbove(rows, c, k) && Z !in rows
    ensures Ascending(rows[Z := k], a + [Z] + c)
  {
    var s, u, rows' := a + c, a + [Z] + c, rows[Z := k];
    assert forall i :: 0 <= i < |a| ==> u[i] == s[i] == a[i];
    assert forall i :: |a| < i < |u| ==> u[i] == s[i - 1] == c[i - 1 - |a|];
    forall i, j | 0 <= i < j < |u|
      ensures LessAt(rows', u, i, j)
    {
      if i != |a| && j != |a| {
        assert LessAt(rows, s, if i < |a| then i else i - 1, if j < |a| then j else j - 1);
      }
    }
  }

  lemma AscendingMore(rows: Rows, s: seq<nat>, Z: nat, k: Key)
    requires Ascending(rows, s) && Z !in rows
    ensures Ascending(rows[Z := k], s)
  {
    var rows' := rows[Z := k];
    forall i, j | 0 <= i < j < |s|
      ensures LessAt(rows', s, i, j)
    {
      assert LessAt(rows, s, i, j);
    }
  }

  // ----- sibling lists

  /** Writes at row ids owned by `x`, or not indexed, leave every other list alone. */
  lemma OtherListsKept(n: Nodes, n': Nodes, rows: Rows, sibs: Sibs, owner: map<nat, nat>, x: nat)
    requires SibsLinked(n, sibs) && Placed(rows, sibs, owner) && |n'| == |n|
    requires forall i :: i in rows && i in owner && owner[i] != x && i < |n| ==> n'[i] == n[i]
    ensures forall y :: y in sibs && y != x ==> y < |n| && Rid(n'[y].cs) == Head(sibs[y]) && ListLinked(n', y, sibs[y])
  {
    forall y | y in sibs && y != x
      ensures y < |n| && Rid(n'[y].cs) == Head(sibs[y]) && ListLinked(n', y, sibs[y])
    {
      assert ListPlaced(rows, owner, y, sibs[y]);
      forall i | 0 <= i < |sibs[y]|
        ensures SibAt(n', y, sibs[y], i)
      {
        assert SibAt(n, y, sibs[y], i) && owner[sibs[y][i]] == y;
      }
    }
  }

  /** A new first sibling. */
  lemma SiblingAdded(n: Nodes, n': Nodes, rows: Rows, sibs: Sibs, owner: map<nat, nat>, x: nat, Z: nat)
    requires SibsLinked(n, sibs) && Placed(rows, sibs, owner) && x in sibs && Z !in rows
    requires 0 < Z < |n| && |n'| == |n| && 0 < x < |n| && 0 !in rows
    requires Head(sibs[x]) < |n| && n'[Z] == RbNode(0, Head(sibs[x]), MSB + x, 0) && Rid(n'[x].cs) == Z
    requires sibs[x] != [] ==> n'[sibs[x][0]] == n[sibs[x][0]].(left := Z, parent := MSB)
    requires forall i :: 0 < i < |n| && i != x && i != Z && i != Head(sibs[x]) ==> n'[i] == n[i]
    ensures SibsLinked(n', sibs[x := [Z] + sibs[x]])
  {
    var s, s' := sibs[x], [Z] + sibs[x];
    assert ListPlaced(rows, owner, x, s);
    assert ListLinked(n, x, s) && x !in s && Z !in s;
    ListPushed(n, n', x, s, Z);
    assert s == [] ==> Head(s) == 0;
    OtherListsKept(n, n', rows, sibs, owner, x);
  }

  lemma ListPushed(n: Nodes, n': Nodes, x: nat, s: seq<nat>, Z: nat)
    requires ListLinked(n, x, s) && NoDup(s) && x !in s && Z !in s && 0 < Z < |n| && |n'| == |n|
    requires n'[Z] == RbNode(0, Head(s), MSB + x, 0)
    requires s != [] ==> 0 < s[0] < |n| && n'[s[0]] == n[s[0]].(left := Z, parent := MSB)
    requires forall i :: 0 < i < |n| && i != x && i != Z && i != Head(s) ==> n'[i] == n[i]
    ensures ListLinked(n', x, [Z] + s)
  {
    var s' := [Z] + s;
    forall i | 0 <= i < |s'|
      ensures SibAt(n', x, s', i)
    {
      if i > 0 {
        assert s'[i] == s[i - 1] && SibAt(n, x, s, i - 1);
        assert i > 1 ==> s[i - 1] != s[0];
      }
    }
  }

  /** Words around the sibling list of `x`. */
  lemma SiblingWords(n: Nodes, rows: Rows, sibs: Sibs, owner: map<nat, nat>, x: nat)
    requires SibsLinked(n, sibs) && Placed(rows, sibs, owner) && x in sibs
    ensures x < |n| && Rid(n[x].cs) == Head(sibs[x]) && NoDup(sibs[x])
    ensures sibs[x] != [] ==> 0 < sibs[x][0] < |n| && sibs[x][0] in rows && sibs[x][0] != x
    ensures sibs[x] != [] ==> sibs[x][0] in owner && owner[sibs[x][0]] == x
    ensures x in rows && x in owner && owner[x] == x
    ensures sibs[x] == [] <==> Head(sibs[x]) == 0
  {
    assert ListPlaced(rows, owner, x, sibs[x]);
    if sibs[x] != [] {
      assert SibAt(n, x, sibs[x], 0);
    }
  }

  /** Row ids in sibling lists, and row ids not indexed, are not in the tree. */
  lemma TreeUntouched(rows: Rows, sibs: Sibs, owner: map<nat, nat>, t: Tree, Z: nat)
    requires Placed(rows, sibs, owner) && TopsAre(sibs, t)
    ensures Z !in rows ==> Z !in Ids(t)
    ensures Z in owner && owner[Z] != Z ==> Z !in Ids(t)
  {
    assert TopAt(sibs, t, Z);
    if Z in sibs {
      assert ListPlaced(rows, owner, Z, sibs[Z]);
    }
  }

  /** Only the low bits of colour words changed in the tree. */
  ghost predicate SameShape(n: Nodes, n': Nodes, s: set<nat>) {
    |n'| == |n| && forall i :: i in s && i < |n| ==>
      n'[i].left == n[i].left && n'[i].right == n[i].right && n'[i].parent == n[i].parent
      && Tagged(n'[i].cs) == Tagged(n[i].cs)
  }

  lemma {:induction false} LinkedLoose(n: Nodes, n': Nodes, t: Tree, parent: nat)
    requires Linked(n, t, parent) && SameShape(n, n', Ids(t))
    ensures Linked(n', t, parent)
  {
    if t.Node? {
      assert t.x in Ids(t);
      LinkedLoose(n, n', t.l, t.x);
      LinkedLoose(n, n', t.r, t.x);
    }
  }

  lemma StoredLoose(root: nat, n: Nodes, t: Tree, n': Nodes)
    requires Stored(root, n, Top, t) && SameShape(n, n', Ids(t)) && n'[0] == n[0]
    ensures Stored(root, n', Top, t)
  {
    LinkedLoose(n, n', t, 0);
  }

  lemma StoredGrown(root: nat, n: Nodes, t: Tree, n': Nodes)
    requires Stored(root, n, Top, t) && n <= n'
    ensures Stored(root, n', Top, t)
  {
    LinkedFrame(n, n', t, 0);
  }

  lemma SibsGrown(n: Nodes, sibs: Sibs, n': Nodes)
    requires SibsLinked(n, sibs) && n <= n'
    ensures SibsLinked(n', sibs)
  {
    forall y | y in sibs
      ensures ListLinked(n', y, sibs[y])
    {
      forall i | 0 <= i < |sibs[y]|
        ensures SibAt(n', y, sibs[y], i)
      {
        assert SibAt(n, y, sibs[y], i);
      }
    }
  }

  // ----- a new tree node

  lemma LeafPlace(n: Nodes, p: Path, rows: Rows, sibs: Sibs, owner: map<nat, nat>, Z: nat)
    requires |n| > 0 && PathLinked(n, p, 0) && Placed(rows, sibs, owner) && TopsAre(sibs, Plug(p, Nil))
    requires Z !in rows && Cleared(n, rows) && 0 < Z < |n|
    ensures Z !in PathIds(p) && Parent(p) < |n| && Parent(p) != Z && n[Z] == ZERO_NODE
    ensures !p.Top? ==> p.x in PathIds(p) && p.x != 0
    ensures PathIds(p) == Ids(Plug(p, Nil))
  {
    PlugIds(p, Nil);
    PathLinkedRange(n, p, 0);
    TreeUntouched(rows, sibs, owner, Plug(p, Nil), Z);
  }

  /** `u` is `s` with `z` put in somewhere. */
  ghost predicate InsertedInto(s: seq<nat>, u: seq<nat>, z: nat) {
    exists i :: 0 <= i <= |s| && u == s[..i] + [z] + s[i..]
  }

  lemma LeafOrder(rows: Rows, p: Path, Z: nat, k: Key)
    requires Z !in rows && Ascending(rows, Order(Plug(p, Nil)))
    requires AllBelow(rows, Before(p), k) && AllAbove(rows, After(p), k)
    ensures Order(Plug(p, Nil)) == Before(p) + After(p)
    ensures Order(Plug(p, Node(true, Nil, Z, Nil))) == Before(p) + [Z] + After(p)
    ensures Ascending(rows[Z := k], Before(p) + [Z] + After(p))
  {
    PlugOrder(p, Nil);
    PlugOrder(p, Node(true, Nil, Z, Nil));
    assert Before(p) + [] + After(p) == Before(p) + After(p);
    InsertAscending(rows, Before(p), After(p), Z, k);
  }

  /** A new owner without siblings. */
  lemma LeafAdded(n: Nodes, n': Nodes, rows: Rows, sibs: Sibs, owner: map<nat, nat>, t: Tree, Z: nat, k: Key)
    requires SibsLinked(n, sibs) && Placed(rows, sibs, owner) && TopsAre(sibs, t) && Z !in rows
    requires Cleared(n, rows) && 0 < Z < |n| && TreeOnly(n, n', Ids(t) + {Z})
    ensures SibsLinked(n', sibs[Z := []])
    ensures Cleared(n', rows[Z := k])
  {
    var s := Ids(t);
    TopsKeys(sibs, t);
    assert forall x :: x in s ==> x in rows by {
      forall x | x in s
        ensures x in rows
      {
        assert ListPlaced(rows, owner, x, sibs[x]);
      }
    }
    forall x | x in s
      ensures x in owner && owner[x] == x
    {
      assert ListPlaced(rows, owner, x, sibs[x]);
    }
    SibsKept(n, n', sibs, rows, owner, s + {Z});
  }

  // ----- one tree node a key

  lemma AscendingApart(rows: Rows, s: seq<nat>, i: nat, j: nat)
    requires Ascending(rows, s) && i < |s| && j < |s|
    ensures i != j ==> rows[s[i]] != rows[s[j]]
  {
    if i != j {
      assert LessAt(rows, s, if i < j then i else j, if i < j then j else i);
      CmpEqual(rows[s[i]], rows[s[i]]);
    }
  }

  lemma KeyOfOneTop(rows: Rows, t: Tree, sibs: Sibs, x: nat)
    requires Ascending(rows, Order(t)) && TopsAre(sibs, t) && x in sibs
    ensures x in rows && forall y :: y in sibs && y in rows && rows[y] == rows[x] ==> y == x
  {
    IdsOrder(t);
    TopsKeys(sibs, t);
    forall y | y in sibs && y in rows && rows[y] == rows[x]
      ensures y == x
    {
      var i :| 0 <= i < |Order(t)| && Order(t)[i] == x;
      var j :| 0 <= j < |Order(t)| && Order(t)[j] == y;
      AscendingApart(rows, Order(t), i, j);
    }
  }

  lemma NoTopHasKey(rows: Rows, p: Path, sibs: Sibs, k: Key)
    requires AllBelow(rows, Before(p), k) && AllAbove(rows, After(p), k) && TopsAre(sibs, Plug(p, Nil))
    ensures forall x :: x in sibs ==> x in rows && rows[x] != k
    ensures Order(Plug(p, Nil)) == Before(p) + After(p)
  {
    PlugOrder(p, Nil);
    assert Before(p) + [] + After(p) == Before(p) + After(p);
    forall x | x in sibs
      ensures x in rows && rows[x] != k
    {
      assert TopAt(sibs, Plug(p, Nil), x);
      IdsOrder(Plug(p, Nil));
      CmpEqual(k, k);
      assert x in Before(p) || x in After(p);
    }
  }

  lemma PutMiddle(a: seq<nat>, z: nat, c: seq<nat>)
    ensures InsertedInto(a + c, a + [z] + c, z)
  {
    assert (a + c)[..|a|] == a && (a + c)[|a|..] == c;
  }
}
