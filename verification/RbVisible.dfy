/**
Which rows an equality query on the red-black index hands out. A tree node is tested for
visibility by its own row id. Its siblings are tested by their own control bits, but by the
row id of the tree node: that is right for every connection but the writer.
*/
module RbVisible {
  import opened RowWord
  import opened Keys
  import opened RowGroups
  import opened RbShape
  import opened RbIndex
  import opened RbTree
  import opened RbQuery
  import opened Store
  import opened TableRows

  /** The test made of row r: the row sets are asked for its tree node. */
  ghost predicate Shown(ix: RbTree, conn: Conn, ctrl: map<nat, Ctrl>, r: nat)
    reads ix
  {
    r in ix.owner && r in ctrl && RowValid(conn, ctrl[r], ix.owner[r])
  }

  /** In what a query visits, a tree node starts a group and any other row belongs to the group before it. */
  lemma {:induction false} GroupAt(rows: Rows, sibs: Sibs, owner: map<nat, nat>, s: seq<nat>, k: nat)
    requires Placed(rows, sibs, owner) && (forall i :: 0 <= i < |s| ==> s[i] in sibs) && k < |Groups(sibs, s)|
    ensures var v := Groups(sibs, s);
      && v[k] in owner && (v[k] in sibs ==> owner[v[k]] == v[k])
      && (v[k] !in sibs ==> k > 0 && v[k - 1] in owner && owner[v[k]] == owner[v[k - 1]])
    decreases |s|
  {
    var v, t := Groups(sibs, s), s[..|s| - 1];
    var x, p := s[|s| - 1], Groups(sibs, t);
    if k < |p| {
      GroupAt(rows, sibs, owner, t, k);
    } else {
      var g := [x] + sibs[x];
      assert v[k] == g[k - |p|] && v[k] in g;
      GroupOwns(rows, sibs, owner, x, v[k]);
      if k > |p| {
        assert v[k - 1] == g[k - 1 - |p|] && v[k - 1] in g;
        GroupOwns(rows, sibs, owner, x, v[k - 1]);
        SiblingNotTop(rows, sibs, owner, x, k - |p| - 1);
      }
    }
  }

  lemma NodesAreTops(ix: RbTree, lo: nat, hi: nat)
    requires ix.Valid() && lo <= hi <= |Order(ix.tree)|
    ensures forall i :: 0 <= i < hi - lo ==> Order(ix.tree)[lo..hi][i] in ix.sibs
  {
    forall i | 0 <= i < hi - lo
      ensures Order(ix.tree)[lo..hi][i] in ix.sibs
    {
      IndexRow(ix, lo + i);
    }
  }

  /** The words of a row id that is visited. */
  lemma VisitedWords(ix: RbTree, r: nat)
    requires ix.Valid() && r in ix.rows
    ensures r < |ix.node| && (Tagged(ix.node[r].parent) <==> r !in ix.sibs)
  {
    ix.IndexedWords(r);
  }

  lemma OneMoreKept(rows: Rows, v: seq<nat>, k: nat, rids: seq<nat>)
    requires KeysAscend(rows, v) && NoDup(v) && k < |v| && KeysAscend(rows, rids) && NoDup(rids)
    requires forall r :: r in rids ==> r in v[..k]
    ensures KeysAscend(rows, rids + [v[k]]) && NoDup(rids + [v[k]])
  {
    var s := rids + [v[k]];
    forall i, j | 0 <= i < j < |s|
      ensures KeysOrdered(rows, s, i, j) && s[i] != s[j]
    {
      if j < |rids| {
        assert KeysOrdered(rows, rids, i, j);
      } else {
        assert rids[i] in rids;
        var m :| 0 <= m < k && v[m] == rids[i];
        assert KeysOrdered(rows, v, m, k);
      }
    }
  }

  /** The test of one row, X being its tree node or, for a sibling, that of the row before it. */
  method Test(ix: RbTree, conn: Conn, ctrl: map<nat, Ctrl>, v: seq<nat>, ghost s: seq<nat>, k: nat, X0: nat)
    returns (X: nat, good: bool)
    requires ix.Valid() && ix.rows.Keys <= ctrl.Keys && v == Groups(ix.sibs, s) && k < |v| && v[k] in ix.rows
    requires forall i :: 0 <= i < |s| ==> s[i] in ix.sibs
    requires k > 0 ==> v[k - 1] in ix.owner && X0 == ix.owner[v[k - 1]]
    ensures v[k] in ix.owner && X == ix.owner[v[k]] && (good <==> Shown(ix, conn, ctrl, v[k]))
  {
    GroupAt(ix.rows, ix.sibs, ix.owner, s, k);
    VisitedWords(ix, v[k]);
    X := if Tagged(ix.node[v[k]].parent) then X0 else v[k];
    good := RowValid(conn, ctrl[v[k]], X);
  }

  method Tested(ix: RbTree, conn: Conn, ctrl: map<nat, Ctrl>, v: seq<nat>, ghost s: seq<nat>, passes: set<nat>)
    returns (rids: seq<nat>)
    requires ix.Valid() && ix.rows.Keys <= ctrl.Keys && v == Groups(ix.sibs, s) && NoDup(v) && KeysAscend(ix.rows, v)
    requires (forall i :: 0 <= i < |s| ==> s[i] in ix.sibs) && forall r :: r in v ==> r in ix.rows
    ensures forall r :: r in rids <==> r in v && Shown(ix, conn, ctrl, r) && r in passes
    ensures NoDup(rids) && KeysAscend(ix.rows, rids)
  {
    rids := [];
    var X, good := 0, false;
    for k := 0 to |v|
      invariant k > 0 ==> v[k - 1] in ix.owner && X == ix.owner[v[k - 1]]
      invariant NoDup(rids) && KeysAscend(ix.rows, rids)
      invariant forall r :: r in rids <==> r in v[..k] && Shown(ix, conn, ctrl, r) && r in passes
    {
      assert v[k] in v && v[..k + 1] == v[..k] + [v[k]];
      X, good := Test(ix, conn, ctrl, v, s, k, X);
      if good && v[k] in passes {
        OneMoreKept(ix.rows, v, k, rids);
        rids := rids + [v[k]];
      }
    }
    assert v[..|v|] == v;
  }

  /** The rows that a query hands out, their keys ascending; `passes` are those the leftover filters let pass. */
  method QueryRows(ix: RbTree, vals: Key, conn: Conn, ctrl: map<nat, Ctrl>, passes: set<nat>) returns (rids: seq<nat>)
    requires ix.Valid() && |vals| <= ix.fields && ix.rows.Keys <= ctrl.Keys
    ensures forall r :: r in rids <==> r in ix.rows && vals <= ix.rows[r] && Shown(ix, conn, ctrl, r) && r in passes
    ensures NoDup(rids) && KeysAscend(ix.rows, rids)
  {
    var visited;
    ghost var lo, hi;
    visited, lo, hi := QueryEq(ix, vals);
    NodesAreTops(ix, lo, hi);
    rids := Tested(ix, conn, ctrl, visited, Order(ix.tree)[lo..hi], passes);
  }

  // ----- when that is right

  /** Row sets that say of a row what they say of its tree node, where its control bits make them count. */
  predicate SameOpen(conn: Conn, ctrl: Ctrl, top: nat, r: nat) {
    && (ctrl == Commit ==> (top in conn.delRows <==> r in conn.delRows))
    && (ctrl == Trans ==> (top in conn.newRows <==> r in conn.newRows))
  }

  /** Every query hands out exactly the rows that the connection sees. */
  ghost predicate AlwaysRight(ix: RbTree, conn: Conn, ctrl: map<nat, Ctrl>)
    requires ix.rows.Keys <= ctrl.Keys
    reads ix
  {
    forall r :: r in ix.rows ==> (Shown(ix, conn, ctrl, r) <==> RowValid(conn, ctrl[r], r))
  }

  /** That is so exactly when no row is open otherwise than its tree node. */
  lemma RightWhen(ix: RbTree, conn: Conn, ctrl: map<nat, Ctrl>)
    requires ix.Valid() && ix.rows.Keys <= ctrl.Keys
    ensures AlwaysRight(ix, conn, ctrl) <==>
      forall r :: r in ix.rows ==> r in ix.owner && SameOpen(conn, ctrl[r], ix.owner[r], r)
  {
    forall r | r in ix.rows
      ensures r in ix.owner
      ensures (Shown(ix, conn, ctrl, r) <==> RowValid(conn, ctrl[r], r)) <==> SameOpen(conn, ctrl[r], ix.owner[r], r)
    {
      assert RowPlaced(ix.rows, ix.sibs, ix.owner, r);
    }
  }

  /** So it is for a connection that has changed nothing, whatever the writer has open. */
  lemma RightForReaders(ix: RbTree, conn: Conn, ctrl: map<nat, Ctrl>)
    requires ix.Valid() && ix.rows.Keys <= ctrl.Keys && conn.newRows == {} && conn.delRows == {}
    ensures AlwaysRight(ix, conn, ctrl)
  {
    forall r | r in ix.rows
      ensures r in ix.owner
    {
      assert RowPlaced(ix.rows, ix.sibs, ix.owner, r);
    }
    RightWhen(ix, conn, ctrl);
  }

  // ----- what that means for the writer

  /** The control bits of a writer's rows: those it has inserted are marked TRANS, all others COMMIT. */
  ghost predicate WriterRows(rows: Rows, conn: Conn, ctrl: map<nat, Ctrl>) {
    && conn.newRows !! conn.delRows
    && forall r :: r in rows ==> r in ctrl && ctrl[r] == if r in conn.newRows then Trans else Commit
  }

  /** A sibling is as its tree node: new when that is new, deleted when that is deleted. */
  predicate AsNode(conn: Conn, x: nat, r: nat) {
    if r in conn.newRows then x in conn.newRows else x in conn.delRows <==> r in conn.delRows
  }

  ghost predicate SiblingsAsNodes(sibs: Sibs, conn: Conn) {
    forall x, i :: x in sibs && 0 <= i < |sibs[x]| ==> AsNode(conn, x, sibs[x][i])
  }

  /** A writer's queries are right exactly when every sibling is as its tree node. */
  lemma RightForWriter(ix: RbTree, conn: Conn, ctrl: map<nat, Ctrl>)
    requires ix.Valid() && WriterRows(ix.rows, conn, ctrl)
    ensures AlwaysRight(ix, conn, ctrl) <==> SiblingsAsNodes(ix.sibs, conn)
  {
    RightWhen(ix, conn, ctrl);
    if SiblingsAsNodes(ix.sibs, conn) {
      forall r | r in ix.rows
        ensures r in ix.owner && SameOpen(conn, ctrl[r], ix.owner[r], r)
      {
        OwnNode(ix, conn, ctrl, r);
      }
    }
    if AlwaysRight(ix, conn, ctrl) {
      forall x, i | x in ix.sibs && 0 <= i < |ix.sibs[x]|
        ensures AsNode(conn, x, ix.sibs[x][i])
      {
        assert ListPlaced(ix.rows, ix.owner, x, ix.sibs[x]);
        assert SameOpen(conn, ctrl[ix.sibs[x][i]], ix.owner[ix.sibs[x][i]], ix.sibs[x][i]);
      }
    }
  }

  lemma OwnNode(ix: RbTree, conn: Conn, ctrl: map<nat, Ctrl>, r: nat)
    requires ix.Valid() && WriterRows(ix.rows, conn, ctrl) && SiblingsAsNodes(ix.sibs, conn) && r in ix.rows
    ensures r in ix.owner && SameOpen(conn, ctrl[r], ix.owner[r], r)
  {
    assert RowPlaced(ix.rows, ix.sibs, ix.owner, r);
    var x := ix.owner[r];
    if r != x {
      var i :| 0 <= i < |ix.sibs[x]| && ix.sibs[x][i] == r;
      assert AsNode(conn, x, ix.sibs[x][i]);
    }
  }

  /** So they are while it treats all rows of a key alike. */
  lemma RightKeyByKey(ix: RbTree, conn: Conn, ctrl: map<nat, Ctrl>)
    requires ix.Valid() && WriterRows(ix.rows, conn, ctrl)
    requires forall r, q :: r in ix.rows && q in ix.rows && ix.rows[r] == ix.rows[q] ==>
      (r in conn.newRows <==> q in conn.newRows) && (r in conn.delRows <==> q in conn.delRows)
    ensures AlwaysRight(ix, conn, ctrl)
  {
    RightWhen(ix, conn, ctrl);
    forall r | r in ix.rows
      ensures r in ix.owner && SameOpen(conn, ctrl[r], ix.owner[r], r)
    {
      assert RowPlaced(ix.rows, ix.sibs, ix.owner, r);
    }
  }

  /** A row that the connection inserts is shown to it exactly when the tree node with its key, if any, is new too. */
  method InsertRow(ix: RbTree, Z: nat, k: Key, visible: set<nat>, conn: Conn, ctrl: map<nat, Ctrl>)
    returns (rc: Status, conn': Conn, ctrl': map<nat, Ctrl>)
    requires ix.Valid() && 0 < Z < RID_LIMIT && Z <= 2 * (|ix.node| - 1) && Z !in ix.rows && |k| == ix.fields
    modifies ix
    ensures ix.Valid() && conn' == conn.(newRows := conn.newRows + {Z}) && ctrl' == ctrl[Z := Trans]
    ensures rc == Exists <==> ix.unique && old(NodeSeen(ix, k, visible))
    ensures rc == Ok ==> ix.rows == old(ix.rows)[Z := k]
    ensures rc == Ok ==> (Shown(ix, conn', ctrl', Z) <==>
      forall x :: x in old(ix.sibs) && x in old(ix.rows) && old(ix.rows)[x] == k ==> x in conn.newRows)
  {
    ghost var rows0, tree0, sibs0 := ix.rows, ix.tree, ix.sibs;
    SibsAreRows(ix);
    rc := ix.Add(Z, k, visible, true);
    conn', ctrl' := conn.(newRows := conn.newRows + {Z}), ctrl[Z := Trans];
    if rc == Ok {
      InsertedShown(ix, rows0, tree0, sibs0, Z, k, conn', ctrl');
    }
  }

  lemma InsertedShown(ix: RbTree, rows0: Rows, tree0: Tree, sibs0: Sibs, Z: nat, k: Key, conn: Conn,
        ctrl: map<nat, Ctrl>)
    requires ix.Valid() && ix.AddedTo(rows0, tree0, sibs0, Z, k) && Z !in rows0
    requires (forall x :: x in sibs0 ==> x in rows0) && Z in ctrl && ctrl[Z] == Trans && Z in conn.newRows
    ensures Shown(ix, conn, ctrl, Z) <==> forall x :: x in sibs0 && x in rows0 && rows0[x] == k ==> x in conn.newRows
  {
    InsertedOwner(ix, rows0, tree0, sibs0, Z, k);
  }

  lemma SibsAreRows(ix: RbTree)
    requires ix.Valid()
    ensures forall x :: x in ix.sibs ==> x in ix.rows
  {
    forall x | x in ix.sibs
      ensures x in ix.rows
    {
      assert ListPlaced(ix.rows, ix.owner, x, ix.sibs[x]);
    }
  }

  lemma InsertedOwner(ix: RbTree, rows0: Rows, tree0: Tree, sibs0: Sibs, Z: nat, k: Key)
    requires ix.Valid() && ix.AddedTo(rows0, tree0, sibs0, Z, k) && Z !in rows0
    requires forall x :: x in sibs0 ==> x in rows0
    ensures Z in ix.owner
    ensures forall x :: x in sibs0 && rows0[x] == k ==> ix.owner[Z] == x
    ensures (forall x :: x in sibs0 ==> rows0[x] != k) ==> ix.owner[Z] == Z
  {
    assert RowPlaced(ix.rows, ix.sibs, ix.owner, Z);
    forall x | x in sibs0 && rows0[x] == k
      ensures ix.owner[Z] == x
    {
      assert ix.sibs == sibs0[x := [Z] + sibs0[x]];
      assert ListPlaced(ix.rows, ix.owner, x, ix.sibs[x]) && ix.sibs[x][0] == Z;
    }
    if forall x :: x in sibs0 ==> rows0[x] != k {
      assert Z in ix.sibs && ListPlaced(ix.rows, ix.owner, Z, ix.sibs[Z]);
    }
  }

  /** Noting a committed row as deleted hides all committed rows of its tree node, or none when it is a sibling. */
  lemma DeleteHides(ix: RbTree, conn: Conn, ctrl: map<nat, Ctrl>, rid: nat, r: nat)
    requires ix.Valid() && rid in ix.rows && r in ix.rows && r in ctrl && ctrl[r] == Commit
    ensures r in ix.owner && rid in ix.owner
    ensures var conn' := conn.(delRows := conn.delRows + {rid});
      Shown(ix, conn', ctrl, r) <==> Shown(ix, conn, ctrl, r) && !(rid in ix.sibs && ix.owner[r] == ix.owner[rid])
  {
    assert RowPlaced(ix.rows, ix.sibs, ix.owner, r) && RowPlaced(ix.rows, ix.sibs, ix.owner, rid);
    assert rid in ix.sibs ==> ListPlaced(ix.rows, ix.owner, rid, ix.sibs[rid]);
  }

  method OneRow(unique: bool) returns (ix: RbTree)
    ensures fresh(ix) && ix.Valid() && ix.unique == unique && ix.fields == 1 && |ix.node| == 9
    ensures ix.rows == map[1 := [7]] && ix.sibs == map[1 := []]
  {
    ix := new RbTree(unique, 1, 8);
    var rc := ix.Add(1, [7], {}, true);
  }

  /** Two rows with one key, added while the connection sees neither; the second is a sibling of the first. */
  method TwoRows(unique: bool) returns (ix: RbTree)
    ensures fresh(ix) && ix.Valid() && ix.unique == unique && ix.fields == 1 && |ix.node| == 9
    ensures ix.rows == map[1 := [7], 2 := [7]] && ix.sibs == map[1 := [2]]
    ensures 2 in ix.owner && ix.owner[2] == 1 && 1 in ix.owner && ix.owner[1] == 1
  {
    ix := OneRow(unique);
    AddSecond(ix);
    OwnersOfTwo(ix);
  }

  method AddSecond(ix: RbTree)
    requires ix.Valid() && ix.fields == 1 && |ix.node| == 9 && ix.rows == map[1 := [7]] && ix.sibs == map[1 := []]
    modifies ix
    ensures ix.Valid() && |ix.node| == 9 && ix.rows == map[1 := [7], 2 := [7]] && ix.sibs == map[1 := [2]]
  {
    ghost var rows0, tree0, sibs0 := ix.rows, ix.tree, ix.sibs;
    var rc := ix.Add(2, [7], {}, true);
    SecondAdded(ix, rows0, tree0, sibs0);
  }

  lemma SecondAdded(ix: RbTree, rows0: Rows, tree0: Tree, sibs0: Sibs)
    requires ix.AddedTo(rows0, tree0, sibs0, 2, [7]) && rows0 == map[1 := [7]] && sibs0 == map[1 := []]
    ensures ix.rows == map[1 := [7], 2 := [7]] && ix.sibs == map[1 := [2]]
  {
    assert 1 in sibs0 && 1 in rows0 && rows0[1] == [7];
    assert ix.sibs == sibs0[1 := [2] + sibs0[1]];
    assert [2] + [] == [2];
  }

  lemma OwnersOfTwo(ix: RbTree)
    requires ix.Valid() && ix.sibs == map[1 := [2]]
    ensures 2 in ix.owner && ix.owner[2] == 1 && 1 in ix.owner && ix.owner[1] == 1
  {
    assert ListPlaced(ix.rows, ix.owner, 1, ix.sibs[1]);
    assert ix.sibs[1][0] == 2;
  }

  /** A writer does not find the row it has inserted beside a committed one, and it sees both. */
  method OwnInsertMissed() returns (rids: seq<nat>, conn: Conn, ctrl: map<nat, Ctrl>)
    ensures ctrl == map[1 := Commit, 2 := Trans] && RowValid(conn, ctrl[1], 1) && RowValid(conn, ctrl[2], 2)
    ensures forall r :: r in rids <==> r == 1
  {
    var ix := TwoRows(false);
    conn, ctrl := Conn(true, false, {2}, {}), map[1 := Commit, 2 := Trans];
    rids := QueryRows(ix, [7], conn, ctrl, {1, 2});
  }

  /** And it still finds the one it has deleted. */
  method OwnDeleteFound() returns (rids: seq<nat>, conn: Conn, ctrl: map<nat, Ctrl>)
    ensures ctrl == map[1 := Commit, 2 := Commit] && !RowValid(conn, ctrl[2], 2) && 2 in rids
  {
    var ix := TwoRows(false);
    conn, ctrl := Conn(true, false, {}, {2}), map[1 := Commit, 2 := Commit];
    rids := QueryRows(ix, [7], conn, ctrl, {1, 2});
  }

  /** A writer that has replaced a row by a new one with its key, as an update does, finds neither. */
  method OwnUpdateMissed() returns (rids: seq<nat>, conn: Conn, ctrl: map<nat, Ctrl>)
    ensures ctrl == map[1 := Commit, 2 := Trans] && RowValid(conn, ctrl[2], 2)
    ensures forall r :: r !in rids
  {
    var ix := TwoRows(true);
    conn, ctrl := Conn(true, false, {2}, {1}), map[1 := Commit, 2 := Trans];
    rids := QueryRows(ix, [7], conn, ctrl, {1, 2});
  }

  // ----- what a unique index refuses

  /** What adding a row to a unique index looks for: a visible tree node with the key. */
  ghost predicate NodeSeen(ix: RbTree, k: Key, visible: set<nat>)
    reads ix
  {
    exists x :: x in ix.sibs && x in visible && x in ix.rows && ix.rows[x] == k
  }

  /**
  Uniqueness asks for any visible row with the key: that is the same exactly when no row
  with the key is visible without its tree node.
  */
  lemma RefusalRight(ix: RbTree, k: Key, visible: set<nat>)
    requires ix.Valid()
    ensures (NodeSeen(ix, k, visible) <==> KeySeen(ix.rows, k, visible)) <==>
      (forall r :: r in ix.rows && r in visible && ix.rows[r] == k ==> r in ix.owner && ix.owner[r] in visible)
  {
    forall r | r in ix.rows && ix.rows[r] == k
      ensures r in ix.owner && ix.owner[r] in ix.sibs && ix.owner[r] in ix.rows && ix.rows[ix.owner[r]] == k
    {
      assert RowPlaced(ix.rows, ix.sibs, ix.owner, r);
    }
    if NodeSeen(ix, k, visible) {
      var x :| x in ix.sibs && x in visible && x in ix.rows && ix.rows[x] == k;
      forall r | r in ix.rows && ix.rows[r] == k
        ensures ix.owner[r] == x
      {
        OneNode(ix, r, x);
      }
    }
  }

  /** One tree node has a key. */
  lemma OneNode(ix: RbTree, r: nat, x: nat)
    requires ix.Valid() && r in ix.rows && x in ix.sibs && x in ix.rows && ix.rows[r] == ix.rows[x]
    ensures r in ix.owner && ix.owner[r] == x
  {
    assert RowPlaced(ix.rows, ix.sibs, ix.owner, r);
    KeyOfOneTop(ix.rows, ix.tree, ix.sibs, x);
  }

  /** One transaction deletes a row and inserts its key twice: a unique index takes both. */
  method DuplicateAdmitted() returns (ix: RbTree, rc: Status)
    ensures ix.Valid() && ix.unique && rc == Ok && 2 in ix.rows && 3 in ix.rows && ix.rows[2] == ix.rows[3]
  {
    ix := TwoRows(true);
    rc := ix.Add(3, [7], {2}, true);
  }
}
