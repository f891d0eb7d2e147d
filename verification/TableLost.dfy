/**
Two updates that report success and leave no row behind. An update takes the old row out
before it inserts the new version; when that insert is refused nothing puts the old row
back.
*/
module TableLost {
  import opened RowWord
  import opened HashRows
  import opened Store
  import opened TxSpec
  import opened TableRows
  import opened Table
  import opened IntIndex
  import opened KeyHash
  import HD = HashDup

  const EMPTY := Block(0, Unused, Row([], []))

  /** An empty table with a unique index, and one connection. */
  method NewTable(cols: seq<Column>) returns (t: Table)
    ensures fresh(t) && fresh(t.store) && fresh(t.index) && t.Valid() && t.index.unique && HashesBy(t.index, cols)
    ensures t.lock == Unlocked && t.conns == map[0 := IDLE] && t.Abs() == Spec(map[], Unlocked, map[])
    ensures t.store.free == [] && t.store.maxid == 0 && t.store.Cap() == 8
  {
    var store := new Store(seq(9, i => EMPTY));
    var index := NewIndex(true, cols, seq(9, i => ZERO_NODE), 3);
    t := new Table(store, index);
    t.Connect(0);
  }

  /** An update that says it succeeded left neither the old row nor a new one. */
  ghost predicate Lost(t: Table, rid: nat, row: Row, ok: bool)
    reads t, t.store, t.index
  {
    && t.Valid() && t.lock == LockedBy(0) && ok && rid in t.Abs().committed && t.Abs().work == t.Abs().committed - {rid}
    && forall r :: r in t.Abs().work ==> t.Abs().work[r] != row
  }

  /** Connection 0 has inserted rows and nothing else. */
  ghost predicate Inserting(t: Table)
    reads t, t.store, t.index
  {
    && t.Valid() && t.lock == LockedBy(0) && 0 in t.conns && t.conns[0].inTrans && t.conns[0].delRows == {}
    && t.Abs().committed == map[]
  }

  /** Commits the rows inserted, and takes the lock for the next transaction. */
  method NextTransaction(t: Table)
    requires Inserting(t)
    modifies t, t.store, t.index
    ensures t.Valid() && t.lock == LockedBy(0) && 0 in t.conns && t.conns[0] == Conn(true, false, {}, {})
    ensures t.Abs() == Spec(old(t.Abs()).work, LockedBy(0), old(t.Abs()).work) && t.index.rows == KeysOf(t.Abs().work)
    ensures t.store.free == old(t.store.free) && t.store.maxid == old(t.store.maxid) &&
      t.store.Cap() == old(t.store.Cap())
  {
    t.Commit(0);
    t.WrLock(0, false);
    t.NothingYet(0);
  }

  /** Nothing is open, and connection 0 has the lock. */
  ghost predicate Ready(t: Table)
    reads t, t.store, t.index
  {
    && t.Valid() && t.index.unique && t.lock == LockedBy(0) && 0 in t.conns && t.conns[0] == Conn(true, false, {}, {})
    && t.Abs().work == t.Abs().committed && t.index.rows == KeysOf(t.Abs().work) && t.store.maxid + 1 < RID_LIMIT
  }

  /** Whenever the duplicate search passes the new key, and then the insert is refused. */
  method UpdateLost(t: Table, rid: nat, row: Row, more: seq<Block>) returns (ok: bool, newid: int)
    requires Ready(t) && rid in t.Abs().work && t.Duplicate(0, row.key) in {0, rid} && |more| in {0, t.store.Cap()}
    requires forall r :: r in t.Abs().work ==> t.Abs().work[r] != row
    requires || (t.store.free == [] && t.store.maxid == t.store.Cap() && more == [])
             || exists r :: r in t.Abs().work - {rid} && t.Abs().work[r].key == row.key
    modifies t, t.store, t.index
    ensures Lost(t, rid, row, ok) && newid == -1
  {
    assert Sees(t.Im(), t.conns[0], rid) && !t.InPlace(rid, true) by {
      t.SeesItsView(0);
      SameSets(t.Im(), IDLE, t.conns[0]);
    }
    ok, newid := t.Update(0, rid, row, true, more);
  }

  // ----- no room

  /** Connection 0 has inserted n rows into a new table. */
  ghost predicate Filling(t: Table, n: nat)
    reads t, t.store, t.index
  {
    Inserting(t) && t.store.free == [] && t.store.maxid == n && t.store.Cap() == 8
  }

  /** One row more, with a new key. */
  method OneMore(t: Table, n: nat, row: Row) returns (rid: nat)
    requires Filling(t, n) && n < 8 && forall r :: r in t.Abs().work ==> t.Abs().work[r].key != row.key
    modifies t, t.store, t.index
    ensures Filling(t, n + 1) && rid !in old(t.Abs()).work && t.Abs().work == old(t.Abs()).work[rid := row]
  {
    var id := t.Insert(0, row, []);
    rid := id;
  }

  /** Fills the table with rows of keys 0 to 7, and names one of them. */
  method Fill(t: Table) returns (rid: nat)
    requires Filling(t, 0) && t.Abs().work == map[]
    modifies t, t.store, t.index
    ensures Filling(t, 8) && rid in t.Abs().work && KeysBelow(t.Abs().work, 8)
  {
    rid := 0;
    for n := 0 to 8
      invariant Filling(t, n) && KeysBelow(t.Abs().work, n) && (n > 0 ==> rid in t.Abs().work)
    {
      rid := OneMore(t, n, Row([n], []));
    }
  }

  ghost predicate KeysBelow(rows: Contents, n: nat) {
    forall r :: r in rows ==> |rows[r].key| == 1 && 0 <= rows[r].key[0] < n
  }

  /** Keys of one INT column from 0 on are stored as themselves. */
  lemma StoredAs(j: nat)
    requires j < W32
    ensures Stored([Int], [j]) == j
  {
    assert RowWords([Int], [j]) == [j];
    assert [j][1..] == [];
    assert Poly([j]) == j * Pow17(0) + Poly([]);
  }

  method FullTable() returns (t: Table, rid: nat)
    ensures fresh(t) && fresh(t.store) && fresh(t.index)
    ensures Ready(t) && rid in t.Abs().work && KeysBelow(t.Abs().work, 8) && HashesBy(t.index, [Int])
    ensures t.store.free == [] && t.store.maxid == t.store.Cap()
  {
    t := NewTable([Int]);
    t.WrLock(0, false);
    rid := Fill(t);
    NextTransaction(t);
  }

  /** A full table that cannot grow: a committed row goes, and its new version does not come. */
  method LostForRoom() returns (t: Table, rid: nat, ok: bool, newid: int)
    ensures Lost(t, rid, Row([8], []), ok) && newid == -1
  {
    t, rid := FullTable();
    EightIsNew(t);
    t.DuplicateRight(0, [8]);
    ok, newid := UpdateLost(t, rid, Row([8], []), []);
  }

  lemma EightIsNew(t: Table)
    requires HashesBy(t.index, [Int]) && t.index.rows == KeysOf(t.Abs().work) && KeysBelow(t.Abs().work, 8)
    ensures HD.NoClash(t.index.rows, t.index.hash, [8])
    ensures forall r :: r in t.Abs().work ==> t.Abs().work[r].key != [8]
  {
    StoredAs(8);
    forall r | r in t.Abs().work
      ensures t.index.hash(t.Abs().work[r].key) != t.index.hash([8]) && t.Abs().work[r].key != [8]
    {
      var k := t.Abs().work[r].key;
      assert k == [k[0]];
      StoredAs(k[0]);
    }
  }

  // ----- a clash of hash words

  const COLS := [Int, Int]

  /** Two keys of two INT columns with one hash word. */
  lemma Clash()
    ensures Stored(COLS, [1, 0]) == Stored(COLS, [0, 17])
  {
    assert RowWords(COLS, [1, 0]) == [1, 0] && RowWords(COLS, [0, 17]) == [0, 17];
    assert [1, 0][1..] == [0] && [0, 17][1..] == [17] && [0][1..] == [] && [17][1..] == [];
    assert Pow17(1) == 17 * Pow17(0) == 17;
    assert Poly([0]) == 0 && Poly([17]) == 17 && Poly([1, 0]) == 17 && Poly([0, 17]) == 17;
  }

  method AddThree(t: Table) returns (a: nat, b: nat, c: nat)
    requires Filling(t, 0) && t.Abs().work == map[]
    modifies t, t.store, t.index
    ensures Filling(t, 3) && a != b && b != c && c != a
    ensures t.Abs().work == map[a := Row([1, 0], []), b := Row([0, 17], []), c := Row([5, 5], [])]
  {
    a := OneMore(t, 0, Row([1, 0], []));
    b := OneMore(t, 1, Row([0, 17], []));
    c := OneMore(t, 2, Row([5, 5], []));
  }

  /** A row with either key and a third one. */
  method ThreeRows() returns (t: Table, a: nat, b: nat, c: nat)
    ensures fresh(t) && fresh(t.store) && fresh(t.index) && Ready(t) && HashesBy(t.index, COLS)
    ensures a != b && b != c && c != a
    ensures t.Abs().work == map[a := Row([1, 0], []), b := Row([0, 17], []), c := Row([5, 5], [])]
  {
    t := NewTable(COLS);
    t.WrLock(0, false);
    a, b, c := AddThree(t);
    NextTransaction(t);
  }

  /** A row with the key that the search overlooks. */
  method OverlookedRow(t: Table, ghost a: nat, ghost b: nat, rid: nat) returns (row: Row)
    requires Ready(t) && HashesBy(t.index, COLS) && a != b && b != rid && rid != a
    requires t.Abs().work == map[a := Row([1, 0], []), b := Row([0, 17], []), rid := Row([5, 5], [])]
    ensures t.Duplicate(0, row.key) == 0 && exists r :: r in t.Abs().work - {rid} && t.Abs().work[r].key == row.key
    ensures rid in t.Abs().work && forall r :: r in t.Abs().work ==> t.Abs().work[r] != row
  {
    Overlooked(t, a, b, rid);
    ThreeKeys(t.Abs().work, a, b, rid);
    var dup := t.FindDuplicate(0, [1, 0]);
    var key := if dup == 0 then [1, 0] else [0, 17];
    row := Row(key, [1]);
    assert t.Duplicate(0, key) == 0;
    assert exists r :: r in t.Abs().work - {rid} && t.Abs().work[r].key == key;
  }

  /** The search overlooks one of the two keys, and the insert does not. */
  method LostForClash() returns (t: Table, rid: nat, row: Row, ok: bool, newid: int)
    ensures Lost(t, rid, row, ok) && newid == -1
  {
    var a, b;
    t, a, b, rid := ThreeRows();
    row := OverlookedRow(t, a, b, rid);
    ok, newid := UpdateLost(t, rid, row, []);
  }

  lemma ThreeKeys(work: Contents, a: nat, b: nat, c: nat)
    requires a != b && b != c && c != a
    requires work == map[a := Row([1, 0], []), b := Row([0, 17], []), c := Row([5, 5], [])]
    ensures exists r :: r in work - {c} && work[r].key == [1, 0]
    ensures exists r :: r in work - {c} && work[r].key == [0, 17]
    ensures c in work && forall r :: r in work ==> work[r].rest == []
  {
    assert a in work - {c} && work[a].key == [1, 0];
    assert b in work - {c} && work[b].key == [0, 17];
  }

  lemma Overlooked(t: Table, a: nat, b: nat, c: nat)
    requires Ready(t) && HashesBy(t.index, COLS) && a != b && b != c && c != a
    requires t.Abs().work == map[a := Row([1, 0], []), b := Row([0, 17], []), c := Row([5, 5], [])]
    ensures t.Duplicate(0, [1, 0]) == 0 || t.Duplicate(0, [0, 17]) == 0
  {
    Clash();
    assert Inside(0);
    HD.OneOverlooked(t.index, [1, 0], [0, 17], Visible(t.Im(), t.conns[0]).Keys);
  }
}
