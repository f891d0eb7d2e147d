/**
The rows of a table as control bits, free list and index show them, and which of them a
connection sees.
*/
module TableRows {
  import opened Keys
  import opened RowGroups
  import opened Store
  import opened TxSpec

  /** What one connection has open: its transaction flags and its row sets for the table. */
  datatype Conn = Conn(inTrans: bool, auto: bool, newRows: set<nat>, delRows: set<nat>)

  const IDLE := Conn(false, false, {}, {})

  /** What the allocator holds at one moment. */
  datatype Image = Image(blocks: seq<Block>, maxid: nat, free: seq<nat>)

  ghost predicate Formed(im: Image) { FreeListed(im.blocks, im.free, im.maxid) }

  ghost predicate IsLive(im: Image, r: int) { Live(im.maxid, im.free, r) }

  /** All that have not deleted a committed row see it, only its writer sees a new one, and nobody any other. */
  lemma WhoSees(conn: Conn, rid: nat)
    ensures RowValid(conn, Commit, rid) <==> rid !in conn.delRows
    ensures RowValid(conn, Trans, rid) <==> rid in conn.newRows
    ensures !RowValid(conn, Unused, rid) && !RowValid(conn, Dirty, rid)
  {
  }

  /** Whether a connection with these row sets sees a row with this control byte. */
  predicate RowValid(conn: Conn, ctrl: Ctrl, rid: nat) {
    if ctrl == Unused || ctrl == Dirty then false
    else if ctrl == Commit then rid !in conn.delRows
    else rid in conn.newRows
  }

  predicate Sees(im: Image, conn: Conn, r: nat) {
    1 <= r <= im.maxid && r < |im.blocks| && RowValid(conn, im.blocks[r].ctrl, r)
  }

  ghost function Visible(im: Image, conn: Conn): (rows: Contents)
    ensures forall r {:trigger Sees(im, conn, r)} :: r in rows <==> Sees(im, conn, r)
    ensures forall r :: r in rows ==> Sees(im, conn, r) && rows[r] == im.blocks[r].row
  {
    map r: nat | 1 <= r <= im.maxid && Sees(im, conn, r) :: im.blocks[r].row
  }

  // Indexed and Owned hold of every row but `limbo`: a new row that an update has already taken
  // out of the index and out of its writer's set, and not yet given back. Id 0 stands for none.

  /** A row is in the index exactly while it is live. */
  ghost predicate RowIndexed(im: Image, rows: Rows, r: nat) {
    && (r in rows <==> IsLive(im, r))
    && (r in rows ==> r < |im.blocks| && rows[r] == im.blocks[r].row.key)
  }

  ghost predicate Indexed(im: Image, rows: Rows, limbo: nat) {
    limbo !in rows && forall r {:trigger RowIndexed(im, rows, r)} :: r != limbo ==> RowIndexed(im, rows, r)
  }

  /** A live row is committed, or new in the writer's transaction. */
  ghost predicate RowOwned(im: Image, writer: Conn, r: nat) {
    && (r in writer.newRows || r in writer.delRows ==> IsLive(im, r))
    && (IsLive(im, r) ==> r < |im.blocks| && im.blocks[r].ctrl == if r in writer.newRows then Trans else Commit)
    && !(r in writer.newRows && r in writer.delRows)
  }

  ghost predicate Owned(im: Image, writer: Conn, limbo: nat) {
    && (forall r {:trigger RowOwned(im, writer, r)} :: r != limbo ==> RowOwned(im, writer, r))
    && limbo !in writer.newRows && limbo !in writer.delRows
    && (limbo != 0 ==> IsLive(im, limbo) && limbo < |im.blocks| && im.blocks[limbo].ctrl == Trans)
  }

  /** No two rows with one key. */
  ghost predicate UniqueKeys(rows: Contents) {
    forall r, s :: r in rows && s in rows && rows[r].key == rows[s].key ==> r == s
  }

  /** A row is live in both with the same contents and control bits, or in neither. */
  ghost predicate RowKept(im: Image, im': Image, r: nat) {
    && (IsLive(im, r) <==> IsLive(im', r))
    && (IsLive(im, r) ==>
          r < |im.blocks| && r < |im'.blocks|
          && im'.blocks[r].ctrl == im.blocks[r].ctrl && im'.blocks[r].row == im.blocks[r].row)
  }

  ghost predicate SameBut(im: Image, im': Image, x: nat) {
    forall r {:trigger RowKept(im, im', r)} :: r != x ==> RowKept(im, im', r)
  }

  lemma SameButAgain(im: Image, im1: Image, im': Image, x: nat)
    requires SameBut(im, im1, x) && SameBut(im1, im', x)
    ensures SameBut(im, im', x)
  {
    forall r: nat | r != x
      ensures RowKept(im, im', r)
    {
      assert RowKept(im, im1, r) && RowKept(im1, im', r);
    }
  }

  /** The indexed rows with a key that a connection sees are the visible rows with that key. */
  lemma KeyAmongVisible(im: Image, im1: Image, rows: Rows, conn: Conn, x: nat, k: Key, seen: set<nat>, limbo: nat)
    requires Formed(im) && Formed(im1) && SameBut(im, im1, x) && !IsLive(im, x) && IsLive(im1, x)
    requires Indexed(im, rows, limbo) && Owned(im, conn, limbo)
    requires x < |im1.blocks| && im1.blocks[x].ctrl == Trans && forall r: nat :: r in seen <==> Sees(im1, conn, r)
    ensures x !in rows
    ensures (exists r :: r in rows && rows[r] == k && r in seen) <==>
      exists r :: r in Visible(im, conn) && Visible(im, conn)[r].key == k
  {
    assert RowOwned(im, conn, x) && RowIndexed(im, rows, x);
    VisibleBut(im, im1, conn, conn, x);
    NotLive(im, conn, x);
    assert !Sees(im1, conn, x);
    ViewsMeet(Visible(im1, conn), Visible(im, conn), x);
    forall r: nat
      ensures r in rows && r in seen <==> r in Visible(im, conn)
      ensures r in rows && r in seen ==> rows[r] == Visible(im, conn)[r].key
    {
      SeenLive(im, conn, r);
      assert r != limbo ==> RowIndexed(im, rows, r);
    }
  }

  lemma FreeUnused(im: Image, r: nat)
    requires Formed(im) && r in im.free
    ensures r < |im.blocks| && im.blocks[r].ctrl == Unused
  {
    var i :| 0 <= i < |im.free| && im.free[i] == r;
    assert FreeAt(im.blocks, im.maxid, im.free, i);
  }

  /** A row that anybody sees is live. */
  lemma SeenLive(im: Image, conn: Conn, r: nat)
    requires Formed(im)
    ensures Sees(im, conn, r) ==> IsLive(im, r)
  {
    if r in im.free {
      FreeUnused(im, r);
    }
  }

  /** Only the row sets of a connection matter. */
  lemma SameSets(im: Image, a: Conn, b: Conn)
    requires a.newRows == b.newRows && a.delRows == b.delRows
    ensures Visible(im, a) == Visible(im, b)
    ensures forall limbo :: Owned(im, a, limbo) ==> Owned(im, b, limbo)
  {
    forall r: nat
      ensures Sees(im, a, r) <==> Sees(im, b, r)
    {
    }
    forall limbo | Owned(im, a, limbo)
      ensures Owned(im, b, limbo)
    {
      forall r: nat | r != limbo
        ensures RowOwned(im, b, r)
      {
        assert RowOwned(im, a, r);
      }
    }
  }

  /** What a change to one row does to a view. */
  lemma VisibleBut(im: Image, im': Image, conn: Conn, conn': Conn, x: nat)
    requires Formed(im) && Formed(im') && SameBut(im, im', x)
    requires conn.newRows - {x} == conn'.newRows - {x} && conn.delRows - {x} == conn'.delRows - {x}
    ensures Visible(im', conn') - {x} == Visible(im, conn) - {x}
  {
    forall r: nat | r != x
      ensures Sees(im, conn, r) <==> Sees(im', conn', r)
      ensures Sees(im, conn, r) ==> im'.blocks[r].row == im.blocks[r].row
    {
      assert RowKept(im, im', r);
      assert r in conn.newRows <==> r in conn.newRows - {x};
      assert r in conn.delRows <==> r in conn.delRows - {x};
      SeenLive(im, conn, r);
      SeenLive(im', conn', r);
    }
  }

  lemma ViewsMeet(a: Contents, b: Contents, x: nat)
    requires a - {x} == b - {x} && (x in a <==> x in b) && (x in a ==> a[x] == b[x])
    ensures a == b
  {
    forall r | r in a
      ensures r in b && a[r] == b[r]
    {
      assert r != x ==> r in a - {x};
    }
    forall r | r in b
      ensures r in a
    {
      assert r != x ==> r in b - {x};
    }
  }

  lemma NotLive(im: Image, conn: Conn, x: nat)
    requires Formed(im) && !IsLive(im, x)
    ensures x !in Visible(im, conn) && !Sees(im, conn, x)
  {
    SeenLive(im, conn, x);
  }

  /** A new row, seen by its writer only. */
  lemma RowCame(im: Image, im': Image, rows: Rows, writer: Conn, x: nat, row: Row, limbo: nat)
    requires Formed(im) && Formed(im') && SameBut(im, im', x) && !IsLive(im, x) && IsLive(im', x)
    requires x < |im'.blocks| && im'.blocks[x].ctrl == Trans && im'.blocks[x].row == row
    requires Indexed(im, rows, limbo) && Owned(im, writer, limbo)
    ensures var writer' := writer.(newRows := writer.newRows + {x});
      && Indexed(im', rows[x := row.key], limbo) && Owned(im', writer', limbo)
      && Visible(im', writer') == Visible(im, writer)[x := row] && Visible(im', IDLE) == Visible(im, IDLE)
    ensures x !in Visible(im, writer) && x !in Visible(im, IDLE) && x !in rows
  {
    var writer' := writer.(newRows := writer.newRows + {x});
    NotLive(im, writer, x);
    NotLive(im, IDLE, x);
    VisibleBut(im, im', writer, writer', x);
    VisibleBut(im, im', IDLE, IDLE, x);
    assert Sees(im', writer', x) && !Sees(im', IDLE, x);
    ViewsMeet(Visible(im', IDLE), Visible(im, IDLE), x);
    assert Visible(im', writer') - {x} == Visible(im, writer)[x := row] - {x};
    ViewsMeet(Visible(im', writer'), Visible(im, writer)[x := row], x);
    assert RowOwned(im, writer, x) && RowIndexed(im, rows, x);
    assert RowKept(im, im', limbo);
    var rows' := rows[x := row.key];
    forall r: nat | r != limbo
      ensures RowIndexed(im', rows', r)
    {
      assert RowIndexed(im, rows, r);
      assert r != x ==> RowKept(im, im', r);
    }
    forall r: nat | r != limbo
      ensures RowOwned(im', writer', r)
    {
      assert RowOwned(im, writer, r);
      assert r != x ==> RowKept(im, im', r);
    }
  }

  /** A row that is live neither before nor after: nothing changes. */
  lemma RowMissed(im: Image, im': Image, rows: Rows, writer: Conn, x: nat, limbo: nat)
    requires Formed(im) && Formed(im') && SameBut(im, im', x) && !IsLive(im, x) && !IsLive(im', x)
    requires Indexed(im, rows, limbo) && Owned(im, writer, limbo)
    ensures Indexed(im', rows, limbo) && Owned(im', writer, limbo)
    ensures Visible(im', writer) == Visible(im, writer) && Visible(im', IDLE) == Visible(im, IDLE)
  {
    VisibleBut(im, im', writer, writer, x);
    VisibleBut(im, im', IDLE, IDLE, x);
    NotLive(im, writer, x);
    NotLive(im, IDLE, x);
    NotLive(im', writer, x);
    NotLive(im', IDLE, x);
    ViewsMeet(Visible(im', writer), Visible(im, writer), x);
    ViewsMeet(Visible(im', IDLE), Visible(im, IDLE), x);
    assert limbo != x ==> RowKept(im, im', limbo);
    forall r: nat | r != limbo
      ensures RowIndexed(im', rows, r)
    {
      assert RowIndexed(im, rows, r);
      assert r != x ==> RowKept(im, im', r);
    }
    forall r: nat | r != limbo
      ensures RowOwned(im', writer, r)
    {
      assert RowOwned(im, writer, r);
      assert r != x ==> RowKept(im, im', r);
    }
  }

  /** A new row leaves the index and its writer's set: nobody sees it any more. */
  lemma RowLeft(im: Image, rows: Rows, writer: Conn, x: nat)
    requires Formed(im) && x in writer.newRows && Indexed(im, rows, 0) && Owned(im, writer, 0)
    ensures var writer' := writer.(newRows := writer.newRows - {x});
      && Indexed(im, rows - {x}, x) && Owned(im, writer', x) && Visible(im, writer') == Visible(im, writer) - {x}
    ensures IsLive(im, x) && x in rows && x != 0
  {
    var writer' := writer.(newRows := writer.newRows - {x});
    assert RowOwned(im, writer, x) && RowIndexed(im, rows, x);
    VisibleSame(im, writer, writer', x);
    assert !Sees(im, writer', x);
    ViewsMeet(Visible(im, writer'), Visible(im, writer) - {x}, x);
    forall r: nat | r != x
      ensures RowIndexed(im, rows - {x}, r)
    {
      NoneZero(im, rows, writer, r);
    }
    forall r: nat | r != x
      ensures RowOwned(im, writer', r)
    {
      NoneZero(im, rows, writer, r);
    }
  }

  lemma NoneZero(im: Image, rows: Rows, writer: Conn, r: nat)
    requires Indexed(im, rows, 0) && Owned(im, writer, 0)
    ensures RowIndexed(im, rows, r) && RowOwned(im, writer, r)
  {
    assert !IsLive(im, 0);
    assert r != 0 ==> RowIndexed(im, rows, r) && RowOwned(im, writer, r);
  }

  /** A new row is written over in place. */
  lemma RowRewritten(im: Image, im': Image, rows: Rows, writer: Conn, x: nat, row: Row)
    requires Formed(im) && Formed(im') && SameBut(im, im', x) && x in writer.newRows && IsLive(im', x)
    requires x < |im'.blocks| && im'.blocks[x].ctrl == Trans && im'.blocks[x].row == row
    requires Indexed(im, rows, 0) && Owned(im, writer, 0)
    ensures Indexed(im', rows[x := row.key], 0) && Owned(im', writer, 0)
    ensures Visible(im', writer) == Visible(im, writer)[x := row] && Visible(im', IDLE) == Visible(im, IDLE)
    ensures x in rows && x in Visible(im, writer) && x < |im.blocks| && rows[x] == im.blocks[x].row.key
  {
    NoneZero(im, rows, writer, x);
    VisibleBut(im, im', writer, writer, x);
    VisibleBut(im, im', IDLE, IDLE, x);
    assert Sees(im, writer, x) && Sees(im', writer, x) && !Sees(im, IDLE, x) && !Sees(im', IDLE, x);
    ViewsMeet(Visible(im', IDLE), Visible(im, IDLE), x);
    assert Visible(im, writer)[x := row] - {x} == Visible(im, writer) - {x};
    ViewsMeet(Visible(im', writer), Visible(im, writer)[x := row], x);
    var rows' := rows[x := row.key];
    forall r: nat | r != 0
      ensures RowIndexed(im', rows', r)
    {
      NoneZero(im, rows, writer, r);
      assert r != x ==> RowKept(im, im', r);
    }
    forall r: nat | r != 0
      ensures RowOwned(im', writer, r)
    {
      NoneZero(im, rows, writer, r);
      assert r != x ==> RowKept(im, im', r);
    }
  }

  /** And then its block is given back. */
  lemma LimboGone(im: Image, im': Image, rows: Rows, writer: Conn, x: nat)
    requires Formed(im) && Formed(im') && SameBut(im, im', x) && !IsLive(im', x) && x != 0
    requires Indexed(im, rows, x) && Owned(im, writer, x)
    ensures Indexed(im', rows, 0) && Owned(im', writer, 0)
    ensures Visible(im', writer) == Visible(im, writer) && Visible(im', IDLE) == Visible(im, IDLE)
  {
    VisibleBut(im, im', writer, writer, x);
    VisibleBut(im, im', IDLE, IDLE, x);
    NotLive(im', writer, x);
    NotLive(im', IDLE, x);
    assert !Sees(im, writer, x) && !Sees(im, IDLE, x);
    ViewsMeet(Visible(im', writer), Visible(im, writer), x);
    ViewsMeet(Visible(im', IDLE), Visible(im, IDLE), x);
    assert !IsLive(im, 0) && RowIndexed(im, rows, 0) && RowOwned(im, writer, 0);
    forall r: nat
      ensures RowIndexed(im', rows, r)
    {
      assert r != x ==> RowIndexed(im, rows, r) && RowKept(im, im', r);
    }
    forall r: nat
      ensures RowOwned(im', writer, r)
    {
      assert r != x ==> RowOwned(im, writer, r) && RowKept(im, im', r);
    }
  }

  /** A committed row the writer deletes stays where it is until commit. */
  lemma RowNoted(im: Image, writer: Conn, x: nat)
    requires Formed(im) && Owned(im, writer, 0) && Sees(im, writer, x) && x !in writer.newRows
    ensures var writer' := writer.(delRows := writer.delRows + {x});
      Owned(im, writer', 0) && Visible(im, writer') == Visible(im, writer) - {x}
  {
    var writer' := writer.(delRows := writer.delRows + {x});
    SeenLive(im, writer, x);
    assert RowOwned(im, writer, x);
    forall r: nat | r != 0
      ensures RowOwned(im, writer', r)
    {
      assert RowOwned(im, writer, r);
    }
    VisibleSame(im, writer, writer', x);
    assert !Sees(im, writer', x);
    ViewsMeet(Visible(im, writer'), Visible(im, writer) - {x}, x);
  }

  lemma VisibleSame(im: Image, conn: Conn, conn': Conn, x: nat)
    requires Formed(im) && conn.newRows - {x} == conn'.newRows - {x} && conn.delRows - {x} == conn'.delRows - {x}
    ensures Visible(im, conn') - {x} == Visible(im, conn) - {x}
  {
    forall r: nat
      ensures r != x ==> RowKept(im, im, r)
    {
      assert IsLive(im, r) ==> LiveAt(im.blocks, r);
    }
    VisibleBut(im, im, conn, conn', x);
  }

  // ----- ending a transaction

  ghost predicate RowOrGone(im: Image, im': Image, gone: set<nat>, r: nat) {
    && (IsLive(im', r) <==> IsLive(im, r) && r !in gone)
    && (IsLive(im', r) ==>
          r < |im.blocks| && r < |im'.blocks|
          && im'.blocks[r].ctrl == im.blocks[r].ctrl && im'.blocks[r].row == im.blocks[r].row)
  }

  /** The rows of one set are gone, the others are as they were. */
  ghost predicate AllGone(im: Image, im': Image, gone: set<nat>) {
    forall r {:trigger RowOrGone(im, im', gone, r)} :: RowOrGone(im, im', gone, r)
  }

  lemma OneMoreGone(im0: Image, im: Image, im': Image, gone: set<nat>, x: nat)
    requires AllGone(im0, im, gone) && SameBut(im, im', x) && !IsLive(im', x)
    ensures AllGone(im0, im', gone + {x})
  {
    forall r: nat
      ensures RowOrGone(im0, im', gone + {x}, r)
    {
      assert RowOrGone(im0, im, gone, r);
      assert r != x ==> RowKept(im, im', r);
    }
  }

  ghost predicate RowMarked(im: Image, im': Image, marked: set<nat>, r: nat) {
    && (IsLive(im', r) <==> IsLive(im, r))
    && (IsLive(im, r) ==>
          r < |im.blocks| && r < |im'.blocks| && im'.blocks[r].row == im.blocks[r].row
          && im'.blocks[r].ctrl == if r in marked then Commit else im.blocks[r].ctrl)
  }

  /** The rows of one set are committed, the others are as they were. */
  ghost predicate AllMarked(im: Image, im': Image, marked: set<nat>) {
    forall r {:trigger RowMarked(im, im', marked, r)} :: RowMarked(im, im', marked, r)
  }

  lemma NoneGone(im: Image)
    requires Formed(im)
    ensures AllGone(im, im, {})
  {
    forall r: nat
      ensures RowOrGone(im, im, {}, r)
    {
      assert IsLive(im, r) ==> LiveAt(im.blocks, r);
    }
  }

  lemma SameMarked(im: Image)
    requires Formed(im)
    ensures AllMarked(im, im, {})
  {
    forall r: nat
      ensures RowMarked(im, im, {}, r)
    {
      assert IsLive(im, r) ==> LiveAt(im.blocks, r);
    }
  }

  lemma OneMoreMarked(im0: Image, im: Image, im': Image, marked: set<nat>, x: nat)
    requires AllMarked(im0, im, marked) && SameBut(im, im', x) && IsLive(im, x) && IsLive(im', x)
    requires x < |im.blocks| && x < |im'.blocks| && im'.blocks[x].ctrl == Commit &&
      im'.blocks[x].row == im.blocks[x].row
    ensures AllMarked(im0, im', marked + {x})
  {
    forall r: nat
      ensures RowMarked(im0, im', marked + {x}, r)
    {
      assert RowMarked(im0, im, marked, r);
      assert r != x ==> RowKept(im, im', r);
    }
  }

  lemma OpenLive(im: Image, rows: Rows, writer: Conn)
    requires Indexed(im, rows, 0) && Owned(im, writer, 0)
    ensures forall r :: r in writer.newRows || r in writer.delRows ==> IsLive(im, r)
  {
    forall r: nat
      ensures r in writer.newRows || r in writer.delRows ==> IsLive(im, r)
    {
      NoneZero(im, rows, writer, r);
    }
  }

  /** New rows are seen by their writer only, deleted rows by everybody else, other rows by all or none. */
  lemma OpenRow(im: Image, rows: Rows, writer: Conn, r: nat)
    requires Formed(im) && Indexed(im, rows, 0) && Owned(im, writer, 0)
    ensures r in writer.newRows ==>
      r !in writer.delRows && 1 <= r <= im.maxid && Sees(im, writer, r) && !Sees(im, IDLE, r)
    ensures r in writer.delRows ==> 1 <= r <= im.maxid && !Sees(im, writer, r) && Sees(im, IDLE, r)
    ensures r !in writer.newRows && r !in writer.delRows ==> (Sees(im, writer, r) <==> Sees(im, IDLE, r))
  {
    NoneZero(im, rows, writer, r);
    SeenLive(im, writer, r);
    SeenLive(im, IDLE, r);
  }

  lemma MarkedLive(im: Image, im1: Image, marked: set<nat>, rows: set<nat>)
    requires AllMarked(im, im1, marked) && forall r :: r in rows ==> IsLive(im, r)
    ensures forall r :: r in rows ==> IsLive(im1, r)
  {
    forall r | r in rows
      ensures IsLive(im1, r)
    {
      assert RowMarked(im, im1, marked, r);
    }
  }

  lemma Gone(im: Image, im': Image, rows: Rows, writer: Conn, gone: set<nat>)
    requires AllGone(im, im', gone) && Indexed(im, rows, 0)
    ensures Indexed(im', rows - gone, 0)
  {
    forall r: nat | r != 0
      ensures RowIndexed(im', rows - gone, r)
    {
      assert RowIndexed(im, rows, r) && RowOrGone(im, im', gone, r);
    }
  }

  /** Without its new rows a table is as everybody else sees it. */
  lemma RolledBackRows(im: Image, im': Image, rows: Rows, writer: Conn)
    requires Formed(im) && Formed(im') && AllGone(im, im', writer.newRows)
    requires Indexed(im, rows, 0) && Owned(im, writer, 0)
    ensures Indexed(im', rows - writer.newRows, 0) && Owned(im', IDLE, 0)
    ensures Visible(im', IDLE) == Visible(im, IDLE)
  {
    Gone(im, im', rows, writer, writer.newRows);
    forall r: nat
      ensures RowOwned(im', IDLE, r) && (Sees(im', IDLE, r) <==> Sees(im, IDLE, r))
      ensures Sees(im, IDLE, r) ==> im'.blocks[r].row == im.blocks[r].row
    {
      NoneZero(im, rows, writer, r);
      assert RowOrGone(im, im', writer.newRows, r);
      SeenLive(im, IDLE, r);
      SeenLive(im', IDLE, r);
    }
  }

  /** With its new rows marked and its deleted rows gone a table is as its writer saw it. */
  lemma CommittedRows(im: Image, im1: Image, im': Image, rows: Rows, writer: Conn)
    requires Formed(im) && Formed(im1) && Formed(im')
    requires AllMarked(im, im1, writer.newRows) && AllGone(im1, im', writer.delRows)
    requires Indexed(im, rows, 0) && Owned(im, writer, 0)
    ensures Indexed(im', rows - writer.delRows, 0) && Owned(im', IDLE, 0)
    ensures Visible(im', IDLE) == Visible(im, writer)
  {
    forall r: nat
      ensures RowIndexed(im1, rows, r)
    {
      NoneZero(im, rows, writer, r);
      assert RowMarked(im, im1, writer.newRows, r);
    }
    Gone(im1, im', rows, writer, writer.delRows);
    forall r: nat
      ensures RowOwned(im', IDLE, r) && (Sees(im', IDLE, r) <==> Sees(im, writer, r))
      ensures Sees(im, writer, r) ==> im'.blocks[r].row == im.blocks[r].row
    {
      NoneZero(im, rows, writer, r);
      assert RowMarked(im, im1, writer.newRows, r) && RowOrGone(im1, im', writer.delRows, r);
      SeenLive(im, writer, r);
      SeenLive(im', IDLE, r);
    }
  }

  // ----- the committed rows are what is stored

  ghost function KeysOf(rows: Contents): Rows { map r | r in rows :: rows[r].key }

  lemma QuietAt(im: Image, rows: Rows, r: nat)
    requires Formed(im) && Indexed(im, rows, 0) && Owned(im, IDLE, 0)
    ensures r in rows <==> Sees(im, IDLE, r)
    ensures r in rows ==> rows[r] == im.blocks[r].row.key
    ensures Sees(im, IDLE, r) <==> IsLive(im, r)
  {
    NoneZero(im, rows, IDLE, r);
    SeenLive(im, IDLE, r);
  }

  /** With nobody writing, the live rows, the indexed rows and the visible rows are the same. */
  lemma QuietRows(im: Image, rows: Rows)
    requires Formed(im) && Indexed(im, rows, 0) && Owned(im, IDLE, 0)
    ensures rows == KeysOf(Visible(im, IDLE)) && |Visible(im, IDLE)| + |im.free| == im.maxid
  {
    var seen := Visible(im, IDLE);
    forall r: nat
      ensures (r in rows <==> r in seen) && (r in rows ==> rows[r] == seen[r].key)
    {
      QuietAt(im, rows, r);
    }
    QuietCount(im, rows);
  }

  lemma QuietCount(im: Image, rows: Rows)
    requires Formed(im) && Indexed(im, rows, 0) && Owned(im, IDLE, 0)
    ensures |Visible(im, IDLE)| + |im.free| == im.maxid
  {
    var seen := Visible(im, IDLE);
    var live := LiveIds(im.maxid, im.free);
    forall r: nat
      ensures r in seen.Keys <==> r in live
    {
      QuietAt(im, rows, r);
    }
    assert seen.Keys == live;
    LivePartition(im.blocks, im.free, im.maxid);
  }

  // ----- keys

  lemma UniqueWith(rows: Contents, x: nat, row: Row)
    requires UniqueKeys(rows) && forall r :: r in rows ==> rows[r].key != row.key
    ensures UniqueKeys(rows[x := row])
  {
  }

  lemma UniqueWithout(rows: Contents, x: nat)
    requires UniqueKeys(rows)
    ensures UniqueKeys(rows - {x})
  {
  }

  lemma KeyGone(rows: Contents, x: nat, k: Key)
    requires UniqueKeys(rows) && x in rows && (rows[x].key == k || forall r :: r in rows ==> rows[r].key != k)
    ensures forall r :: r in rows - {x} ==> rows[r].key != k
  {
  }

  lemma UniqueOver(rows: Contents, x: nat, row: Row)
    requires UniqueKeys(rows) && x in rows && rows[x].key == row.key
    ensures UniqueKeys(rows[x := row])
  {
  }

  lemma PutBack(rows: Rows, x: nat, k: Key)
    ensures (rows - {x})[x := k] == rows[x := k]
  {
  }

  lemma PutSame(rows: Rows, x: nat)
    requires x in rows
    ensures rows[x := rows[x]] == rows
  {
  }
}
