/**
A table with one hash index, and the connections that read and write it. A writer holds
the table's write lock; its new rows are marked TRANS and its deletions noted until commit.
*/
module Table {
  import opened RowWord
  import opened Keys
  import opened RowGroups
  import opened Store
  import opened TxSpec
  import opened TableRows
  import HD = HashDup
  import HI = HashIndex

  /** Mentioned where the inside of a valid index matters. */
  ghost predicate Inside(n: nat) { true }

  /** Only the row sets of connection c may have changed. */
  ghost predicate OnlyRows(conns: map<nat, Conn>, conns': map<nat, Conn>, c: nat) {
    && c in conns && c in conns' && conns' == conns[c := conns'[c]]
    && conns'[c].inTrans == conns[c].inTrans && conns'[c].auto == conns[c].auto
  }

  lemma OnlyRowsTwice(a: map<nat, Conn>, b: map<nat, Conn>, d: map<nat, Conn>, c: nat)
    requires OnlyRows(a, b, c) && OnlyRows(b, d, c)
    ensures OnlyRows(a, d, c)
  {
  }

  lemma SameConn(conns: map<nat, Conn>, c: nat)
    requires c in conns
    ensures OnlyRows(conns, conns, c) && conns == conns[c := conns[c]]
  {
  }

  class Table {
    const store: Store
    const index: HI.HashIndex
    var conns: map<nat, Conn>
    var lock: Lock

    ghost function Im(): Image
      reads store
    {
      Image(store.blocks, store.maxid, store.free)
    }

    ghost function Writer(): Conn
      reads this
    {
      if lock.LockedBy? && lock.conn in conns then conns[lock.conn] else IDLE
    }

    /** The rows as every connection sees them. */
    ghost function Abs(): Spec
      reads this, store
    {
      Spec(Visible(Im(), IDLE), lock, Visible(Im(), Writer()))
    }

    /** The index is valid; what that means stays folded until `Inside` is mentioned. */
    ghost predicate IndexOk()
      reads index
    {
      forall n {:trigger Inside(n)} :: Inside(n) ==> index.Valid()
    }

    ghost predicate Stored(limbo: nat)
      reads this, store, index
    {
      && store.Valid() && IndexOk()
      && store.maxid < |index.node| && 1 < |index.node| && store.maxid < RID_LIMIT
      && Indexed(Im(), index.rows, limbo) && Owned(Im(), Writer(), limbo)
    }

    /** Only the writer has open rows. */
    ghost predicate ConnsOk()
      reads this
    {
      && (lock.LockedBy? ==> lock.conn in conns && conns[lock.conn].inTrans)
      && forall c :: c in conns && lock != LockedBy(c) ==> conns[c].newRows == {} && conns[c].delRows == {}
    }

    /** A unique index keeps both the committed rows and the writer's rows free of duplicates. */
    ghost predicate NoDuplicates()
      reads this, store, index
    {
      index.unique ==> UniqueKeys(Abs().committed) && UniqueKeys(Abs().work)
    }

    ghost predicate ValidBut(limbo: nat)
      reads this, store, index
    {
      Stored(limbo) && ConnsOk() && NoDuplicates()
    }

    ghost predicate Valid()
      reads this, store, index
    {
      ValidBut(0)
    }

    constructor (store: Store, index: HI.HashIndex)
      requires store.Valid() && store.maxid == 0 && index.Valid() && index.rows == map[] && |index.node| == 9
      ensures Valid() && this.store == store && this.index == index && conns == map[] && lock == Unlocked
      ensures Abs() == Spec(map[], Unlocked, map[])
    {
      this.store, this.index, conns, lock := store, index, map[], Unlocked;
    }

    /** What makes a table valid, with c as its writer. */
    ghost predicate Holds(c: nat, conn: Conn, limbo: nat)
      reads this, store, index
    {
      && store.Valid() && IndexOk() && ConnsOk() && lock == LockedBy(c) && conn.inTrans
      && store.maxid < |index.node| && 1 < |index.node| && store.maxid < RID_LIMIT
      && Indexed(Im(), index.rows, limbo) && Owned(Im(), conn, limbo)
      && (index.unique ==> UniqueKeys(Visible(Im(), IDLE)) && UniqueKeys(Visible(Im(), conn)))
    }

    /** The writer's row sets change. */
    method SetConn(c: nat, conn: Conn, ghost limbo: nat)
      requires Holds(c, conn, limbo)
      modifies this`conns
      ensures ValidBut(limbo) && conns == old(conns)[c := conn] && lock == LockedBy(c)
      ensures Abs() == Spec(Visible(Im(), IDLE), lock, Visible(Im(), conn))
    {
      conns := conns[c := conn];
    }

    lemma HoldsIsValid(c: nat, limbo: nat)
      requires c in conns && Holds(c, conns[c], limbo)
      ensures ValidBut(limbo) && Abs() == Spec(Visible(Im(), IDLE), lock, Visible(Im(), conns[c]))
    {
    }

    // ----- inserting

    /** With no block free a row takes the next id; the room grows when it must. */
    ghost predicate NextTaken(maxid: nat, cap: int, more: nat)
      reads store
    {
      store.free == [] && store.maxid == maxid + 1 && store.Cap() == if maxid == cap then cap + more else cap
    }

    /** A block for a new row, with the row written to it. */
    method AllocRow(row: Row, more: seq<Block>) returns (rid: int)
      requires store.Valid() && |more| in {0, store.Cap()}
      modifies store
      ensures store.Valid() && (store.maxid == old(store.maxid) || store.maxid == rid == old(store.maxid) + 1)
      ensures rid == -1 <==> old(store.free) == [] && old(store.maxid) == old(store.Cap()) && more == []
      ensures rid == -1 ==> Im() == old(Im())
      ensures rid != -1 && old(store.free) == [] ==> NextTaken(old(store.maxid), old(store.Cap()), |more|)
      ensures rid != -1 ==>
        && 0 < rid <= store.maxid && SameBut(old(Im()), Im(), rid) && !IsLive(old(Im()), rid) && IsLive(Im(), rid)
        && rid < |store.blocks| && store.blocks[rid].ctrl == Trans && store.blocks[rid].row == row
    {
      ghost var im := Im();
      rid := store.Alloc(more);
      if rid == -1 {
        return;
      }
      store.Write(rid, Trans, row);
      forall r: nat | r != rid
        ensures RowKept(im, Im(), r)
      {
        assert IsLive(im, r) ==> LiveAt(im.blocks, r);
      }
    }

    /** Writes a live block. */
    method WriteRow(rid: nat, ctrl: Ctrl, row: Row)
      requires store.Valid() && IsLive(Im(), rid) && ctrl != Unused
      modifies store
      ensures store.Valid() && store.maxid == old(store.maxid) && SameBut(old(Im()), Im(), rid) && IsLive(Im(), rid)
      ensures rid < |store.blocks| && store.blocks[rid].ctrl == ctrl && store.blocks[rid].row == row
      ensures store.free == old(store.free) && store.Cap() == old(store.Cap())
    {
      ghost var im := Im();
      store.Write(rid, ctrl, row);
      forall r: nat | r != rid
        ensures RowKept(im, Im(), r)
      {
        assert IsLive(im, r) ==> LiveAt(im.blocks, r);
      }
    }

    /** Gives a block back. */
    method FreeRow(rid: nat)
      requires store.Valid() && IsLive(Im(), rid)
      modifies store
      ensures store.Valid() && store.maxid == old(store.maxid)
      ensures SameBut(old(Im()), Im(), rid) && !IsLive(Im(), rid)
    {
      ghost var im := Im();
      store.Release(rid);
      forall r: nat | r != rid
        ensures RowKept(im, Im(), r)
      {
        assert IsLive(im, r) ==> LiveAt(im.blocks, r);
      }
    }

    method Unindex(rid: nat)
      requires IndexOk() && 0 < rid < |index.node|
      modifies index
      ensures IndexOk() && |index.node| == old(|index.node|) && index.rows == old(index.rows) - {rid}
    {
      assert Inside(0);
      index.Remove(rid);
    }

    /** Adds a row to an index that refuses nothing. */
    method IndexAgain(c: nat, rid: nat, key: Key)
      requires store.Valid() && IndexOk() && c in conns && !index.unique
      requires rid !in index.rows && 0 < rid < RID_LIMIT && rid < |index.node|
      modifies index
      ensures IndexOk() && |index.node| == old(|index.node|) && index.rows == old(index.rows)[rid := key]
    {
      assert Inside(0);
      var seen := SeenBy(conns[c]);
      var rc := index.Add(rid, key, seen, true);
    }

    /** The row ids that a connection sees. */
    method SeenBy(conn: Conn) returns (seen: set<nat>)
      requires store.Valid()
      ensures forall r: nat :: r in seen <==> Sees(Im(), conn, r)
    {
      seen := set r: nat | 1 <= r <= store.maxid && RowValid(conn, store.blocks[r].ctrl, r);
    }

    /**
    Inserts a row. It is refused when no block is left, and when the index is unique and
    the connection sees a row with that key.
    */
    method InsertRow(c: nat, row: Row, more: seq<Block>, ghost limbo: nat) returns (rid: int)
      requires ValidBut(limbo) && lock == LockedBy(c) && |more| in {0, store.Cap()} && store.maxid + 1 < RID_LIMIT
      modifies this, store, index
      ensures ValidBut(limbo) && lock == LockedBy(c) && OnlyRows(old(conns), conns, c) &&
        store.maxid <= old(store.maxid) + 1
      ensures conns[c] == old(conns)[c].(newRows := conns[c].newRows)
      ensures rid != -1 && old(store.free) == [] ==> NextTaken(old(store.maxid), old(store.Cap()), |more|)
      ensures rid == -1 <==>
        || (old(store.free) == [] && old(store.maxid) == old(store.Cap()) && more == [])
        || (index.unique && exists r :: r in old(Abs()).work && old(Abs()).work[r].key == row.key)
      ensures rid == -1 ==> Abs() == old(Abs())
      ensures rid != -1 ==>
        rid > 0 && rid !in old(Abs()).committed && rid !in old(Abs()).work &&
          Abs() == Step(old(Abs()), Put(c, rid, row))
    {
      ghost var im, rows := Im(), index.rows;
      SameConn(conns, c);
      rid := AllocRow(row, more);
      if rid == -1 {
        return;
      }
      var rc := IndexRow(c, rid, row.key, im, limbo);
      if rc == Status.Ok {
        KeepRow(c, rid, row, im, rows, limbo);
      } else {
        UndoRow(c, rid, im, limbo);
        rid := -1;
      }
    }

    /** An indexed new row becomes one of its writer's. */
    method KeepRow(c: nat, rid: nat, row: Row, ghost im: Image, ghost rows: Rows, ghost limbo: nat)
      requires store.Valid() && IndexOk() && ConnsOk() && lock == LockedBy(c)
      requires store.maxid < |index.node| && 1 < |index.node| && store.maxid < RID_LIMIT
      requires Formed(im) && SameBut(im, Im(), rid) && !IsLive(im, rid) && IsLive(Im(), rid)
      requires rid < |store.blocks| && store.blocks[rid].ctrl == Trans && store.blocks[rid].row == row
      requires Indexed(im, rows, limbo) && Owned(im, conns[c], limbo) && index.rows == rows[rid := row.key]
      requires index.unique ==> UniqueKeys(Visible(im, IDLE)) && UniqueKeys(Visible(im, conns[c]))
      requires index.unique ==> forall r :: r in Visible(im, conns[c]) ==> Visible(im, conns[c])[r].key != row.key
      modifies this`conns
      ensures ValidBut(limbo) && OnlyRows(old(conns), conns, c)
      ensures conns[c] == old(conns)[c].(newRows := conns[c].newRows)
      ensures rid !in Visible(im, IDLE) && rid !in Visible(im, old(conns)[c])
      ensures Abs() == Spec(Visible(im, IDLE), lock, Visible(im, old(conns)[c])[rid := row])
    {
      RowCame(im, Im(), rows, conns[c], rid, row, limbo);
      if index.unique {
        UniqueWith(Visible(im, conns[c]), rid, row);
      }
      SetConn(c, conns[c].(newRows := conns[c].newRows + {rid}), limbo);
    }

    /** A refused row gives its block back. */
    method UndoRow(c: nat, rid: nat, ghost im: Image, ghost limbo: nat)
      requires store.Valid() && IndexOk() && ConnsOk() && lock == LockedBy(c)
      requires store.maxid < |index.node| && 1 < |index.node| && store.maxid < RID_LIMIT
      requires Formed(im) && SameBut(im, Im(), rid) && !IsLive(im, rid) && IsLive(Im(), rid)
      requires Indexed(im, index.rows, limbo) && Owned(im, conns[c], limbo)
      requires index.unique ==> UniqueKeys(Visible(im, IDLE)) && UniqueKeys(Visible(im, conns[c]))
      modifies store
      ensures ValidBut(limbo) && Abs() == Spec(Visible(im, IDLE), lock, Visible(im, conns[c]))
      ensures store.maxid == old(store.maxid)
    {
      ghost var im1 := Im();
      FreeRow(rid);
      SameButAgain(im, im1, Im(), rid);
      RowMissed(im, Im(), index.rows, conns[c], rid, limbo);
    }

    /** Adds the row of a new block to the index, or is refused. */
    method IndexRow(c: nat, rid: nat, key: Key, ghost im: Image, ghost limbo: nat) returns (rc: Status)
      requires store.Valid() && IndexOk() && c in conns && 0 < rid <= store.maxid < RID_LIMIT && rid <= |index.node|
      requires 1 < |index.node| && Formed(im) && SameBut(im, Im(), rid) && !IsLive(im, rid) && IsLive(Im(), rid)
      requires rid < |store.blocks| && store.blocks[rid].ctrl == Trans
      requires Indexed(im, index.rows, limbo) && Owned(im, conns[c], limbo)
      modifies index
      ensures IndexOk() && rid < |index.node| && old(|index.node|) <= |index.node|
      ensures rc == Exists <==>
        index.unique && exists r :: r in Visible(im, conns[c]) && Visible(im, conns[c])[r].key == key
      ensures index.rows == if rc == Exists then old(index.rows) else old(index.rows)[rid := key]
    {
      assert Inside(0);
      var seen := SeenBy(conns[c]);
      KeyAmongVisible(im, Im(), index.rows, conns[c], rid, key, seen, limbo);
      rc := index.Add(rid, key, seen, true);
    }

    // ----- deleting and updating

    /**
    Takes a row out of its writer's view. A new row leaves the index at once, and the block
    is still to be given back; a committed row is only noted.
    */
    method UpdDel(c: nat, rid: nat) returns (gone: bool)
      requires Valid() && lock == LockedBy(c) && Sees(Im(), conns[c], rid)
      modifies this`conns, index
      ensures ValidBut(if gone then rid else 0) && lock == LockedBy(c) && rid != 0 && OnlyRows(old(conns), conns, c)
      ensures gone <==> store.blocks[rid].ctrl == Trans
      ensures Abs() == Step(old(Abs()), Gone(c, rid))
    {
      gone := store.blocks[rid].ctrl == Trans;
      RowRole(c, rid);
      if gone {
        TakeOut(c, rid);
      } else {
        Note(c, rid);
      }
    }

    lemma RowRole(c: nat, rid: nat)
      requires Valid() && lock == LockedBy(c) && Sees(Im(), conns[c], rid)
      ensures rid in conns[c].newRows <==> store.blocks[rid].ctrl == Trans
      ensures 0 < rid < |index.node|
    {
      SeenLive(Im(), conns[c], rid);
      NoneZero(Im(), index.rows, conns[c], rid);
    }

    method TakeOut(c: nat, rid: nat)
      requires Valid() && lock == LockedBy(c) && rid in conns[c].newRows && 0 < rid < |index.node|
      modifies this`conns, index
      ensures ValidBut(rid) && Abs() == Step(old(Abs()), Gone(c, rid)) && OnlyRows(old(conns), conns, c)
    {
      RowLeft(Im(), index.rows, conns[c], rid);
      if index.unique {
        UniqueWithout(Abs().work, rid);
      }
      Unindex(rid);
      SetConn(c, conns[c].(newRows := conns[c].newRows - {rid}), rid);
    }

    lemma NotedHolds(c: nat, conn: Conn, rid: nat)
      requires Valid() && lock == LockedBy(c) && Sees(Im(), conns[c], rid) && rid !in conns[c].newRows
      requires conn == conns[c].(delRows := conns[c].delRows + {rid})
      ensures Holds(c, conn, 0) && Visible(Im(), conn) == Abs().work - {rid}
    {
      RowNoted(Im(), conns[c], rid);
      if index.unique {
        UniqueWithout(Abs().work, rid);
      }
    }

    method Note(c: nat, rid: nat)
      requires Valid() && lock == LockedBy(c) && Sees(Im(), conns[c], rid) && rid !in conns[c].newRows
      modifies this`conns
      ensures Valid() && Abs() == Step(old(Abs()), Gone(c, rid)) && OnlyRows(old(conns), conns, c)
    {
      var conn := conns[c].(delRows := conns[c].delRows + {rid});
      NotedHolds(c, conn, rid);
      SetConn(c, conn, 0);
    }

    /** The block of a row taken out before. */
    method GiveBack(rid: nat)
      requires ValidBut(rid) && rid != 0
      modifies store
      ensures Valid() && Abs() == old(Abs()) && store.maxid == old(store.maxid)
    {
      ghost var im := Im();
      FreeRow(rid);
      LimboGone(im, Im(), index.rows, Writer(), rid);
    }

    /** Deletes a row its writer sees. */
    method Delete(c: nat, rid: nat)
      requires Valid() && lock == LockedBy(c) && Sees(Im(), conns[c], rid)
      modifies this, store, index
      ensures Valid() && lock == LockedBy(c) && OnlyRows(old(conns), conns, c)
      ensures Enabled(old(Abs()), Gone(c, rid)) && Abs() == Step(old(Abs()), Gone(c, rid))
    {
      var gone := UpdDel(c, rid);
      if gone {
        GiveBack(rid);
      }
    }

    /** Inserts a row. */
    method Insert(c: nat, row: Row, more: seq<Block>) returns (rid: int)
      requires Valid() && lock == LockedBy(c) && |more| in {0, store.Cap()} && store.maxid + 1 < RID_LIMIT
      modifies this, store, index
      ensures Valid() && lock == LockedBy(c) && OnlyRows(old(conns), conns, c) && store.maxid <= old(store.maxid) + 1
      ensures conns[c] == old(conns)[c].(newRows := conns[c].newRows)
      ensures rid != -1 && old(store.free) == [] ==> NextTaken(old(store.maxid), old(store.Cap()), |more|)
      ensures rid == -1 <==>
        || (old(store.free) == [] && old(store.maxid) == old(store.Cap()) && more == [])
        || (index.unique && exists r :: r in old(Abs()).work && old(Abs()).work[r].key == row.key)
      ensures rid == -1 ==> Abs() == old(Abs())
      ensures rid != -1 ==>
        rid > 0 && rid !in old(Abs()).committed && rid !in old(Abs()).work &&
          Abs() == Step(old(Abs()), Put(c, rid, row))
    {
      rid := InsertRow(c, row, more, 0);
    }

    /** A new row is written over where it is, its key the same. */
    method Overwrite(c: nat, rid: nat, row: Row)
      requires Valid() && lock == LockedBy(c) && rid in conns[c].newRows && rid in Abs().work &&
        row.key == Abs().work[rid].key
      modifies store
      ensures Valid() && Abs() == Step(old(Abs()), Put(c, rid, row)) && store.maxid == old(store.maxid)
    {
      ghost var im, rows, work := Im(), index.rows, Abs().work;
      NoneZero(im, rows, conns[c], rid);
      WriteRow(rid, Trans, row);
      RowRewritten(im, Im(), rows, conns[c], rid, row);
      PutSame(rows, rid);
      if index.unique {
        UniqueOver(work, rid, row);
      }
    }

    /** A new row is written over where it is, and moves in the index. */
    method Reindex(c: nat, rid: nat, row: Row)
      requires Valid() && lock == LockedBy(c) && rid in conns[c].newRows && !index.unique
      modifies store, index
      ensures Valid() && Abs() == Step(old(Abs()), Put(c, rid, row)) && store.maxid == old(store.maxid)
    {
      ghost var im, rows := Im(), index.rows;
      NoneZero(im, rows, conns[c], rid);
      Unindex(rid);
      WriteRow(rid, Trans, row);
      RowRewritten(im, Im(), rows, conns[c], rid, row);
      IndexAgain(c, rid, row.key);
      PutBack(rows, rid, row.key);
      HoldsIsValid(c, 0);
    }

    /** Whether an update rewrites the row where it is. */
    predicate InPlace(rid: nat, affects: bool)
      requires rid < |store.blocks|
      reads store, index
    {
      store.blocks[rid].ctrl == Trans && !(affects && index.unique)
    }

    /** Rewrites a new row where it is. */
    method Rewrite(c: nat, rid: nat, row: Row, affects: bool)
      requires Valid() && lock == LockedBy(c) && rid in conns[c].newRows && !(affects && index.unique)
      requires !affects ==> rid in Abs().work && row.key == Abs().work[rid].key
      modifies store, index
      ensures Valid() && Abs() == Step(old(Abs()), Put(c, rid, row)) && store.maxid == old(store.maxid)
    {
      if affects {
        Reindex(c, rid, row);
      } else {
        Overwrite(c, rid, row);
      }
    }

    /** Takes a row out and inserts its new version as a row of its own. */
    method Replace(c: nat, rid: nat, row: Row, more: seq<Block>) returns (newid: int)
      requires Valid() && lock == LockedBy(c) && Sees(Im(), conns[c], rid)
      requires |more| in {0, store.Cap()} && store.maxid + 1 < RID_LIMIT
      modifies this, store, index
      ensures Valid() && lock == LockedBy(c) && OnlyRows(old(conns), conns, c) && store.maxid <= old(store.maxid) + 1
      ensures var less := Step(old(Abs()), Gone(c, rid));
        && (newid == -1 ==> Abs() == less)
        && (newid != -1 ==>
              newid > 0 && newid !in less.committed && newid !in less.work && Abs() == Step(less, Put(c, newid, row)))
        && (newid == -1 <==>
              || (old(store.free) == [] && old(store.maxid) == old(store.Cap()) && more == [])
              || (index.unique && exists r :: r in less.work && less.work[r].key == row.key))
    {
      ghost var conns0 := conns;
      var gone := UpdDel(c, rid);
      ghost var conns1 := conns;
      newid := InsertRow(c, row, more, if gone then rid else 0);
      OnlyRowsTwice(conns0, conns1, conns, c);
      if gone {
        GiveBack(rid);
      }
    }

    /** The row a duplicate search for a key answers with, as connection c sees the table. */
    ghost function Duplicate(c: nat, k: Key): nat
      requires c in conns
      reads this, store, index
    {
      HD.Duplicate(index, k, Visible(Im(), conns[c]).Keys)
    }

    method FindDuplicate(c: nat, k: Key) returns (rid: nat)
      requires store.Valid() && IndexOk() && c in conns
      ensures rid == Duplicate(c, k)
    {
      assert Inside(0);
      var seen := SeenBy(conns[c]);
      assert seen == Visible(Im(), conns[c]).Keys;
      rid := HD.QueryDup(index, k, seen);
    }

    /** What a connection sees of the indexed rows with a key. */
    lemma KeyInView(c: nat, k: Key)
      requires Valid() && c in conns
      ensures KeySeen(index.rows, k, Visible(Im(), conns[c]).Keys) <==>
        exists r: nat :: r in View(Abs(), c) && View(Abs(), c)[r].key == k
      ensures forall r: nat :: r in index.rows && r in View(Abs(), c) ==> View(Abs(), c)[r].key == index.rows[r]
    {
      SeesItsView(c);
      forall r: nat
        ensures r in View(Abs(), c) ==> r in index.rows && View(Abs(), c)[r].key == index.rows[r]
      {
        NoneZero(Im(), index.rows, Writer(), r);
        SeenLive(Im(), conns[c], r);
      }
    }

    /** Where no other key has its hash word, the duplicate search finds a visible row with the key or says none is. */
    lemma DuplicateRight(c: nat, k: Key)
      requires Valid() && c in conns && HD.NoClash(index.rows, index.hash, k)
      ensures Duplicate(c, k) == 0 <==> forall r: nat :: r in View(Abs(), c) ==> View(Abs(), c)[r].key != k
      ensures Duplicate(c, k) != 0 ==> Duplicate(c, k) in View(Abs(), c) && View(Abs(), c)[Duplicate(c, k)].key == k
    {
      assert Inside(0);
      SeesItsView(c);
      KeyInView(c, k);
      HD.NoClashRight(index, k, Visible(Im(), conns[c]).Keys);
    }

    /** So without a clash of hash words only a lack of room refuses the second half of an update. */
    lemma OnlyRoom(c: nat, rid: nat, row: Row, affects: bool)
      requires Valid() && lock == LockedBy(c) && rid in Abs().work && index.unique
      requires affects ==> HD.NoClash(index.rows, index.hash, row.key) && Duplicate(c, row.key) in {0, rid}
      requires !affects ==> row.key == Abs().work[rid].key
      ensures var less := Step(Abs(), Gone(c, rid)); forall r :: r in less.work ==> less.work[r].key != row.key
    {
      if affects {
        DuplicateRight(c, row.key);
        assert View(Abs(), c) == Abs().work;
      }
      KeyGone(Abs().work, rid, row.key);
    }

    /**
    Updates a row its writer sees; `affects` is whether an indexed column is set. Unless it
    is rewritten in place, the row is taken out first and its new version inserted as a row
    of its own: when that insert is refused, the old version stays away.
    */
    method Update(c: nat, rid: nat, row: Row, affects: bool, more: seq<Block>) returns (ok: bool, newid: int)
      requires Valid() && lock == LockedBy(c) && Sees(Im(), conns[c], rid)
      requires !affects ==> row.key == store.blocks[rid].row.key
      requires |more| in {0, store.Cap()} && store.maxid + 1 < RID_LIMIT
      modifies this, store, index
      ensures Valid() && lock == LockedBy(c) && OnlyRows(old(conns), conns, c) && store.maxid <= old(store.maxid) + 1
      ensures ok <==> !(affects && index.unique && old(Duplicate(c, row.key)) !in {0, rid})
      ensures !ok ==> Abs() == old(Abs()) && newid == -1
      ensures ok && old(InPlace(rid, affects)) ==> newid == rid && Abs() == Step(old(Abs()), Put(c, rid, row))
      ensures ok && !old(InPlace(rid, affects)) ==>
        var less := Step(old(Abs()), Gone(c, rid));
        && (newid == -1 ==> Abs() == less)
        && (newid != -1 ==>
              newid > 0 && newid !in less.committed && newid !in less.work && Abs() == Step(less, Put(c, newid, row)))
        && (newid == -1 <==>
              || (old(store.free) == [] && old(store.maxid) == old(store.Cap()) && more == [])
              || (index.unique && exists r :: r in less.work && less.work[r].key == row.key))
    {
      newid := -1;
      SameConn(conns, c);
      if affects && index.unique {
        var dup := FindDuplicate(c, row.key);
        if dup > 0 && dup != rid {
          return false, -1;
        }
      }
      RowRole(c, rid);
      ok := true;
      if store.blocks[rid].ctrl == Trans && !(affects && index.unique) {
        Rewrite(c, rid, row, affects);
        newid := rid;
      } else {
        newid := Replace(c, rid, row, more);
      }
    }

    // ----- ending a transaction

    /** Commits the new rows of a set, in ascending order. */
    method MarkRows(rows: set<nat>)
      requires store.Valid() && forall r :: r in rows ==> IsLive(Im(), r)
      modifies store
      ensures store.Valid() && store.maxid == old(store.maxid) && AllMarked(old(Im()), Im(), rows)
      ensures store.free == old(store.free) && store.Cap() == old(store.Cap())
    {
      ghost var im := Im();
      ghost var done: set<nat> := {};
      SameMarked(im);
      for r := 1 to store.maxid + 1
        invariant store.Valid() && store.maxid == old(store.maxid)
        invariant store.free == old(store.free) && store.Cap() == old(store.Cap())
        invariant (forall x :: x in done <==> x in rows && x < r) && AllMarked(im, Im(), done)
      {
        if r in rows {
          ghost var im1 := Im();
          assert RowMarked(im, im1, done, r);
          WriteRow(r, Ctrl.Commit, store.blocks[r].row);
          OneMoreMarked(im, im1, Im(), done, r);
          done := done + {r};
        }
      }
      assert forall x :: x in rows ==> x < old(store.maxid) + 1;
      assert done == rows;
    }

    /** Takes the rows of a set out of the index and gives their blocks back, in ascending order. */
    method DropRows(rows: set<nat>)
      requires store.Valid() && IndexOk() && store.maxid < |index.node| && forall r :: r in rows ==> IsLive(Im(), r)
      modifies store, index
      ensures store.Valid() && IndexOk() && store.maxid == old(store.maxid) && |index.node| == old(|index.node|)
      ensures AllGone(old(Im()), Im(), rows) && index.rows == old(index.rows) - rows
      ensures rows == {} ==> store.free == old(store.free) && store.Cap() == old(store.Cap())
    {
      ghost var im, rows0 := Im(), index.rows;
      ghost var done: set<nat> := {};
      NoneGone(im);
      for r := 1 to store.maxid + 1
        invariant store.Valid() && store.maxid == old(store.maxid)
        invariant IndexOk() && |index.node| == old(|index.node|) && index.rows == rows0 - done
        invariant rows == {} ==> store.free == old(store.free) && store.Cap() == old(store.Cap())
        invariant (forall x :: x in done <==> x in rows && x < r) && AllGone(im, Im(), done)
      {
        if r in rows {
          ghost var im1 := Im();
          assert RowOrGone(im, im1, done, r);
          Unindex(r);
          FreeRow(r);
          OneMoreGone(im, im1, Im(), done, r);
          done := done + {r};
        }
      }
      assert done == rows;
    }

    /** Ends the transaction of c and releases the table when c held it. */
    method Unlock(c: nat)
      requires c in conns
      modifies this
      ensures conns == old(conns)[c := IDLE] && lock == if old(lock) == LockedBy(c) then Unlocked else old(lock)
    {
      conns := conns[c := IDLE];
      if lock == LockedBy(c) {
        lock := Unlocked;
      }
    }

    /** Commits: from now on everybody sees the table as its writer did. */
    method Commit(c: nat)
      requires Valid() && c in conns
      modifies this, store, index
      ensures Valid() && conns == old(conns)[c := if old(conns)[c].inTrans then IDLE else old(conns)[c]]
      ensures Abs() == if old(lock) == LockedBy(c) then Step(old(Abs()), Committed(c)) else old(Abs())
      ensures lock == if old(lock) == LockedBy(c) then Unlocked else old(lock)
      ensures store.maxid == old(store.maxid)
      ensures old(conns)[c].delRows == {} ==> store.free == old(store.free) && store.Cap() == old(store.Cap())
    {
      if !conns[c].inTrans {
        return;
      }
      if lock == LockedBy(c) {
        CommitRows(c);
      }
      Unlock(c);
    }

    method CommitRows(c: nat)
      requires Valid() && lock == LockedBy(c)
      modifies store, index
      ensures store.Valid() && IndexOk() && store.maxid == old(store.maxid) && |index.node| == old(|index.node|)
      ensures Indexed(Im(), index.rows, 0) && Owned(Im(), IDLE, 0) && Visible(Im(), IDLE) == old(Abs()).work
      ensures conns[c].delRows == {} ==> store.free == old(store.free) && store.Cap() == old(store.Cap())
    {
      ghost var im, rows, conn := Im(), index.rows, conns[c];
      OpenLive(im, rows, conn);
      MarkRows(conns[c].newRows);
      ghost var im1 := Im();
      MarkedLive(im, im1, conn.newRows, conn.delRows);
      DropRows(conns[c].delRows);
      CommittedRows(im, im1, Im(), rows, conn);
    }

    /** Rolls back: the table is as everybody else saw it. */
    method Rollback(c: nat)
      requires Valid() && c in conns
      modifies this, store, index
      ensures Valid() && conns == old(conns)[c := if old(conns)[c].inTrans then IDLE else old(conns)[c]]
      ensures Abs() == if old(lock) == LockedBy(c) then Step(old(Abs()), RolledBack(c)) else old(Abs())
      ensures lock == if old(lock) == LockedBy(c) then Unlocked else old(lock)
      ensures old(lock) == LockedBy(c) ==>
        index.rows == KeysOf(old(Abs()).committed) && store.alloc == |old(Abs()).committed|
    {
      ghost var held := lock == LockedBy(c);
      RollbackAll(c);
      if held {
        NothingElse();
      }
    }

    method RollbackAll(c: nat)
      requires Valid() && c in conns
      modifies this, store, index
      ensures Valid() && conns == old(conns)[c := if old(conns)[c].inTrans then IDLE else old(conns)[c]]
      ensures Abs() == if old(lock) == LockedBy(c) then Step(old(Abs()), RolledBack(c)) else old(Abs())
      ensures lock == if old(lock) == LockedBy(c) then Unlocked else old(lock)
    {
      if !conns[c].inTrans {
        return;
      }
      if lock == LockedBy(c) {
        RollbackRows(c);
      }
      Unlock(c);
    }

    method RollbackRows(c: nat)
      requires Valid() && lock == LockedBy(c)
      modifies store, index
      ensures store.Valid() && IndexOk() && store.maxid == old(store.maxid) && |index.node| == old(|index.node|)
      ensures Indexed(Im(), index.rows, 0) && Owned(Im(), IDLE, 0) && Visible(Im(), IDLE) == old(Abs()).committed
    {
      ghost var im, rows, conn := Im(), index.rows, conns[c];
      OpenLive(im, rows, conn);
      DropRows(conns[c].newRows);
      RolledBackRows(im, Im(), rows, conn);
    }

    // ----- starting a transaction

    /** A new connection. */
    method Connect(c: nat)
      requires Valid() && c !in conns
      modifies this`conns
      ensures Valid() && conns == old(conns)[c := IDLE] && Abs() == old(Abs()) && lock == old(lock)
    {
      assert lock != LockedBy(c);
      conns := conns[c := IDLE];
    }

    /** Starts a transaction; one that is open is committed first. */
    method Begin(c: nat, auto: bool)
      requires Valid() && c in conns
      modifies this, store, index
      ensures Valid() && conns == old(conns)[c := Conn(true, auto, {}, {})]
      ensures !old(conns)[c].inTrans ==> unchanged(store) && unchanged(index)
      ensures Abs() == if old(lock) == LockedBy(c) then Step(old(Abs()), Committed(c)) else old(Abs())
      ensures lock == if old(lock) == LockedBy(c) then Unlocked else old(lock)
    {
      if conns[c].inTrans {
        Commit(c);
      }
      Start(c, auto);
    }

    /** A connection without the lock has no rows open, so its entry is free to change. */
    method Start(c: nat, auto: bool)
      requires Valid() && c in conns && lock != LockedBy(c)
      modifies this`conns
      ensures Valid() && conns == old(conns)[c := Conn(true, auto, {}, {})] && Abs() == old(Abs())
    {
      conns := conns[c := Conn(true, auto, {}, {})];
    }

    /** Takes the write lock, which must be free or already c's; starts a transaction when none is open. */
    method WrLock(c: nat, auto: bool)
      requires Valid() && c in conns && lock in {Unlocked, LockedBy(c)}
      modifies this, store, index
      ensures Valid() && lock == LockedBy(c)
      ensures conns == old(conns)[c := if old(conns)[c].inTrans then old(conns)[c] else Conn(true, auto, {}, {})]
      ensures unchanged(store) && unchanged(index)
      ensures Abs() == if old(lock) == LockedBy(c) then old(Abs()) else Step(old(Abs()), Locked(c))
    {
      SameConn(conns, c);
      if !conns[c].inTrans {
        Begin(c, auto);
      }
      if lock == Unlocked {
        SameSets(Im(), IDLE, conns[c]);
        lock := LockedBy(c);
        HoldsIsValid(c, 0);
      }
    }

    // ----- what connections see

    /** The view that control bits and row sets give a connection is the one it is promised. */
    lemma SeesItsView(c: nat)
      requires Valid() && c in conns
      ensures Visible(Im(), conns[c]) == View(Abs(), c)
    {
      if lock != LockedBy(c) {
        SameSets(Im(), IDLE, conns[c]);
      }
    }

    /** With nobody writing, index and allocator hold exactly the committed rows. */
    lemma NothingElse()
      requires Valid() && lock == Unlocked
      ensures index.rows == KeysOf(Abs().committed) && store.alloc == |Abs().committed|
    {
      QuietRows(Im(), index.rows);
    }

    /** While the writer has changed nothing that is so too. */
    lemma NothingYet(c: nat)
      requires Valid() && lock == LockedBy(c) && conns[c].newRows == {} && conns[c].delRows == {}
      ensures index.rows == KeysOf(Abs().committed) && Abs().work == Abs().committed
    {
      SameSets(Im(), conns[c], IDLE);
      QuietRows(Im(), index.rows);
    }

    lemma KeyVisible(c: nat, k: Key, all: seq<nat>)
      requires Valid() && c in conns && forall r :: r in all <==> r in index.rows && index.rows[r] == k
      ensures forall r: nat :: r in all && Sees(Im(), conns[c], r) <==>
        r in View(Abs(), c) && View(Abs(), c)[r].key == k
      ensures forall r :: r in all ==> 1 <= r <= store.maxid < |store.blocks|
    {
      SeesItsView(c);
      forall r: nat
        ensures r in all && Sees(Im(), conns[c], r) <==> r in View(Abs(), c) && View(Abs(), c)[r].key == k
        ensures r in all ==> 1 <= r <= store.maxid
      {
        NoneZero(Im(), index.rows, Writer(), r);
        SeenLive(Im(), conns[c], r);
      }
    }

    /** The rows with key k that a connection sees, each once, through the index, by values that hash to h. */
    method Lookup(c: nat, k: Key, h: Word) returns (rids: seq<nat>)
      requires Valid() && c in conns
      ensures NoDup(rids)
      ensures forall r: nat :: r in rids <==> r in View(Abs(), c) && View(Abs(), c)[r].key == k && h == index.hash(k)
    {
      assert Inside(0);
      var all := index.Query(k, h);
      if h == index.hash(k) {
        KeyVisible(c, k, all);
      }
      rids := Seen(conns[c], all);
    }

    /** The row ids of a list that a connection sees. */
    method Seen(conn: Conn, all: seq<nat>) returns (rids: seq<nat>)
      requires NoDup(all) && forall r :: r in all ==> 1 <= r <= store.maxid < |store.blocks|
      ensures NoDup(rids) && forall r: nat :: r in rids <==> r in all && Sees(Im(), conn, r)
    {
      rids := [];
      for i := 0 to |all|
        invariant NoDup(rids) && forall r: nat :: r in rids <==> r in all[..i] && Sees(Im(), conn, r)
      {
        var r := all[i];
        assert r in all && r !in all[..i] && all[..i + 1] == all[..i] + [r];
        if RowValid(conn, store.blocks[r].ctrl, r) {
          rids := rids + [r];
        }
      }
      assert all[..|all|] == all;
    }
  }
}
