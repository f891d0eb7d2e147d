/**
The two logs of a database. Commits go to the active log; a flush switches the logs,
writes the tables and then clears the log that is now the backup. Commits may come between
those steps.
*/
module WalPair {
  import opened RowWord
  import opened WalCodec
  import opened WalLog
  import opened WalRedo

  /** The commit ids count up by one and end with `last`. */
  ghost predicate Counting(ss: seq<Segment>, last: nat) {
    |ss| <= last && forall i {:trigger ss[i]} :: 0 <= i < |ss| ==> ss[i].id == last - |ss| + 1 + i
  }

  /** Where a flush stands: not under way, logs switched, or tables written. */
  datatype Phase = Idle | Switched(clear: bool) | Written(clear: bool)

  lemma {:induction false} CountingMore(ss: seq<Segment>, last: nat, s: Segment)
    requires Counting(ss, last) && s.id == last + 1
    ensures Counting(ss + [s], last + 1)
  {
  }

  lemma {:induction false} CountingTail(a: seq<Segment>, b: seq<Segment>, last: nat)
    requires Counting(a + b, last)
    ensures Counting(b, last)
  {
    forall i | 0 <= i < |b|
      ensures b[i].id == last - |b| + 1 + i
    {
      assert b[i] == (a + b)[|a| + i];
    }
  }

  /** The last id read from the log that goes on is the one it keeps. */
  lemma {:induction false} LastCounted(a: seq<Segment>, b: seq<Segment>, last: nat)
    requires Counting(a + b, last)
    ensures LastId(b, last) == last
  {
    if b != [] {
      assert (a + b)[|a + b| - 1] == b[|b| - 1];
    }
  }

  lemma {:induction false} RecordsFirst(ss: seq<Segment>, tables: set<Word>)
    requires ss != []
    ensures Records(ss, tables) == Known(ss[0].recs, tables) + Records(ss[1..], tables)
  {
  }

  lemma {:induction false} RecordsTwoParts(a: seq<Segment>, b: seq<Segment>, tables: set<Word>)
    ensures Records(a + b, tables) == Records(a, tables) + Records(b, tables)
    decreases a
  {
    if a == [] {
      assert a + b == b;
    } else {
      RecordsTwoParts(a[1..], b, tables);
      var ab := a + b;
      assert ab != [] && ab[0] == a[0] && ab[1..] == a[1..] + b;
      RecordsFirst(ab, tables);
      RecordsFirst(a, tables);
      Regrouped(Known(a[0].recs, tables), Records(a[1..], tables), Records(b, tables));
    }
  }

  class LogPair {
    var active: Wal
    var backup: Wal
    ghost var phase: Phase
    /** The last commit whose rows the table files hold. */
    ghost var persisted: nat

    /** The commits in the logs, backup first. */
    ghost function Logged(): seq<Segment>
      reads this, active, backup
    {
      backup.segs + active.segs
    }

    /** The commits in the logs count up to `last`, and those that are not in the tables are among them. */
    ghost predicate ValidAt(last: nat)
      reads this, active, backup
    {
      && active != backup && active.Valid() && backup.Valid() && backup.pending == []
      && Counting(Logged(), last)
      && last - |Logged()| <= persisted <= last
      && (phase.Written? && phase.clear ==> last - |active.segs| <= persisted)
    }

    ghost predicate Valid()
      reads this, active, backup
    {
      ValidAt(active.commitId)
    }

    constructor (a: Wal, b: Wal)
      requires a != b && a.Valid() && b.Valid() && a.segs == [] && b.segs == [] && a.pending == [] && b.pending == []
      ensures Valid() && active == a && backup == b && persisted == a.commitId && phase == Idle
    {
      active, backup, phase, persisted := a, b, Idle, a.commitId;
    }

    /** A commit of the records collected in the active log. */
    method Commit(time: nat)
      requires Valid() && active.Room(0) && active.commitId + 1 < 0x1_0000_0000_0000_0000
      requires time < 0x1_0000_0000_0000_0000 && active.commitLen + COMMIT_HDR < 0x1_0000_0000_0000_0000
      modifies active
      ensures Valid() && phase == old(phase) && persisted == old(persisted)
      ensures old(active.pending) == [] ==> Logged() == old(Logged())
      ensures old(active.pending) != [] ==>
        Logged() == old(Logged()) + [Segment(old(active.commitId) + 1, time, old(active.pending))]
    {
      ghost var b, a, id, some := backup.segs, active.segs, active.commitId, active.pending != [];
      active.Commit(time);
      if some {
        CountingMore(b + a, id, active.segs[|a|]);
        assert b + active.segs == (b + a) + [active.segs[|a|]];
      }
    }

    /**
    Switches the logs when the backup is empty and the active one is not; the answer is
    whether the backup then holds commits to be cleared.
    */
    method Switch() returns (switched: bool)
      requires Valid() && phase == Idle && active.pending == []
      modifies this, active, backup
      ensures {active, backup} == old({active, backup}) && active.pending == []
      ensures Valid() && phase == Switched(switched) && persisted == old(persisted)
      ensures Logged() == old(Logged()) && (switched <==> backup.segs != []) && active.commitId == old(active.commitId)
      ensures old(backup.segs) == [] && old(active.segs) != [] ==>
        active == old(backup) && backup == old(active) && active.segs == [] && backup.segs == old(active.segs)
      ensures old(backup.segs) != [] || old(active.segs) == [] ==>
        active == old(active) && backup == old(backup) && active.segs == old(active.segs) &&
          backup.segs == old(backup.segs)
    {
      NoSegment(backup.segs, backup.sum);
      NoSegment(active.segs, active.sum);
      if backup.commitSize > FIRST + COMMIT_HDR {
        phase := Switched(true);
        return true;
      }
      if active.commitSize <= FIRST + COMMIT_HDR {
        phase := Switched(false);
        return false;
      }
      var wal := active;
      active := backup;
      backup := wal;
      active.commitId := backup.commitId;
      assert Logged() == old(Logged());
      phase := Switched(true);
      return true;
    }

    /** The tables are written with every commit so far. */
    ghost method WriteTables()
      requires Valid() && phase.Switched?
      modifies this`phase, this`persisted
      ensures Valid() && phase == Written(old(phase).clear) && persisted == active.commitId
    {
      phase, persisted := Written(phase.clear), active.commitId;
    }

    /** The end of a flush: the backup goes, and no commit that the tables lack goes with it. */
    method EndFlush(switched: bool)
      requires Valid() && phase == Written(switched)
      modifies this`phase, backup
      ensures Valid() && phase == Idle && persisted == old(persisted) && active.commitId == old(active.commitId)
      ensures Logged() == (if switched then old(active.segs) else old(Logged())) &&
        active.pending == old(active.pending)
    {
      if switched {
        CountingTail(backup.segs, active.segs, active.commitId);
        backup.Flush();
        assert Logged() == active.segs;
      }
      phase := Idle;
    }

    /**
    Redoes the backup log and then the active one: all logged commits, in commit order. The
    ids kept in the logs may be old ones, unless the active log is empty; they are set to
    those of the last commits found.
    */
    method Redone(tables: set<Word>, found: Tables, ghost last: nat) returns (st: Tables)
      requires ValidAt(last) && (active.segs == [] ==> active.commitId == last)
      modifies active`commitId, backup`commitId
      ensures Valid() && Logged() == old(Logged()) && active.commitId == last
      ensures backup.commitId == LastId(backup.segs, old(backup.commitId))
      ensures active.segs == old(active.segs) && active.pending == old(active.pending)
      ensures st == Redo(found, Records(Logged(), tables))
    {
      LogStart(backup);
      var recs, id := backup.Iterate(tables);
      backup.SetId(id);
      st := RedoAll(found, recs);
      ghost var first := recs;
      LogStart(active);
      recs, id := active.Iterate(tables);
      LastCounted(backup.segs, active.segs, last);
      active.SetId(id);
      st := RedoAll(st, recs);
      RecordsTwoParts(backup.segs, active.segs, tables);
      RedoTwoParts(found, first, recs);
    }

    /**
    A flush with no commit in between: the commits that the backup held are gone from the logs,
    or, when it held none, those of the active log, so that both are empty.
    */
    method FlushDb() returns (ghost n: nat)
      requires Valid() && phase == Idle && active.pending == []
      modifies this, active, backup
      ensures Valid() && phase == Idle && active.pending == [] && persisted == active.commitId == old(active.commitId)
      ensures {active, backup} == old({active, backup})
      ensures n == if old(backup.segs) != [] then |old(backup.segs)| else |old(active.segs)|
      ensures n <= |old(Logged())| && Logged() == old(Logged())[n..]
    {
      n := if backup.segs != [] then |backup.segs| else |active.segs|;
      ghost var logged := Logged();
      var switched := Switch();
      LeftBehind(logged, n, switched);
      WriteAndEnd(switched);
    }

    /** What the active log holds after the logs have been switched. */
    lemma LeftBehind(logged: seq<Segment>, n: nat, switched: bool)
      requires logged == Logged() && n == (if switched then |backup.segs| else 0) && (switched <==> backup.segs != [])
      ensures n <= |logged| && logged[n..] == active.segs
    {
    }

    method WriteAndEnd(switched: bool)
      requires Valid() && phase == Switched(switched) && (switched <==> backup.segs != [])
      modifies this`phase, this`persisted, backup
      ensures Valid() && phase == Idle && persisted == active.commitId == old(active.commitId)
      ensures Logged() == old(active.segs) && active.pending == old(active.pending)
    {
      WriteTables();
      EndFlush(switched);
    }

    /** A flush that then clears the active log as well. */
    method FlushBoth()
      requires Valid() && phase == Idle && active.pending == []
      modifies this, active, backup
      ensures Valid() && phase == Idle && Logged() == [] && persisted == active.commitId == old(active.commitId)
      ensures {active, backup} == old({active, backup})
    {
      ghost var n := FlushDb();
      ClearBoth();
    }

    /** Clears both logs once the tables hold all commits. */
    method ClearBoth()
      requires Valid() && phase == Idle && active.pending == [] && persisted == active.commitId
      modifies active, backup
      ensures Valid() && Logged() == [] && active.commitId == old(active.commitId)
    {
      active.Flush();
      backup.Flush();
    }

    /** Recovery: the logs are redone, the tables written, and both logs cleared. */
    method Recover(tables: set<Word>, found: Tables, ghost last: nat) returns (st: Tables)
      requires ValidAt(last) && (active.segs == [] ==> active.commitId == last)
      requires phase == Idle && active.pending == []
      modifies this, active, backup
      ensures Valid() && phase == Idle && Logged() == [] && persisted == active.commitId == last
      ensures {active, backup} == old({active, backup})
      ensures st == Redo(found, Records(old(Logged()), tables))
    {
      st := Redone(tables, found, last);
      FlushBoth();
    }

    /** Every commit is in the table files or in a log. */
    lemma {:induction false} NoneLost(id: nat)
      requires Valid() && 1 <= id <= active.commitId
      ensures id <= persisted || exists i :: 0 <= i < |Logged()| && Logged()[i].id == id
    {
      if id > persisted {
        assert Logged()[id - (active.commitId - |Logged()|) - 1].id == id;
      }
    }
  }

  /** Row ids and row widths fit their words. */
  ghost predicate Loggable(c: Change) {
    && (forall i :: 0 <= i < |c.dels| ==> c.dels[i] < MSB)
    && forall i :: 0 <= i < |c.news| ==> c.news[i].0 < MSB && |c.news[i].1| + ROW_HDR < 0x1_0000_0000
  }

  lemma {:induction false} ChangeOk(c: Change)
    requires Loggable(c)
    ensures RecsOk(DelRecs(c.tbl, c.dels)) && RecsOk(NewRecs(c.tbl, c.news))
  {
  }

  /** Logs a change of one table: deletions first, then new rows. */
  method LogChange(wal: Wal, c: Change)
    requires wal.Valid() && Loggable(c)
    requires wal.Room(SizeOf(RecsOf(c)))
    modifies wal
    ensures wal.Valid() && wal.pending == old(wal.pending) + RecsOf(c) && wal.segs == old(wal.segs) &&
      wal.commitId == old(wal.commitId)
    ensures |wal.mem| == old(|wal.mem|) && wal.commitLen == old(wal.commitLen) + SizeOf(RecsOf(c)) &&
      wal.commitSize == old(wal.commitSize)
  {
    var d, n := DelRecs(c.tbl, c.dels), NewRecs(c.tbl, c.news);
    SizeTwoParts(d, n);
    ghost var p := wal.pending;
    ChangeOk(c);
    LogAll(wal, d);
    LogAll(wal, n);
    Regrouped(p, d, n);
  }

  function SizeOf(rs: seq<Rec>): nat { if rs == [] then 0 else ROW_HDR + |rs[0].data| + SizeOf(rs[1..]) }

  lemma {:induction false} SizeTwoParts(a: seq<Rec>, b: seq<Rec>)
    ensures SizeOf(a + b) == SizeOf(a) + SizeOf(b)
    decreases a
  {
    if a == [] {
      assert a + b == b;
    } else {
      SizeTwoParts(a[1..], b);
      assert (a + b)[1..] == a[1..] + b;
    }
  }

  method LogAll(wal: Wal, rs: seq<Rec>)
    requires wal.Valid() && RecsOk(rs) && wal.Room(SizeOf(rs))
    modifies wal
    ensures wal.Valid() && wal.pending == old(wal.pending) + rs && wal.segs == old(wal.segs) &&
      wal.commitId == old(wal.commitId)
    ensures |wal.mem| == old(|wal.mem|) && wal.commitLen == old(wal.commitLen) + SizeOf(rs) &&
      wal.commitSize == old(wal.commitSize)
  {
    for i := 0 to |rs|
      invariant wal.Valid() && wal.pending == old(wal.pending) + rs[..i] && wal.segs == old(wal.segs) &&
        wal.commitId == old(wal.commitId)
      invariant |wal.mem| == old(|wal.mem|) && wal.commitSize == old(wal.commitSize)
      invariant wal.commitLen + SizeOf(rs[i..]) == old(wal.commitLen) + SizeOf(rs)
    {
      assert rs[i..][1..] == rs[i + 1..] && rs[..i + 1] == rs[..i] + [rs[i]];
      if rs[i].del {
        wal.LogDel(rs[i].rid, rs[i].tbl);
      } else {
        wal.LogNew(rs[i].rid, rs[i].tbl, rs[i].data);
      }
    }
    assert rs[..|rs|] == rs;
  }

  // ----- from commits to recovery

  /** Each segment holds the records of one commit of changes to known tables. */
  ghost predicate LogsCommits(ss: seq<Segment>, commits: seq<seq<Change>>, tables: set<Word>) {
    |ss| == |commits| && forall i :: 0 <= i < |ss| ==> LogsCommit(ss[i], commits[i], tables)
  }

  ghost predicate LogsCommit(s: Segment, cs: seq<Change>, tables: set<Word>) {
    && s.recs == AllRecs(cs) && (forall i :: 0 <= i < |s.recs| ==> s.recs[i].tbl in tables)
    && forall i :: 0 <= i < |cs| ==> Disjoint(cs[i])
  }

  function Flat(commits: seq<seq<Change>>): seq<Change> {
    if commits == [] then [] else commits[0] + Flat(commits[1..])
  }

  lemma {:induction false} Regrouped(a: seq<Rec>, b: seq<Rec>, c: seq<Rec>)
    ensures a + (b + c) == (a + b) + c
  {
  }

  lemma {:induction false} AllRecsFirst(cs: seq<Change>)
    requires cs != []
    ensures AllRecs(cs) == RecsOf(cs[0]) + AllRecs(cs[1..])
  {
  }

  lemma {:induction false} AllRecsTwoParts(a: seq<Change>, b: seq<Change>)
    ensures AllRecs(a + b) == AllRecs(a) + AllRecs(b)
    decreases a
  {
    if a == [] {
      assert a + b == b;
    } else {
      AllRecsTwoParts(a[1..], b);
      var ab := a + b;
      assert ab != [] && ab[0] == a[0] && ab[1..] == a[1..] + b;
      AllRecsFirst(ab);
      AllRecsFirst(a);
      Regrouped(RecsOf(a[0]), AllRecs(a[1..]), AllRecs(b));
    }
  }

  lemma {:induction false} LoggedRecords(ss: seq<Segment>, commits: seq<seq<Change>>, tables: set<Word>)
    requires LogsCommits(ss, commits, tables)
    ensures Records(ss, tables) == AllRecs(Flat(commits))
    ensures forall i :: 0 <= i < |Flat(commits)| ==> Disjoint(Flat(commits)[i])
    decreases ss
  {
    if ss != [] {
      assert LogsCommit(ss[0], commits[0], tables);
      forall i | 0 <= i < |ss[1..]|
        ensures LogsCommit(ss[1..][i], commits[1..][i], tables)
      {
        assert LogsCommit(ss[i + 1], commits[i + 1], tables);
      }
      LoggedRecords(ss[1..], commits[1..], tables);
      AllKnown(ss[0].recs, tables);
      AllRecsTwoParts(commits[0], Flat(commits[1..]));
    }
  }

  /**
  Recovery gives the rows that the logged commits gave, from any state that differs from
  theirs only in logged rows.
  */
  lemma {:induction false} RecoveryIsCommits(ss: seq<Segment>, commits: seq<seq<Change>>, tables: set<Word>,
        start: Tables, found: Tables)
    requires LogsCommits(ss, commits, tables)
    requires AgreeBut(found, start, WalRedo.Logged(AllRecs(Flat(commits))))
    ensures Redo(found, Records(ss, tables)) == ApplyAll(start, Flat(commits))
    ensures Redo(Redo(found, Records(ss, tables)), Records(ss, tables)) == ApplyAll(start, Flat(commits))
  {
    LoggedRecords(ss, commits, tables);
    RedoRecovers(start, found, Flat(commits));
  }
}
