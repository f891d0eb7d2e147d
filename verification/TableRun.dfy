/**
Commands of any number of connections, one after the other, on one table; and what holds
over every run of them: isolation, rollback and commit, in terms of the control bits and
row sets that visibility is computed from.
*/
module TableRun {
  import opened RowWord
  import opened Store
  import opened TxSpec
  import opened TableRows
  import opened Table
  import opened CmdSpec

  /** A connection is in a transaction that it began itself, with the table's write lock. */
  ghost predicate Holding(t: Table, c: nat)
    reads t
  {
    t.lock == LockedBy(c) && c in t.conns && t.conns[c].inTrans && !t.conns[c].auto
  }

  /** What storage would grow by. */
  function Growth(cap: nat, room: bool, fill: nat -> Block): (more: seq<Block>)
    ensures |more| == if room then cap else 0
  {
    if room then seq(cap, i requires 0 <= i < cap => fill(i)) else []
  }

  /** One row of a statement; row ids that the writer does not see and ids past the limit change nothing. */
  method ExecRow(t: Table, c: nat, op: RowOp, room: bool, fill: nat -> Block) returns (ghost events: seq<Event>)
    requires t.Valid() && t.lock == LockedBy(c)
    modifies t, t.store, t.index
    ensures t.Valid() && t.lock == LockedBy(c)
    ensures RowStep(KindOf(t), c, op, room, old(Now(t)), events, Now(t))
  {
    events := [];
    SameConn(t.conns, c);
    if op.Insert? {
      events := ExecInsert(t, c, op.row, room, fill);
    } else if 1 <= op.rid <= t.store.maxid && RowValid(t.conns[c], t.store.blocks[op.rid].ctrl, op.rid) {
      if op.Delete? {
        OneStep(t.Abs(), Gone(c, op.rid));
        t.Delete(c, op.rid);
        events := [Gone(c, op.rid)];
      } else {
        events := ExecUpdate(t, c, op.rid, op.row, op.affects, room, fill);
      }
    }
  }

  method ExecInsert(t: Table, c: nat, row: Row, room: bool, fill: nat -> Block) returns (ghost events: seq<Event>)
    requires t.Valid() && t.lock == LockedBy(c)
    modifies t, t.store, t.index
    ensures t.Valid() && t.lock == LockedBy(c)
    ensures RowStep(KindOf(t), c, Insert(row), room, old(Now(t)), events, Now(t))
  {
    events := [];
    SameConn(t.conns, c);
    if t.store.maxid + 1 < RID_LIMIT {
      ghost var s := t.Abs();
      var rid := t.Insert(c, row, Growth(t.store.Cap(), room, fill));
      if rid != -1 {
        events := [Put(c, rid, row)];
        OneStep(s, Put(c, rid, row));
      }
    }
  }

  method ExecUpdate(t: Table, c: nat, rid: nat, row: Row, affects: bool, room: bool, fill: nat -> Block)
    returns (ghost events: seq<Event>)
    requires t.Valid() && t.lock == LockedBy(c) && Sees(t.Im(), t.conns[c], rid)
    modifies t, t.store, t.index
    ensures t.Valid() && t.lock == LockedBy(c)
    ensures RowStep(KindOf(t), c, Update(rid, row, affects), room, old(Now(t)), events, Now(t))
  {
    events := [];
    SameConn(t.conns, c);
    ghost var m := Now(t);
    UpdateAsked(t, c, rid, row, affects);
    if t.store.maxid + 1 < RID_LIMIT && (affects || row.key == t.store.blocks[rid].row.key) {
      var ok, newid := t.Update(c, rid, row, affects, Growth(t.store.Cap(), room, fill));
      events := UpdateEvents(KindOf(t), m, t.Abs(), c, rid, row, affects, room, ok, newid);
    }
  }

  /** What an update finds out about the row, said of the moment it is made in. */
  lemma UpdateAsked(t: Table, c: nat, rid: nat, row: Row, affects: bool)
    requires t.Valid() && t.lock == LockedBy(c) && Sees(t.Im(), t.conns[c], rid)
    ensures rid < |t.store.blocks| && rid in t.Abs().work && t.Abs().work[rid] == t.store.blocks[rid].row
    ensures t.Duplicate(c, row.key) !in {0, rid} <==> Doubled(KindOf(t), Now(t), c, rid, row.key)
    ensures t.InPlace(rid, affects) <==> Here(KindOf(t), Now(t), rid, affects)
  {
  }

  /** The events of an update, as its answer tells them. */
  lemma UpdateEvents(kind: Kind, m: Moment, s': Spec, c: nat, rid: nat, row: Row, affects: bool, room: bool,
        ok: bool, newid: int) returns (events: seq<Event>)
    requires m.lock == LockedBy(c) && rid in Abs(m).work && rid < |m.im.blocks| && !IdsGone(m.im)
    requires affects || row.key == Abs(m).work[rid].key
    requires ok <==> !(affects && kind.unique && Doubled(kind, m, c, rid, row.key))
    requires !ok ==> s' == Abs(m)
    requires ok && Here(kind, m, rid, affects) ==> s' == Step(Abs(m), Put(c, rid, row))
    requires ok && !Here(kind, m, rid, affects) ==>
      var less := Step(Abs(m), Gone(c, rid));
      && (newid == -1 <==> Refused(kind, m.im, room, less.work, row.key)) && (newid == -1 ==> s' == less)
      && (newid != -1 ==>
            newid > 0 && newid !in less.committed && newid !in less.work && s' == Step(less, Put(c, newid, row)))
    ensures Steps(Abs(m), events, s') && UpdateMakes(kind, m, c, rid, row, affects, room, events)
  {
    var s := Abs(m);
    if !ok {
      events := [];
    } else if Here(kind, m, rid, affects) {
      events := [Put(c, rid, row)];
      OneStep(s, Put(c, rid, row));
    } else {
      var less := Step(s, Gone(c, rid));
      events := [Gone(c, rid)];
      OneStep(s, Gone(c, rid));
      if newid != -1 {
        var put := Put(c, newid, row);
        OneStep(less, put);
        StepsOn(s, events, less, [put], s');
        events := events + [put];
        assert events[1..] == [put];
      }
    }
  }

  /** The rows of a statement, in order. */
  method ExecRows(t: Table, c: nat, ops: seq<RowOp>, room: bool, fill: nat -> Block)
    returns (ghost ms: seq<Moment>, ghost parts: seq<seq<Event>>)
    requires t.Valid() && t.lock == LockedBy(c)
    modifies t, t.store, t.index
    ensures t.Valid() && t.lock == LockedBy(c)
    ensures RowsRun(KindOf(t), c, ops, room, ms, parts) && ms[0] == old(Now(t)) && ms[|ops|] == Now(t)
  {
    ms, parts := [Now(t)], [];
    for i := 0 to |ops|
      invariant t.Valid() && t.lock == LockedBy(c)
      invariant RowsRun(KindOf(t), c, ops[..i], room, ms, parts) && ms[0] == old(Now(t)) && ms[i] == Now(t)
    {
      ghost var part := ExecRow(t, c, ops[i], room, fill);
      RowsMore(KindOf(t), c, ops[..i], room, ms, parts, ops[i], Now(t), part);
      assert ops[..i + 1] == ops[..i] + [ops[i]];
      ms, parts := ms + [Now(t)], parts + [part];
    }
    assert ops[..|ops|] == ops;
  }

  /** What a command does. One that must wait for the lock does nothing yet. */
  method Exec(t: Table, cmd: Command) returns (ghost events: seq<Event>)
    requires t.Valid()
    modifies t, t.store, t.index
    ensures t.Valid() && CommandStep(KindOf(t), cmd, old(Now(t)), events, Now(t))
  {
    events := [];
    var c := cmd.conn;
    if c !in t.conns {
      if cmd.Connect? {
        t.Connect(c);
      }
    } else if cmd.Statement? {
      events := ExecStatement(t, c, cmd.auto, cmd.ops, cmd.room, cmd.fill);
    } else if cmd.Rollback? {
      events := ExecRollback(t, c);
    } else if cmd.Begin? || cmd.Commit? {
      events := ExecCommit(t, c, cmd.Begin?, cmd.Begin? && cmd.auto);
    }
  }

  /** COMMIT, or BEGIN, which commits an open transaction first. */
  method ExecCommit(t: Table, c: nat, begin: bool, auto: bool) returns (ghost events: seq<Event>)
    requires t.Valid() && c in t.conns
    modifies t, t.store, t.index
    ensures t.Valid() && Steps(old(t.Abs()), events, t.Abs())
    ensures var conn := old(t.conns)[c];
      EndMakes(old(Now(t)), c, Committed(c),
        if begin then Conn(true, auto, {}, {}) else if conn.inTrans then IDLE else conn, events, Now(t))
  {
    events := if t.lock == LockedBy(c) then [Committed(c)] else [];
    OneStep(t.Abs(), if events == [] then Nothing else Committed(c));
    if begin {
      t.Begin(c, auto);
    } else {
      t.Commit(c);
    }
  }

  method ExecRollback(t: Table, c: nat) returns (ghost events: seq<Event>)
    requires t.Valid() && c in t.conns
    modifies t, t.store, t.index
    ensures t.Valid() && Steps(old(t.Abs()), events, t.Abs())
    ensures var conn := old(t.conns)[c];
      EndMakes(old(Now(t)), c, RolledBack(c), if conn.inTrans then IDLE else conn, events, Now(t))
  {
    events := if t.lock == LockedBy(c) then [RolledBack(c)] else [];
    OneStep(t.Abs(), if events == [] then Nothing else RolledBack(c));
    t.Rollback(c);
  }

  /** A statement takes the lock, changes its rows, and commits when its transaction is its own. */
  method ExecStatement(t: Table, c: nat, auto: bool, ops: seq<RowOp>, room: bool, fill: nat -> Block)
    returns (ghost events: seq<Event>)
    requires t.Valid() && c in t.conns
    modifies t, t.store, t.index
    ensures t.Valid() && Steps(old(t.Abs()), events, t.Abs())
    ensures StatementMakes(KindOf(t), old(Now(t)), c, auto, ops, room, events, Now(t))
  {
    events := [];
    if t.lock != Unlocked && t.lock != LockedBy(c) {
      return;
    }
    ghost var m := Now(t);
    t.WrLock(c, auto);
    if m.lock == Unlocked {
      events := [Locked(c)];
      OneStep(Abs(m), Locked(c));
    }
    ghost var s1 := t.Abs();
    ghost var ms, parts := ExecRows(t, c, ops, room, fill);
    RowsFacts(KindOf(t), c, ops, room, ms, parts);
    StepsOn(Abs(m), events, s1, Joined(parts), t.Abs());
    events := events + Joined(parts);
    if t.conns[c].auto {
      ghost var s2 := t.Abs();
      OneStep(s2, Committed(c));
      t.Commit(c);
      StepsOn(Abs(m), events, s2, [Committed(c)], t.Abs());
      events := events + [Committed(c)];
    }
    assert StatementRuns(KindOf(t), m, c, auto, ops, room, ms, parts, events, Now(t));
  }

  /** Any commands of any connections, command by command. */
  method ExecAll(t: Table, cmds: seq<Command>)
    returns (ghost events: seq<Event>, ghost ms: seq<Moment>, ghost parts: seq<seq<Event>>)
    requires t.Valid()
    modifies t, t.store, t.index
    ensures t.Valid() && CommandsRun(KindOf(t), cmds, ms, parts) && events == Joined(parts)
    ensures ms[0] == old(Now(t)) && ms[|cmds|] == Now(t)
    ensures Steps(old(t.Abs()), events, t.Abs())
    ensures forall d :: d in old(t.conns) ==> d in t.conns
    ensures forall d :: Absent(cmds, d) ==>
      (d in old(t.conns) ==> t.conns[d] == old(t.conns)[d]) && forall e :: e in events ==> !By(e, d)
    ensures forall c :: old(Holding(t, c)) && OnlyStatements(cmds, c) ==>
      Holding(t, c) && forall e :: e in events ==> Inner(e)
    ensures CommitsNothing(old(t.conns), cmds) ==> forall e :: e in events ==> !e.Committed?
  {
    ms, parts := ExecEach(t, cmds);
    events := Joined(parts);
    CommandsFacts(KindOf(t), cmds, ms, parts);
    if CommitsNothing(ms[0].conns, cmds) {
      ghost var open := QuietFrom(KindOf(t), cmds, ms, parts, |cmds|);
      assert parts[..|cmds|] == parts;
    }
    assert forall c :: old(Holding(t, c)) ==> HoldsLock(ms[0], c);
    assert forall c :: HoldsLock(ms[|cmds|], c) ==> Holding(t, c);
  }

  method ExecEach(t: Table, cmds: seq<Command>) returns (ghost ms: seq<Moment>, ghost parts: seq<seq<Event>>)
    requires t.Valid()
    modifies t, t.store, t.index
    ensures t.Valid() && CommandsRun(KindOf(t), cmds, ms, parts) && ms[0] == old(Now(t)) && ms[|cmds|] == Now(t)
  {
    ms, parts := [Now(t)], [];
    for i := 0 to |cmds|
      invariant t.Valid() && CommandsRun(KindOf(t), cmds[..i], ms, parts)
      invariant ms[0] == old(Now(t)) && ms[i] == Now(t)
    {
      ghost var part := Exec(t, cmds[i]);
      CommandsMore(KindOf(t), cmds[..i], ms, parts, cmds[i], Now(t), part);
      assert cmds[..i + 1] == cmds[..i] + [cmds[i]];
      ms, parts := ms + [Now(t)], parts + [part];
    }
    assert cmds[..|cmds|] == cmds;
  }

  // ----- over every run

  /**
  Isolation: what others do short of committing never shows in a connection's view, and
  while it holds the lock nothing that others do does.
  */
  method Isolation(t: Table, d: nat, cmds: seq<Command>) returns (ghost events: seq<Event>)
    requires t.Valid() && d in t.conns && Absent(cmds, d)
    modifies t, t.store, t.index
    ensures t.Valid() && d in t.conns && t.conns[d] == old(t.conns)[d]
    ensures Steps(old(t.Abs()), events, t.Abs())
    ensures old(t.lock) == LockedBy(d) || (forall e :: e in events ==> !e.Committed?) ==>
      Visible(t.Im(), t.conns[d]) == old(Visible(t.Im(), t.conns[d]))
    ensures CommitsNothing(old(t.conns), cmds) ==>
      Visible(t.Im(), t.conns[d]) == old(Visible(t.Im(), t.conns[d]))
  {
    ghost var s := t.Abs();
    t.SeesItsView(d);
    ghost var ms, parts;
    events, ms, parts := ExecAll(t, cmds);
    t.SeesItsView(d);
    if s.lock == LockedBy(d) {
      HolderIsolated(s, events, d);
    } else if forall e :: e in events ==> !e.Committed? {
      Isolated(s, events, d);
    }
  }

  /** BEGIN, the lock, and statements of c between commands of others. */
  method Transaction(t: Table, c: nat, cmds: seq<Command>) returns (ghost inner: seq<Event>)
    requires t.Valid() && c in t.conns && t.lock == Unlocked && OnlyStatements(cmds, c)
    modifies t, t.store, t.index
    ensures t.Valid() && Holding(t, c) && forall d :: d in old(t.conns) ==> d in t.conns
    ensures forall e :: e in inner ==> Inner(e)
    ensures Steps(old(t.Abs()), [Locked(c)] + inner, t.Abs())
  {
    ghost var s := t.Abs();
    t.Begin(c, false);
    t.WrLock(c, false);
    ghost var s1 := t.Abs();
    OneStep(s, Locked(c));
    ghost var ms, parts;
    inner, ms, parts := ExecAll(t, cmds);
    StepsOn(s, [Locked(c)], s1, inner, t.Abs());
  }

  /**
  BEGIN to ROLLBACK: whatever the transaction did, and whatever others tried meanwhile, all
  connections see what was there at BEGIN, and so do the index and the allocator's count.
  */
  method RollbackLeaves(t: Table, c: nat, cmds: seq<Command>)
    requires t.Valid() && c in t.conns && t.lock == Unlocked && OnlyStatements(cmds, c)
    modifies t, t.store, t.index
    ensures t.Valid() && t.lock == Unlocked && forall d :: d in old(t.conns) ==> d in t.conns
    ensures Visible(t.Im(), IDLE) == old(Visible(t.Im(), IDLE))
    ensures forall d :: d in t.conns ==> Visible(t.Im(), t.conns[d]) == old(Visible(t.Im(), IDLE))
    ensures t.index.rows == old(t.index.rows) && t.store.alloc == old(t.store.alloc)
  {
    ghost var s := t.Abs();
    t.NothingElse();
    ghost var inner := Transaction(t, c, cmds);
    ghost var s1 := t.Abs();
    OneStep(s1, RolledBack(c));
    t.Rollback(c);
    StepsOn(s, [Locked(c)] + inner, s1, [RolledBack(c)], t.Abs());
    RollbackUndoes(s, c, inner);
    t.NothingElse();
    AllSee(t);
  }

  /** With nobody writing all connections see the committed rows. */
  lemma AllSee(t: Table)
    requires t.Valid() && t.lock == Unlocked
    ensures forall d :: d in t.conns ==> Visible(t.Im(), t.conns[d]) == Visible(t.Im(), IDLE)
  {
    forall d | d in t.conns
      ensures Visible(t.Im(), t.conns[d]) == Visible(t.Im(), IDLE)
    {
      t.SeesItsView(d);
    }
  }

  /**
  BEGIN to COMMIT: until the commit all others see what was there at BEGIN; from then on
  all see what the writer saw last, and that is what the index and the allocator hold.
  */
  method CommitShows(t: Table, c: nat, cmds: seq<Command>)
    returns (ghost last: Contents, ghost before: map<nat, Contents>)
    requires t.Valid() && c in t.conns && t.lock == Unlocked && OnlyStatements(cmds, c)
    modifies t, t.store, t.index
    ensures t.Valid() && t.lock == Unlocked && before.Keys == t.conns.Keys && old(t.conns).Keys <= before.Keys
    ensures forall d :: d in before ==> before[d] == (if d == c then last else old(Visible(t.Im(), IDLE)))
    ensures forall d :: d in t.conns ==> Visible(t.Im(), t.conns[d]) == last
    ensures t.index.rows == KeysOf(last) && t.store.alloc == |last|
  {
    ghost var s := t.Abs();
    ghost var inner := Transaction(t, c, cmds);
    ghost var s1 := t.Abs();
    CommitViews(s, c, inner, s1);
    last := s1.work;
    before := Views(t);
    CommitAll(t, c);
  }

  /** Once its writer commits, everybody sees its rows, and they are what is stored. */
  method CommitAll(t: Table, c: nat)
    requires t.Valid() && Holding(t, c)
    modifies t, t.store, t.index
    ensures t.Valid() && t.lock == Unlocked && t.conns.Keys == old(t.conns).Keys
    ensures forall d :: d in t.conns ==> Visible(t.Im(), t.conns[d]) == old(t.Abs()).work
    ensures t.index.rows == KeysOf(old(t.Abs()).work) && t.store.alloc == |old(t.Abs()).work|
  {
    t.Commit(c);
    t.NothingElse();
    AllSee(t);
  }

  /** What every connection sees. */
  lemma Views(t: Table) returns (seen: map<nat, Contents>)
    requires t.Valid()
    ensures seen.Keys == t.conns.Keys
    ensures forall d :: d in seen ==> seen[d] == Visible(t.Im(), t.conns[d]) == View(t.Abs(), d)
  {
    seen := map d | d in t.conns :: Visible(t.Im(), t.conns[d]);
    forall d | d in seen
      ensures seen[d] == View(t.Abs(), d)
    {
      t.SeesItsView(d);
    }
  }

  lemma CommitViews(s: Spec, c: nat, inner: seq<Event>, s1: Spec)
    requires s.lock == Unlocked && Steps(s, [Locked(c)] + inner, s1) && forall e :: e in inner ==> Inner(e)
    requires s1.lock == LockedBy(c)
    ensures forall d: nat :: View(s1, d) == (if d == c then s1.work else s.committed)
    ensures forall d: nat :: View(Step(s1, Committed(c)), d) == View(s1, c)
  {
    OneStep(s1, Committed(c));
    StepsOn(s, [Locked(c)] + inner, s1, [Committed(c)], Step(s1, Committed(c)));
    forall d: nat
      ensures View(s1, d) == if d == c then s1.work else s.committed
      ensures View(Step(s1, Committed(c)), d) == View(s1, c)
    {
      TxSpec.CommitShows(s, c, inner, d);
    }
  }
}
