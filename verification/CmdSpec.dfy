/**
What the commands of connections do to a table, command by command and row by row: which
events each makes, given the state it finds. Nothing here says how.
*/
module CmdSpec {
  import opened RowWord
  import opened Keys
  import opened Store
  import opened TxSpec
  import opened TableRows
  import opened Table
  import HD = HashDup

  datatype RowOp =
    | Insert(row: Row)
    | Delete(rid: nat)
    | Update(rid: nat, row: Row, affects: bool)

  /** A command of a connection; `auto` says that a transaction it starts ends with it. */
  datatype Command =
    | Connect(conn: nat)
    | Begin(conn: nat, auto: bool)
    | Statement(conn: nat, auto: bool, ops: seq<RowOp>, room: bool, fill: nat -> Block)
    | Commit(conn: nat)
    | Rollback(conn: nat)

  /** What a table's index never changes. */
  datatype Kind = Kind(unique: bool, hash: Key -> Word)

  /** A table at one moment. */
  datatype Moment = Moment(im: Image, conns: map<nat, Conn>, lock: Lock, index: HD.Shape)

  ghost function Writer(m: Moment): Conn {
    if m.lock.LockedBy? && m.lock.conn in m.conns then m.conns[m.lock.conn] else IDLE
  }

  /** The rows as every connection sees them. */
  ghost function Abs(m: Moment): Spec { Spec(Visible(m.im, IDLE), m.lock, Visible(m.im, Writer(m))) }

  ghost function KindOf(t: Table): Kind { Kind(t.index.unique, t.index.hash) }

  ghost function Now(t: Table): (m: Moment)
    reads t, t.store, t.index
    ensures Abs(m) == t.Abs()
  {
    Moment(t.Im(), t.conns, t.lock, HD.ShapeOf(t.index))
  }

  // ----- one row

  /** No block is left, and none comes. */
  predicate Full(im: Image, room: bool) {
    im.free == [] && im.maxid == |im.blocks| - 1 && (!room || |im.blocks| <= 1)
  }

  predicate IdsGone(im: Image) { im.maxid + 1 >= RID_LIMIT }

  ghost predicate Refused(kind: Kind, im: Image, room: bool, rows: Contents, key: Key) {
    Full(im, room) || (kind.unique && exists r :: r in rows && rows[r].key == key)
  }

  /** The one event that a new row makes. */
  predicate NewRow(events: seq<Event>, s: Spec, c: nat, row: Row) {
    && |events| == 1 && events[0].Put? && events[0].conn == c && events[0].row == row
    && events[0].rid > 0 && events[0].rid !in s.committed && events[0].rid !in s.work
  }

  /** What one row of a statement makes. */
  ghost predicate RowMakes(kind: Kind, m: Moment, c: nat, op: RowOp, room: bool, events: seq<Event>) {
    match op
    case Insert(row) => InsertMakes(kind, m, c, row, room, events)
    case Delete(rid) => events == if rid in Abs(m).work then [Gone(c, rid)] else []
    case Update(rid, row, affects) => UpdateMakes(kind, m, c, rid, row, affects, room, events)
  }

  ghost predicate InsertMakes(kind: Kind, m: Moment, c: nat, row: Row, room: bool, events: seq<Event>) {
    if IdsGone(m.im) || Refused(kind, m.im, room, Abs(m).work, row.key) then events == []
    else NewRow(events, Abs(m), c, row)
  }

  /** The duplicate search answers with another row. */
  ghost predicate Doubled(kind: Kind, m: Moment, c: nat, rid: nat, key: Key) {
    c in m.conns && HD.DuplicateIn(m.index, kind.hash, key, Visible(m.im, m.conns[c]).Keys) !in {0, rid}
  }

  /** An update of a row that is not seen, or that finds another with its key, makes nothing. */
  ghost predicate UpdateStops(kind: Kind, m: Moment, c: nat, rid: nat, row: Row, affects: bool) {
    || rid !in Abs(m).work || IdsGone(m.im) || (!affects && row.key != Abs(m).work[rid].key)
    || (affects && kind.unique && Doubled(kind, m, c, rid, row.key))
  }

  /** A new row is rewritten where it is, unless its key is under a unique index. */
  predicate Here(kind: Kind, m: Moment, rid: nat, affects: bool) {
    rid < |m.im.blocks| && m.im.blocks[rid].ctrl == Trans && !(affects && kind.unique)
  }

  ghost predicate UpdateMakes(kind: Kind, m: Moment, c: nat, rid: nat, row: Row, affects: bool, room: bool,
        events: seq<Event>)
  {
    if UpdateStops(kind, m, c, rid, row, affects) then
      events == []
    else if Here(kind, m, rid, affects) then
      events == [Put(c, rid, row)]
    else
      var less := Abs(m).(work := Abs(m).work - {rid});
      && events != [] && events[0] == Gone(c, rid)
      && if Refused(kind, m.im, room, less.work, row.key) then events == [Gone(c, rid)]
         else NewRow(events[1..], less, c, row)
  }

  // ----- a statement

  /** All events of a sequence of parts. */
  ghost function Joined(parts: seq<seq<Event>>): seq<Event> {
    if parts == [] then [] else Joined(parts[..|parts| - 1]) + parts[|parts| - 1]
  }

  ghost predicate RowStep(kind: Kind, c: nat, op: RowOp, room: bool, m: Moment, events: seq<Event>, m': Moment) {
    && RowMakes(kind, m, c, op, room, events) && Steps(Abs(m), events, Abs(m'))
    && m'.lock == m.lock && OnlyRows(m.conns, m'.conns, c)
  }

  ghost predicate RowAt(kind: Kind, c: nat, ops: seq<RowOp>, room: bool, ms: seq<Moment>, parts: seq<seq<Event>>,
        i: nat)
  {
    i < |ops| && i + 1 < |ms| && i < |parts| && RowStep(kind, c, ops[i], room, ms[i], parts[i], ms[i + 1])
  }

  /** Row by row, in order. */
  ghost predicate RowsRun(kind: Kind, c: nat, ops: seq<RowOp>, room: bool, ms: seq<Moment>, parts: seq<seq<Event>>) {
    && |ms| == |ops| + 1 && |parts| == |ops|
    && forall i {:trigger RowAt(kind, c, ops, room, ms, parts, i)} :: 0 <= i < |ops| ==>
      RowAt(kind, c, ops, room, ms, parts, i)
  }

  /** The transaction a statement runs in ends with the statement. */
  predicate EndsItself(conn: Conn, auto: bool) { if conn.inTrans then conn.auto else auto }

  /** The table with the lock taken, in a transaction. */
  function Taken(m: Moment, c: nat, auto: bool): Moment
    requires c in m.conns
  {
    m.(lock := LockedBy(c), conns := m.conns[c := if m.conns[c].inTrans then m.conns[c] else Conn(true, auto, {}, {})])
  }

  ghost predicate StatementRuns(kind: Kind, m: Moment, c: nat, auto: bool, ops: seq<RowOp>, room: bool,
        ms: seq<Moment>, parts: seq<seq<Event>>, events: seq<Event>, m': Moment)
    requires c in m.conns
  {
    && RowsRun(kind, c, ops, room, ms, parts) && ms[0] == Taken(m, c, auto)
    && var last := ms[|ops|]; var before := if m.lock == Unlocked then [Locked(c)] else [];
      if EndsItself(m.conns[c], auto) then
        && events == before + Joined(parts) + [Committed(c)]
        && m'.lock == Unlocked && m'.conns == last.conns[c := IDLE]
      else events == before + Joined(parts) && m' == last
  }

  /** A statement that must wait for the lock does nothing yet. */
  ghost predicate StatementMakes(kind: Kind, m: Moment, c: nat, auto: bool, ops: seq<RowOp>, room: bool,
        events: seq<Event>, m': Moment)
    requires c in m.conns
  {
    if m.lock !in {Unlocked, LockedBy(c)} then events == [] && m' == m
    else exists ms, parts :: StatementRuns(kind, m, c, auto, ops, room, ms, parts, events, m')
  }

  // ----- a command

  /** How a transaction of c ends; without the lock it has changed nothing. */
  ghost predicate EndMakes(m: Moment, c: nat, end: Event, conn: Conn, events: seq<Event>, m': Moment) {
    && events == (if m.lock == LockedBy(c) then [end] else [])
    && m'.lock == (if m.lock == LockedBy(c) then Unlocked else m.lock) && m'.conns == m.conns[c := conn]
  }

  ghost predicate CommandMakes(kind: Kind, m: Moment, cmd: Command, events: seq<Event>, m': Moment) {
    var c := cmd.conn;
    if c !in m.conns then
      events == [] && m' == if cmd.Connect? then m.(conns := m.conns[c := IDLE]) else m
    else match cmd
      case Connect(_) => events == [] && m' == m
      case Begin(_, auto) => EndMakes(m, c, Committed(c), Conn(true, auto, {}, {}), events, m')
      case Commit(_) => EndMakes(m, c, Committed(c), if m.conns[c].inTrans then IDLE else m.conns[c], events, m')
      case Rollback(_) => EndMakes(m, c, RolledBack(c), if m.conns[c].inTrans then IDLE else m.conns[c], events, m')
      case Statement(_, auto, ops, room, _) => StatementMakes(kind, m, c, auto, ops, room, events, m')
  }

  /** Who holds the lock is in a transaction. */
  predicate Sound(m: Moment) { m.lock.LockedBy? ==> m.lock.conn in m.conns && m.conns[m.lock.conn].inTrans }

  ghost predicate CommandStep(kind: Kind, cmd: Command, m: Moment, events: seq<Event>, m': Moment) {
    CommandMakes(kind, m, cmd, events, m') && Steps(Abs(m), events, Abs(m')) && Sound(m) && Sound(m')
  }

  ghost predicate CommandAt(kind: Kind, cmds: seq<Command>, ms: seq<Moment>, parts: seq<seq<Event>>, i: nat) {
    i < |cmds| && i + 1 < |ms| && i < |parts| && CommandStep(kind, cmds[i], ms[i], parts[i], ms[i + 1])
  }

  /** Command by command, in order. */
  ghost predicate CommandsRun(kind: Kind, cmds: seq<Command>, ms: seq<Moment>, parts: seq<seq<Event>>) {
    && |ms| == |cmds| + 1 && |parts| == |cmds|
    && forall i {:trigger CommandAt(kind, cmds, ms, parts, i)} :: 0 <= i < |cmds| ==>
      CommandAt(kind, cmds, ms, parts, i)
  }

  // ----- what follows of rows

  lemma {:induction false} JoinedMore(parts: seq<seq<Event>>, part: seq<Event>)
    ensures Joined(parts + [part]) == Joined(parts) + part
  {
    assert (parts + [part])[..|parts|] == parts;
  }

  lemma RowInner(kind: Kind, m: Moment, c: nat, op: RowOp, room: bool, events: seq<Event>)
    requires RowMakes(kind, m, c, op, room, events)
    ensures forall e :: e in events ==> Inner(e) && By(e, c)
  {
    if op.Update? && |events| >= 2 {
      assert events == [events[0]] + events[1..];
    }
  }

  lemma {:induction false} RowsMore(kind: Kind, c: nat, ops: seq<RowOp>, room: bool, ms: seq<Moment>,
        parts: seq<seq<Event>>, op: RowOp, m: Moment, part: seq<Event>)
    requires RowsRun(kind, c, ops, room, ms, parts) && RowStep(kind, c, op, room, ms[|ops|], part, m)
    ensures RowsRun(kind, c, ops + [op], room, ms + [m], parts + [part])
  {
    var ops', ms', parts' := ops + [op], ms + [m], parts + [part];
    forall i | 0 <= i < |ops'|
      ensures RowAt(kind, c, ops', room, ms', parts', i)
    {
      assert i < |ops| ==> RowAt(kind, c, ops, room, ms, parts, i);
    }
  }

  /** A run of rows is one of events inside a transaction. */
  lemma {:induction false} RowsFacts(kind: Kind, c: nat, ops: seq<RowOp>, room: bool, ms: seq<Moment>,
        parts: seq<seq<Event>>)
    requires RowsRun(kind, c, ops, room, ms, parts) && c in ms[0].conns
    ensures forall e :: e in Joined(parts) ==> Inner(e) && By(e, c)
    ensures Steps(Abs(ms[0]), Joined(parts), Abs(ms[|ops|]))
    ensures ms[|ops|].lock == ms[0].lock && OnlyRows(ms[0].conns, ms[|ops|].conns, c)
    decreases |ops|
  {
    if ops == [] {
      SameConn(ms[0].conns, c);
    } else {
      var n := |ops| - 1;
      var ms0, parts0 := ms[..n + 1], parts[..n];
      forall i | 0 <= i < n
        ensures RowAt(kind, c, ops[..n], room, ms0, parts0, i)
      {
        assert RowAt(kind, c, ops, room, ms, parts, i);
      }
      RowsFacts(kind, c, ops[..n], room, ms0, parts0);
      assert RowAt(kind, c, ops, room, ms, parts, n);
      RowInner(kind, ms[n], c, ops[n], room, parts[n]);
      StepsOn(Abs(ms[0]), Joined(parts0), Abs(ms[n]), parts[n], Abs(ms[n + 1]));
      OnlyRowsTwice(ms[0].conns, ms[n].conns, ms[n + 1].conns, c);
    }
  }

  // ----- what follows of commands

  /** The other connections stay as they were. */
  ghost predicate OthersKept(conns: map<nat, Conn>, conns': map<nat, Conn>, c: nat) {
    && (forall d :: d in conns ==> d in conns' && (d != c ==> conns'[d] == conns[d]))
    && conns'.Keys <= conns.Keys + {c}
  }

  /** The command commits, if it has the lock: a Begin or a Commit in a transaction, or a statement of its own. */
  ghost predicate MayCommit(conns: map<nat, Conn>, cmd: Command) {
    && cmd.conn in conns
    && match cmd
      case Begin(c, _) => conns[c].inTrans
      case Commit(c) => conns[c].inTrans
      case Statement(c, auto, _, _, _) => EndsItself(conns[c], auto)
      case _ => false
  }

  /** Whether the connection of a command is in a transaction afterwards, and whether that ends by itself. */
  ghost predicate MayStay(conns: map<nat, Conn>, conns': map<nat, Conn>, cmd: Command) {
    cmd.conn in conns' && conns'[cmd.conn].inTrans ==>
      && cmd.conn in conns
      && match cmd
        case Begin(c, auto) => conns'[c].auto == auto
        case Statement(c, auto, _, _, _) => conns'[c].auto == EndsItself(conns[c], auto)
        case Connect(c) => conns'[c] == conns[c]
        case _ => false
  }

  /** A connection is in a transaction that it began itself, with the table's write lock. */
  predicate HoldsLock(m: Moment, c: nat) {
    m.lock == LockedBy(c) && c in m.conns && m.conns[c].inTrans && !m.conns[c].auto
  }

  lemma StatementKeeps(kind: Kind, cmd: Command, m: Moment, events: seq<Event>, m': Moment)
    requires cmd.Statement? && cmd.conn in m.conns && CommandStep(kind, cmd, m, events, m')
    ensures OthersKept(m.conns, m'.conns, cmd.conn) && forall e :: e in events ==> By(e, cmd.conn)
    ensures MayCommit(m.conns, cmd) || forall e :: e in events ==> !e.Committed?
    ensures MayStay(m.conns, m'.conns, cmd)
    ensures forall c :: HoldsLock(m, c) ==> HoldsLock(m', c) && forall e :: e in events ==> Inner(e)
  {
    var c := cmd.conn;
    if m.lock in {Unlocked, LockedBy(c)} {
      var ms, parts :| StatementRuns(kind, m, c, cmd.auto, cmd.ops, cmd.room, ms, parts, events, m');
      RowsFacts(kind, c, cmd.ops, cmd.room, ms, parts);
    }
  }

  lemma CommandKeeps(kind: Kind, cmd: Command, m: Moment, events: seq<Event>, m': Moment)
    requires CommandStep(kind, cmd, m, events, m')
    ensures OthersKept(m.conns, m'.conns, cmd.conn) && forall e :: e in events ==> By(e, cmd.conn)
    ensures MayCommit(m.conns, cmd) || forall e :: e in events ==> !e.Committed?
    ensures MayStay(m.conns, m'.conns, cmd)
    ensures forall c :: HoldsLock(m, c) && (cmd.conn == c ==> cmd.Statement?) ==>
      HoldsLock(m', c) && forall e :: e in events ==> Inner(e)
  {
    if cmd.Statement? && cmd.conn in m.conns {
      StatementKeeps(kind, cmd, m, events, m');
    }
  }

  lemma {:induction false} CommandsMore(kind: Kind, cmds: seq<Command>, ms: seq<Moment>, parts: seq<seq<Event>>,
        cmd: Command, m: Moment, part: seq<Event>)
    requires CommandsRun(kind, cmds, ms, parts) && CommandStep(kind, cmd, ms[|cmds|], part, m)
    ensures CommandsRun(kind, cmds + [cmd], ms + [m], parts + [part])
  {
    var cmds', ms', parts' := cmds + [cmd], ms + [m], parts + [part];
    forall i | 0 <= i < |cmds'|
      ensures CommandAt(kind, cmds', ms', parts', i)
    {
      assert i < |cmds| ==> CommandAt(kind, cmds, ms, parts, i);
    }
  }

  lemma CommandsBut(kind: Kind, cmds: seq<Command>, ms: seq<Moment>, parts: seq<seq<Event>>)
    requires CommandsRun(kind, cmds, ms, parts) && cmds != []
    ensures var n := |cmds| - 1;
      && CommandsRun(kind, cmds[..n], ms[..n + 1], parts[..n])
      && CommandStep(kind, cmds[n], ms[n], parts[n], ms[n + 1]) && Joined(parts) == Joined(parts[..n]) + parts[n]
  {
    var n := |cmds| - 1;
    var ms0 := ms[..n + 1];
    forall i | 0 <= i < n
      ensures CommandAt(kind, cmds[..n], ms0, parts[..n], i)
    {
      assert CommandAt(kind, cmds, ms, parts, i);
    }
    assert CommandAt(kind, cmds, ms, parts, n);
  }

  /** No command is connection d's. */
  ghost predicate Absent(cmds: seq<Command>, d: nat) { forall i :: 0 <= i < |cmds| ==> cmds[i].conn != d }

  /** Connection c only changes rows. */
  ghost predicate OnlyStatements(cmds: seq<Command>, c: nat) {
    forall i :: 0 <= i < |cmds| && cmds[i].conn == c ==> cmds[i].Statement?
  }

  /** A run of commands is one of events, none of them by a connection that gave no command. */
  lemma {:induction false} CommandsFacts(kind: Kind, cmds: seq<Command>, ms: seq<Moment>, parts: seq<seq<Event>>)
    requires CommandsRun(kind, cmds, ms, parts)
    ensures Steps(Abs(ms[0]), Joined(parts), Abs(ms[|cmds|]))
    ensures forall d :: d in ms[0].conns ==> d in ms[|cmds|].conns
    ensures forall d :: Absent(cmds, d) ==>
      && (d in ms[0].conns ==> ms[|cmds|].conns[d] == ms[0].conns[d])
      && forall e :: e in Joined(parts) ==> !By(e, d)
    ensures forall c :: HoldsLock(ms[0], c) && OnlyStatements(cmds, c) ==>
      HoldsLock(ms[|cmds|], c) && forall e :: e in Joined(parts) ==> Inner(e)
    decreases |cmds|
  {
    if cmds != [] {
      var n := |cmds| - 1;
      CommandsBut(kind, cmds, ms, parts);
      CommandsFacts(kind, cmds[..n], ms[..n + 1], parts[..n]);
      CommandKeeps(kind, cmds[n], ms[n], parts[n], ms[n + 1]);
      StepsOn(Abs(ms[0]), Joined(parts[..n]), Abs(ms[n]), parts[n], Abs(ms[n + 1]));
      assert forall d :: Absent(cmds, d) ==> Absent(cmds[..n], d) && cmds[n].conn != d;
    }
  }

  // ----- commands that commit nothing

  /** Commands that commit nothing, when only connections in `open` are in a transaction. */
  ghost predicate Quiet(cmds: seq<Command>, open: set<nat>)
    decreases cmds
  {
    cmds != [] ==> QuietOne(cmds[0], open) && Quiet(cmds[1..], OpenAfter(cmds[0], open))
  }

  predicate QuietOne(cmd: Command, open: set<nat>) {
    match cmd
    case Begin(c, auto) => c !in open && !auto
    case Commit(c) => c !in open
    case Statement(_, auto, _, _, _) => !auto
    case _ => true
  }

  function OpenAfter(cmd: Command, open: set<nat>): set<nat> {
    match cmd
    case Begin(c, _) => open + {c}
    case Statement(c, _, _, _, _) => open + {c}
    case Rollback(c) => open - {c}
    case _ => open
  }

  /** Of the connections that give commands only those are, and in none that ends by itself. */
  ghost predicate Calm(conns: map<nat, Conn>, all: seq<Command>, open: set<nat>) {
    forall c :: c in conns && !Absent(all, c) && conns[c].inTrans ==> c in open && !conns[c].auto
  }

  /** A condition on the commands and the connections that give them. */
  ghost predicate CommitsNothing(conns: map<nat, Conn>, cmds: seq<Command>) {
    var open := set c | c in conns && conns[c].inTrans;
    Calm(conns, cmds, open) && Quiet(cmds, open)
  }

  lemma {:induction false} StillQuiet(conns: map<nat, Conn>, conns': map<nat, Conn>, all: seq<Command>, i: nat,
        open: set<nat>)
    requires i < |all| && Calm(conns, all, open) && Quiet(all[i..], open)
    requires OthersKept(conns, conns', all[i].conn) && MayStay(conns, conns', all[i])
    ensures !MayCommit(conns, all[i])
    ensures Calm(conns', all, OpenAfter(all[i], open)) && Quiet(all[i + 1..], OpenAfter(all[i], open))
  {
    assert all[i..][0] == all[i] && all[i..][1..] == all[i + 1..];
    assert !Absent(all, all[i].conn);
    forall c | c in conns' && !Absent(all, c) && conns'[c].inTrans
      ensures c in OpenAfter(all[i], open) && !conns'[c].auto
    {
      if c != all[i].conn {
        assert c in conns && conns'[c] == conns[c];
      }
    }
  }

  lemma {:induction false} QuietFrom(kind: Kind, cmds: seq<Command>, ms: seq<Moment>, parts: seq<seq<Event>>, n: nat)
    returns (open: set<nat>)
    requires CommandsRun(kind, cmds, ms, parts) && CommitsNothing(ms[0].conns, cmds) && n <= |cmds|
    ensures Calm(ms[n].conns, cmds, open) && Quiet(cmds[n..], open)
    ensures forall e :: e in Joined(parts[..n]) ==> !e.Committed?
  {
    if n == 0 {
      open := set c | c in ms[0].conns && ms[0].conns[c].inTrans;
      assert cmds[0..] == cmds;
    } else {
      var i := n - 1;
      open := QuietFrom(kind, cmds, ms, parts, i);
      assert parts[..n] == parts[..i] + [parts[i]];
      JoinedMore(parts[..i], parts[i]);
      assert CommandAt(kind, cmds, ms, parts, i);
      open := QuietNext(kind, cmds, i, ms[i], parts[i], ms[n], open);
    }
  }

  lemma QuietNext(kind: Kind, cmds: seq<Command>, i: nat, m: Moment, part: seq<Event>, m': Moment, open: set<nat>)
    returns (open': set<nat>)
    requires i < |cmds| && CommandStep(kind, cmds[i], m, part, m')
    requires Calm(m.conns, cmds, open) && Quiet(cmds[i..], open)
    ensures Calm(m'.conns, cmds, open') && Quiet(cmds[i + 1..], open') && forall e :: e in part ==> !e.Committed?
  {
    CommandKeeps(kind, cmds[i], m, part, m');
    StillQuiet(m.conns, m'.conns, cmds, i, open);
    open' := OpenAfter(cmds[i], open);
  }

  // ----- what that means for the rows

  /** A block is left, or comes, and a row id below the limit. */
  predicate RoomLeft(im: Image, room: bool) {
    im.maxid + 1 < 0x1000_0000 && (im.free != [] || im.maxid != |im.blocks| - 1 || (room && |im.blocks| > 1))
  }

  /** No row has the key, or that does not matter. */
  ghost predicate KeyFree(kind: Kind, rows: Contents, key: Key) {
    kind.unique ==> forall r :: r in rows ==> rows[r].key != key
  }

  /** The row is seen, an id is left, and the duplicate search, where it is asked, answers with this row or none. */
  ghost predicate MayUpdate(kind: Kind, m: Moment, c: nat, rid: nat, row: Row, affects: bool) {
    && rid in Abs(m).work && m.im.maxid + 1 < 0x1000_0000
    && if !affects then row.key == Abs(m).work[rid].key
       else kind.unique && c in m.conns ==>
         HD.DuplicateIn(m.index, kind.hash, row.key, Visible(m.im, m.conns[c]).Keys) in {0, rid}
  }

  /** What the rows of the writer are after one row of its statement; everybody else's stay. */
  lemma RowMeans(kind: Kind, c: nat, op: RowOp, room: bool, m: Moment, events: seq<Event>, m': Moment)
    requires RowStep(kind, c, op, room, m, events, m') && m.lock == LockedBy(c)
    ensures Abs(m').committed == Abs(m).committed
    ensures op.Insert? ==>
      if RoomLeft(m.im, room) && KeyFree(kind, Abs(m).work, op.row.key) then
        exists rid: nat :: rid !in Abs(m).committed && rid !in Abs(m).work && Abs(m').work == Abs(m).work[rid := op.row]
      else Abs(m').work == Abs(m).work
    ensures op.Delete? ==> Abs(m').work == Abs(m).work - {op.rid}
    ensures op.Update? && !MayUpdate(kind, m, c, op.rid, op.row, op.affects) ==> Abs(m').work == Abs(m).work
    ensures op.Update? && MayUpdate(kind, m, c, op.rid, op.row, op.affects) ==>
      var less := Abs(m).work - {op.rid};
      if op.rid < |m.im.blocks| && m.im.blocks[op.rid].ctrl == Trans && !(op.affects && kind.unique) then
        Abs(m').work == Abs(m).work[op.rid := op.row]
      else if RoomLeft(m.im, room) && KeyFree(kind, less, op.row.key) then
        exists rid: nat :: rid !in Abs(m).committed && rid !in less && Abs(m').work == less[rid := op.row]
      else Abs(m').work == less
  {
    var s := Abs(m);
    if |events| == 1 {
      OneEvent(s, events);
    } else if |events| == 2 {
      TwoEvents(s, events);
    }
    if op.Delete? && op.rid !in s.work {
      assert s.work - {op.rid} == s.work;
    }
  }

  /** How a transaction that holds the lock ends. */
  lemma EndMeans(kind: Kind, cmd: Command, m: Moment, events: seq<Event>, m': Moment)
    requires CommandStep(kind, cmd, m, events, m') && cmd.conn in m.conns && m.lock == LockedBy(cmd.conn)
    ensures cmd.Commit? || cmd.Begin? ==> Abs(m') == Spec(Abs(m).work, Unlocked, Abs(m).work)
    ensures cmd.Rollback? ==> Abs(m') == Spec(Abs(m).committed, Unlocked, Abs(m).committed)
  {
    if |events| == 1 {
      OneEvent(Abs(m), events);
    }
  }

  lemma OneEvent(s: Spec, events: seq<Event>)
    requires |events| == 1
    ensures After(s, events) == Step(s, events[0])
  {
    assert events[1..] == [];
  }

  lemma TwoEvents(s: Spec, events: seq<Event>)
    requires |events| == 2
    ensures After(s, events) == Step(Step(s, events[0]), events[1])
  {
    OneEvent(Step(s, events[0]), events[1..]);
  }

  // ----- a statement of one row outside a transaction

  /** It makes the events of its row between taking the lock and committing. */
  lemma OneRow(kind: Kind, cmd: Command, m: Moment, events: seq<Event>, m': Moment) returns (made: seq<Event>)
    requires CommandStep(kind, cmd, m, events, m') && cmd.Statement? && cmd.auto && |cmd.ops| == 1
    requires cmd.conn in m.conns && !m.conns[cmd.conn].inTrans && m.lock == Unlocked
    ensures RowMakes(kind, Taken(m, cmd.conn, true), cmd.conn, cmd.ops[0], cmd.room, made)
    ensures events == [Locked(cmd.conn)] + made + [Committed(cmd.conn)] && m'.lock == Unlocked
  {
    var c := cmd.conn;
    var ms, parts :| StatementRuns(kind, m, c, true, cmd.ops, cmd.room, ms, parts, events, m');
    made := parts[0];
    assert RowAt(kind, c, cmd.ops, cmd.room, ms, parts, 0);
    assert parts[..0] == [] && Joined(parts) == [] + made;
  }

  lemma TakenViews(m: Moment, c: nat)
    requires c in m.conns && !m.conns[c].inTrans && m.lock == Unlocked
    ensures Abs(Taken(m, c, true)) == Spec(Abs(m).committed, LockedBy(c), Abs(m).committed)
  {
    SameSets(m.im, IDLE, Writer(Taken(m, c, true)));
  }

  /** An inserted row is committed for everybody to see, when ids and blocks remain and its key is not there. */
  lemma InsertArrives(kind: Kind, cmd: Command, m: Moment, events: seq<Event>, m': Moment, row: Row) returns (rid: nat)
    requires CommandStep(kind, cmd, m, events, m') && cmd.Statement? && cmd.auto && cmd.ops == [Insert(row)]
    requires cmd.conn in m.conns && !m.conns[cmd.conn].inTrans && m.lock == Unlocked
    requires RoomLeft(m.im, cmd.room) && KeyFree(kind, Abs(m).committed, row.key)
    ensures events == [Locked(cmd.conn), Put(cmd.conn, rid, row), Committed(cmd.conn)]
    ensures rid !in Abs(m).committed && Abs(m').committed == Abs(m).committed[rid := row]
  {
    var made := OneRow(kind, cmd, m, events, m');
    TakenViews(m, cmd.conn);
    rid := made[0].rid;
    ThreeEvents(Abs(m), events);
  }

  /** A deleted row is gone for everybody. */
  lemma DeleteArrives(kind: Kind, cmd: Command, m: Moment, events: seq<Event>, m': Moment, rid: nat)
    requires CommandStep(kind, cmd, m, events, m') && cmd.Statement? && cmd.auto && cmd.ops == [Delete(rid)]
    requires cmd.conn in m.conns && !m.conns[cmd.conn].inTrans && m.lock == Unlocked && rid in Abs(m).committed
    ensures events == [Locked(cmd.conn), Gone(cmd.conn, rid), Committed(cmd.conn)]
    ensures Abs(m').committed == Abs(m).committed - {rid}
  {
    var made := OneRow(kind, cmd, m, events, m');
    TakenViews(m, cmd.conn);
    ThreeEvents(Abs(m), events);
  }

  lemma ThreeEvents(s: Spec, events: seq<Event>)
    requires |events| == 3
    ensures After(s, events) == Step(Step(Step(s, events[0]), events[1]), events[2])
  {
    var t := events[1..];
    var u := t[1..];
    assert t[0] == events[1] && u[0] == events[2] && u[1..] == [];
    assert After(Step(s, events[0]), t) == After(Step(Step(s, events[0]), t[0]), u);
  }
}
