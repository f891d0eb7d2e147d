/**
What a table promises its connections: one committed set of rows that everybody sees, and
a private copy for the connection that holds the table's write lock.
*/
module TxSpec {
  import opened Store

  type Contents = map<nat, Row>

  datatype Lock = Unlocked | LockedBy(conn: nat)

  datatype Spec = Spec(committed: Contents, lock: Lock, work: Contents)

  datatype Event =
    | Locked(conn: nat)
    | Put(conn: nat, rid: nat, row: Row)
    | Gone(conn: nat, rid: nat)
    | Nothing
    | Committed(conn: nat)
    | RolledBack(conn: nat)

  function View(s: Spec, conn: nat): Contents {
    if s.lock == LockedBy(conn) then s.work else s.committed
  }

  predicate Enabled(s: Spec, e: Event) {
    match e
    case Locked(c) => s.lock == Unlocked
    case Put(c, rid, row) => s.lock == LockedBy(c) && (rid !in s.committed || rid in s.work)
    case Gone(c, rid) => s.lock == LockedBy(c) && rid in s.work
    case Nothing => true
    case Committed(c) => s.lock == LockedBy(c)
    case RolledBack(c) => s.lock == LockedBy(c)
  }

  function Step(s: Spec, e: Event): Spec {
    match e
    case Locked(c) => Spec(s.committed, LockedBy(c), s.committed)
    case Put(c, rid, row) => s.(work := s.work[rid := row])
    case Gone(c, rid) => s.(work := s.work - {rid})
    case Nothing => s
    case Committed(c) => Spec(s.work, Unlocked, s.work)
    case RolledBack(c) => Spec(s.committed, Unlocked, s.committed)
  }

  ghost predicate Run(s: Spec, events: seq<Event>)
    decreases events
  {
    events != [] ==> Enabled(s, events[0]) && Run(Step(s, events[0]), events[1..])
  }

  ghost function After(s: Spec, events: seq<Event>): Spec
    decreases events
  {
    if events == [] then s else After(Step(s, events[0]), events[1..])
  }

  /** These events lead from one state to the other. */
  ghost predicate Steps(s: Spec, events: seq<Event>, s': Spec) { Run(s, events) && s' == After(s, events) }

  lemma OneStep(s: Spec, e: Event)
    requires Enabled(s, e)
    ensures Steps(s, [e], Step(s, e))
  {
    assert [e][1..] == [];
  }

  lemma {:induction false} StepsOn(s: Spec, a: seq<Event>, s1: Spec, b: seq<Event>, s2: Spec)
    requires Steps(s, a, s1) && Steps(s1, b, s2)
    ensures Steps(s, a + b, s2)
    decreases a
  {
    if a == [] {
      assert a + b == b;
    } else {
      assert (a + b)[0] == a[0] && (a + b)[1..] == a[1..] + b;
      StepsOn(Step(s, a[0]), a[1..], s1, b, s2);
    }
  }

  /** The connection an event belongs to, if any. */
  predicate By(e: Event, conn: nat) { !e.Nothing? && e.conn == conn }

  /** An event inside a transaction: it neither takes nor releases the lock. */
  predicate Inner(e: Event) { e.Put? || e.Gone? || e.Nothing? }

  /** What others do short of committing never shows in a connection's view. */
  lemma {:induction false} Isolated(s: Spec, events: seq<Event>, conn: nat)
    requires Run(s, events) && forall e :: e in events ==> !e.Committed? && !By(e, conn)
    ensures View(After(s, events), conn) == View(s, conn)
    decreases events
  {
    if events != [] {
      assert events[0] in events;
      Isolated(Step(s, events[0]), events[1..], conn);
    }
  }

  /** Nothing at all shows in the view of the lock's holder. */
  lemma {:induction false} HolderIsolated(s: Spec, events: seq<Event>, conn: nat)
    requires Run(s, events) && s.lock == LockedBy(conn) && forall e :: e in events ==> !By(e, conn)
    ensures After(s, events) == s
    decreases events
  {
    if events != [] {
      assert events[0] in events;
      HolderIsolated(Step(s, events[0]), events[1..], conn);
    }
  }

  /** Inside a transaction the lock stays with its writer and the committed rows stay. */
  lemma {:induction false} InnerRun(s: Spec, events: seq<Event>)
    requires Run(s, events) && forall e :: e in events ==> Inner(e)
    ensures After(s, events).committed == s.committed && After(s, events).lock == s.lock
    decreases events
  {
    if events != [] {
      assert events[0] in events;
      InnerRun(Step(s, events[0]), events[1..]);
    }
  }

  lemma {:induction false} AfterAppend(s: Spec, events: seq<Event>, e: Event)
    requires Run(s, events + [e])
    ensures Run(s, events) && Enabled(After(s, events), e) && After(s, events + [e]) == Step(After(s, events), e)
    decreases events
  {
    if events != [] {
      assert (events + [e])[0] == events[0] && (events + [e])[1..] == events[1..] + [e];
      AfterAppend(Step(s, events[0]), events[1..], e);
    } else {
      assert (events + [e])[0] == e && (events + [e])[1..] == [];
    }
  }

  /** A transaction rolled back leaves what it found, whatever it did. */
  lemma RollbackUndoes(s: Spec, conn: nat, inner: seq<Event>)
    requires s.lock == Unlocked && Run(s, [Locked(conn)] + inner + [RolledBack(conn)])
    requires forall e :: e in inner ==> Inner(e)
    ensures After(s, [Locked(conn)] + inner + [RolledBack(conn)]) == Spec(s.committed, Unlocked, s.committed)
  {
    var t := [Locked(conn)] + inner;
    AfterAppend(s, t, RolledBack(conn));
    assert t[0] == Locked(conn) && t[1..] == inner;
    InnerRun(Step(s, Locked(conn)), inner);
  }

  /** A transaction committed shows everybody what its writer saw last. */
  lemma CommitShows(s: Spec, conn: nat, inner: seq<Event>, other: nat)
    requires s.lock == Unlocked && Run(s, [Locked(conn)] + inner + [Committed(conn)])
    requires forall e :: e in inner ==> Inner(e)
    ensures var before, after := After(s, [Locked(conn)] + inner), After(s, [Locked(conn)] + inner + [Committed(conn)]);
      View(after, other) == View(before, conn)
    ensures other != conn ==> View(After(s, [Locked(conn)] + inner), other) == View(s, other)
  {
    var t := [Locked(conn)] + inner;
    AfterAppend(s, t, Committed(conn));
    assert t[0] == Locked(conn) && t[1..] == inner;
    InnerRun(Step(s, Locked(conn)), inner);
  }
}
