/**
Logging the transactions of a table. What a commit does to the rows is what redoing its
records does, so recovery from the logs gives the table's committed rows.
*/
module TableLog {
  import opened RowWord
  import opened RowGroups
  import opened Store
  import opened TxSpec
  import opened TableRows
  import opened Table
  import opened WalCodec
  import opened WalRedo
  import P = WalPair

  /** A row as the log holds it. */
  type Encoding = Row -> seq<Word>

  ghost predicate ShowsRow(st: Tables, tbl: Word, rows: Contents, enc: Encoding, r: nat) {
    ((tbl, r) in st <==> r in rows) && (r in rows ==> st[(tbl, r)] == enc(rows[r]))
  }

  /** Of table `tbl` these are the rows. */
  ghost predicate Shows(st: Tables, tbl: Word, rows: Contents, enc: Encoding) {
    forall r: nat {:trigger ShowsRow(st, tbl, rows, enc, r)} :: ShowsRow(st, tbl, rows, enc, r)
  }

  // ----- the change that a transaction makes

  /** The deleted and the new row ids, each once, the new ones with the rows their writer sees. */
  ghost predicate Lists(ch: Change, conn: Conn, work: Contents, enc: Encoding) {
    ListsDels(ch.dels, conn.delRows) && ListsNews(ch.news, conn.newRows, work, enc)
  }

  ghost predicate ListsDels(dels: seq<nat>, rows: set<nat>) { NoDup(dels) && forall r :: r in dels <==> r in rows }

  ghost predicate NewRow(news: seq<(nat, seq<Word>)>, rows: set<nat>, work: Contents, enc: Encoding, i: nat)
    requires i < |news|
  {
    news[i].0 in rows && news[i].0 in work && news[i].1 == enc(work[news[i].0])
  }

  ghost predicate Listed(news: seq<(nat, seq<Word>)>, r: nat) { exists i :: 0 <= i < |news| && news[i].0 == r }

  ghost predicate Apart(news: seq<(nat, seq<Word>)>) {
    forall i, j :: 0 <= i < j < |news| ==> news[i].0 != news[j].0
  }

  ghost predicate ListsNews(news: seq<(nat, seq<Word>)>, rows: set<nat>, work: Contents, enc: Encoding) {
    && Apart(news) && (forall i {:trigger NewRow(news, rows, work, enc, i)} :: 0 <= i < |news| ==>
      NewRow(news, rows, work, enc, i))
    && forall r {:trigger Listed(news, r)} :: r in rows ==> Listed(news, r)
  }

  /** The row ids of a set, in ascending order. */
  method ListDels(rows: set<nat>, max: nat) returns (dels: seq<nat>)
    requires forall r :: r in rows ==> 1 <= r <= max
    ensures ListsDels(dels, rows)
  {
    dels := [];
    for r := 1 to max + 1
      invariant NoDup(dels) && forall x :: x in dels <==> x in rows && x < r
    {
      if r in rows {
        dels := dels + [r];
      }
    }
  }

  /** The rows of a set with their contents, in ascending order of row ids. */
  method ListNews(rows: set<nat>, blocks: seq<Block>, max: nat, enc: Encoding, ghost work: Contents)
    returns (news: seq<(nat, seq<Word>)>)
    requires forall r :: r in rows ==> 1 <= r <= max && r < |blocks| && r in work && work[r] == blocks[r].row
    ensures ListsNews(news, rows, work, enc)
  {
    news := [];
    for r := 1 to max + 1
      invariant Apart(news) && forall i :: 0 <= i < |news| ==> news[i].0 < r
      invariant forall i {:trigger NewRow(news, rows, work, enc, i)} :: 0 <= i < |news| ==>
        NewRow(news, rows, work, enc, i)
      invariant forall x {:trigger Listed(news, x)} :: x in rows && x < r ==> Listed(news, x)
    {
      if r in rows {
        ghost var n := news;
        news := news + [(r, enc(blocks[r].row))];
        OneMoreListed(n, news, r);
        forall i | 0 <= i < |news|
          ensures NewRow(news, rows, work, enc, i)
        {
          assert i < |n| ==> NewRow(n, rows, work, enc, i);
        }
      }
    }
  }

  lemma OneMoreListed(n: seq<(nat, seq<Word>)>, news: seq<(nat, seq<Word>)>, r: nat)
    requires |news| == |n| + 1 && news[|n|].0 == r && forall i :: 0 <= i < |n| ==> news[i] == n[i]
    ensures Listed(news, r) && forall x {:trigger Listed(news, x)} :: Listed(n, x) ==> Listed(news, x)
  {
    forall x | Listed(n, x)
      ensures Listed(news, x)
    {
      var i :| 0 <= i < |n| && n[i].0 == x;
      assert news[i].0 == x;
    }
  }

  method ChangeOf(t: Table, c: nat, tbl: Word, enc: Encoding) returns (ch: Change)
    requires t.Valid() && t.lock == LockedBy(c)
    ensures ch.tbl == tbl && Lists(ch, t.conns[c], t.Abs().work, enc)
  {
    Open(t, c);
    var dels := ListDels(t.conns[c].delRows, t.store.maxid);
    var news := ListNews(t.conns[c].newRows, t.store.blocks, t.store.maxid, enc, t.Abs().work);
    ch := Change(tbl, news, dels);
  }

  /** Which rows a transaction has open, and how views differ by them. */
  ghost predicate RowDiffers(s: Spec, conn: Conn, max: nat, r: nat) {
    && (r in conn.newRows ==> 1 <= r <= max && r !in conn.delRows && r in s.work && r !in s.committed)
    && (r in conn.delRows ==> 1 <= r <= max && r !in s.work && r in s.committed)
    && (r !in conn.newRows && r !in conn.delRows ==>
          (r in s.work <==> r in s.committed) && (r in s.work ==> s.work[r] == s.committed[r]))
  }

  lemma Open(t: Table, c: nat)
    requires t.Valid() && t.lock == LockedBy(c)
    ensures t.store.maxid < |t.store.blocks|
    ensures forall r: nat {:trigger RowDiffers(t.Abs(), t.conns[c], t.store.maxid, r)} ::
      RowDiffers(t.Abs(), t.conns[c], t.store.maxid, r)
    ensures forall r: nat :: r in t.conns[c].newRows ==>
      1 <= r <= t.store.maxid && r in t.Abs().work && t.Abs().work[r] == t.store.blocks[r].row
    ensures forall r: nat :: r in t.conns[c].delRows ==> 1 <= r <= t.store.maxid
  {
    forall r: nat
      ensures RowDiffers(t.Abs(), t.conns[c], t.store.maxid, r)
      ensures r in t.conns[c].newRows ==> r in t.Abs().work && t.Abs().work[r] == t.store.blocks[r].row
      ensures r in t.conns[c].delRows ==> 1 <= r <= t.store.maxid
    {
      OpenRow(t.Im(), t.index.rows, t.conns[c], r);
    }
  }

  // ----- redoing it

  lemma {:induction false} NewsRedone(st: Tables, tbl: Word, news: seq<(nat, seq<Word>)>, r: nat)
    requires Apart(news)
    ensures !Listed(news, r) ==> ((tbl, r) in Redo(st, NewRecs(tbl, news)) <==> (tbl, r) in st)
    ensures !Listed(news, r) && (tbl, r) in st ==> Redo(st, NewRecs(tbl, news))[(tbl, r)] == st[(tbl, r)]
    ensures forall i :: 0 <= i < |news| && news[i].0 == r ==>
      (tbl, r) in Redo(st, NewRecs(tbl, news)) && Redo(st, NewRecs(tbl, news))[(tbl, r)] == news[i].1
    decreases news
  {
    if news != [] {
      var rs, rest := NewRecs(tbl, news), news[1..];
      assert rs[1..] == NewRecs(tbl, rest);
      var st1 := RedoOne(st, rs[0]);
      NewsRedone(st1, tbl, rest, r);
      assert forall i :: 1 <= i < |news| ==> news[i] == rest[i - 1];
      assert forall i :: 0 <= i < |rest| ==> rest[i] == news[i + 1];
      assert Listed(rest, r) ==> Listed(news, r);
    }
  }

  /** The rows of the other tables stay. */
  lemma OthersStay(st: Tables, ch: Change)
    ensures forall k: RowName :: k.0 != ch.tbl ==>
      (k in Apply(st, ch) <==> k in st) && (k in st ==> Apply(st, ch)[k] == st[k])
  {
    var n, d := NewRecs(ch.tbl, ch.news), DelRecs(ch.tbl, ch.dels);
    RedoKeeps(st, n);
    RedoKeeps(Redo(st, n), d);
    assert forall k :: k in Logged(n) ==> k.0 == ch.tbl;
    assert forall k :: k in Logged(d) ==> k.0 == ch.tbl;
  }

  lemma DelsLogged(tbl: Word, dels: seq<nat>, r: nat)
    ensures (tbl, r) in Logged(DelRecs(tbl, dels)) <==> r in dels
  {
    var d := DelRecs(tbl, dels);
    if r in dels {
      var j :| 0 <= j < |dels| && dels[j] == r;
      assert NameOf(d[j]) == (tbl, r);
    }
  }

  /** Applied to the committed rows the change gives the rows its writer sees. */
  lemma ChangeIsCommit(t: Table, c: nat, ch: Change, enc: Encoding, st: Tables)
    requires t.Valid() && t.lock == LockedBy(c) && Lists(ch, t.conns[c], t.Abs().work, enc)
    requires Shows(st, ch.tbl, t.Abs().committed, enc)
    ensures Disjoint(ch) && Shows(Apply(st, ch), ch.tbl, t.Abs().work, enc)
  {
    Open(t, c);
    var s, conn, max := t.Abs(), t.conns[c], t.store.maxid;
    forall i, j | 0 <= i < |ch.news| && 0 <= j < |ch.dels|
      ensures ch.news[i].0 != ch.dels[j]
    {
      assert NewRow(ch.news, conn.newRows, s.work, enc, i) && ch.dels[j] in ch.dels;
      assert RowDiffers(s, conn, max, ch.dels[j]);
    }
    forall r: nat
      ensures ShowsRow(Apply(st, ch), ch.tbl, s.work, enc, r)
    {
      assert RowDiffers(s, conn, max, r) && ShowsRow(st, ch.tbl, s.committed, enc, r);
      RowApplied(st, ch, s, conn, enc, max, r);
    }
  }

  lemma RowApplied(st: Tables, ch: Change, s: Spec, conn: Conn, enc: Encoding, max: nat, r: nat)
    requires Lists(ch, conn, s.work, enc) && RowDiffers(s, conn, max, r) && ShowsRow(st, ch.tbl, s.committed, enc, r)
    ensures ShowsRow(Apply(st, ch), ch.tbl, s.work, enc, r)
  {
    var st1 := Redo(st, NewRecs(ch.tbl, ch.news));
    NewsRedone(st, ch.tbl, ch.news, r);
    DelsGone(st1, ch.tbl, ch.dels);
    DelsLogged(ch.tbl, ch.dels, r);
    ListedIs(ch.news, conn.newRows, s.work, enc, r);
    if r in conn.newRows {
      var i :| 0 <= i < |ch.news| && ch.news[i].0 == r;
      assert NewRow(ch.news, conn.newRows, s.work, enc, i);
    }
  }

  lemma ListedIs(news: seq<(nat, seq<Word>)>, rows: set<nat>, work: Contents, enc: Encoding, r: nat)
    requires ListsNews(news, rows, work, enc)
    ensures Listed(news, r) <==> r in rows
  {
    if Listed(news, r) {
      var i :| 0 <= i < |news| && news[i].0 == r;
      assert NewRow(news, rows, work, enc, i);
    }
  }

  // ----- from a table's commits to recovery

  /** What the logged commits made of the rows at the start is what the table has committed. */
  ghost predicate Recoverable(t: Table, logs: P.LogPair, tbl: Word, enc: Encoding, start: Tables,
        commits: seq<seq<Change>>)
    reads t, t.store, t.index, logs, logs.active, logs.backup
  {
    && t.Valid() && logs.Valid() && P.LogsCommits(logs.Logged(), commits, {tbl})
    && Shows(ApplyAll(start, P.Flat(commits)), tbl, t.Abs().committed, enc)
  }

  lemma {:induction false} ApplyTwoParts(st: Tables, a: seq<Change>, b: seq<Change>)
    ensures ApplyAll(st, a + b) == ApplyAll(ApplyAll(st, a), b)
    decreases a
  {
    if a == [] {
      assert a + b == b;
    } else {
      assert (a + b)[0] == a[0] && (a + b)[1..] == a[1..] + b;
      ApplyTwoParts(Apply(st, a[0]), a[1..], b);
    }
  }

  lemma {:induction false} FlatMore(commits: seq<seq<Change>>, last: seq<Change>)
    ensures P.Flat(commits + [last]) == P.Flat(commits) + last
    decreases commits
  {
    var all := commits + [last];
    if commits == [] {
      assert all[1..] == [] && P.Flat(all) == last + [];
    } else {
      assert all[0] == commits[0] && all[1..] == commits[1..] + [last];
      FlatMore(commits[1..], last);
    }
  }

  lemma {:induction false} OneApplied(st: Tables, ch: Change)
    ensures ApplyAll(st, [ch]) == Apply(st, ch)
  {
    assert [ch][1..] == [];
  }

  lemma {:induction false} OneLogged(ch: Change)
    ensures AllRecs([ch]) == RecsOf(ch) && forall i :: 0 <= i < |RecsOf(ch)| ==> RecsOf(ch)[i].tbl == ch.tbl
  {
    assert [ch][1..] == [] && AllRecs([ch]) == RecsOf(ch) + [];
  }

  lemma LogsMore(ss: seq<Segment>, commits: seq<seq<Change>>, s: Segment, ch: Change)
    requires P.LogsCommits(ss, commits, {ch.tbl}) && s.recs == RecsOf(ch) && Disjoint(ch)
    ensures P.LogsCommits(ss + [s], commits + [[ch]], {ch.tbl})
  {
    OneLogged(ch);
    forall i | 0 <= i < |ss + [s]|
      ensures P.LogsCommit((ss + [s])[i], (commits + [[ch]])[i], {ch.tbl})
    {
      assert i < |ss| ==> P.LogsCommit(ss[i], commits[i], {ch.tbl});
    }
  }

  /** The commits logged once this change is; a change of nothing is not logged. */
  ghost function With(commits: seq<seq<Change>>, ch: Change): seq<seq<Change>> {
    if RecsOf(ch) == [] then commits else commits + [[ch]]
  }

  lemma AppliedWith(t: Table, c: nat, ch: Change, enc: Encoding, start: Tables, commits: seq<seq<Change>>)
    requires t.Valid() && t.lock == LockedBy(c) && Lists(ch, t.conns[c], t.Abs().work, enc)
    requires Shows(ApplyAll(start, P.Flat(commits)), ch.tbl, t.Abs().committed, enc)
    ensures Disjoint(ch) && Shows(ApplyAll(start, P.Flat(With(commits, ch))), ch.tbl, t.Abs().work, enc)
  {
    var st := ApplyAll(start, P.Flat(commits));
    ChangeIsCommit(t, c, ch, enc, st);
    if RecsOf(ch) == [] {
      assert NewRecs(ch.tbl, ch.news) == [] && DelRecs(ch.tbl, ch.dels) == [];
    } else {
      FlatMore(commits, [ch]);
      ApplyTwoParts(start, P.Flat(commits), [ch]);
      OneApplied(st, ch);
    }
  }

  /** Logs a writer's change and then commits it, to the log first. */
  method CommitLogged(t: Table, c: nat, logs: P.LogPair, ch: Change, time: nat, ghost enc: Encoding,
      ghost start: Tables, ghost commits: seq<seq<Change>>)
    requires Recoverable(t, logs, ch.tbl, enc, start, commits) && t.lock == LockedBy(c)
    requires Lists(ch, t.conns[c], t.Abs().work, enc) && CanLog(logs, ch, time)
    modifies t, t.store, t.index, logs.active
    ensures Recoverable(t, logs, ch.tbl, enc, start, With(commits, ch))
    ensures t.Abs().committed == old(t.Abs()).work && t.lock == Unlocked
  {
    ghost var work := t.Abs().work;
    AppliedWith(t, c, ch, enc, start, commits);
    WriteLog(logs, ch, time, commits);
    CommitTable(t, c);
    assert t.Abs().committed == work;
  }

  method CommitTable(t: Table, c: nat)
    requires t.Valid() && t.lock == LockedBy(c)
    modifies t, t.store, t.index
    ensures t.Valid() && t.Abs().committed == old(t.Abs()).work && t.lock == Unlocked
  {
    t.Commit(c);
  }

  /** The log has room for the change, and ids and lengths fit their words. */
  ghost predicate CanLog(logs: P.LogPair, ch: Change, time: nat)
    reads logs, logs.active
  {
    && logs.active.pending == [] && P.Loggable(ch) && logs.active.Room(P.SizeOf(RecsOf(ch)))
    && logs.active.commitId + 1 < 0x1_0000_0000_0000_0000 && time < 0x1_0000_0000_0000_0000
    && logs.active.commitLen + P.SizeOf(RecsOf(ch)) + COMMIT_HDR < 0x1_0000_0000_0000_0000
  }

  method WriteLog(logs: P.LogPair, ch: Change, time: nat, ghost commits: seq<seq<Change>>)
    requires logs.Valid() && CanLog(logs, ch, time) && Disjoint(ch)
    requires P.LogsCommits(logs.Logged(), commits, {ch.tbl})
    modifies logs.active
    ensures logs.Valid() && P.LogsCommits(logs.Logged(), With(commits, ch), {ch.tbl})
  {
    ghost var ss := logs.Logged();
    P.LogChange(logs.active, ch);
    assert logs.Logged() == ss;
    logs.Commit(time);
    if RecsOf(ch) != [] {
      LogsMore(ss, commits, logs.Logged()[|ss|], ch);
    }
  }

  /** Recovery brings back the table's committed rows, from any state that differs only in logged rows. */
  method RecoverTable(t: Table, logs: P.LogPair, tbl: Word, found: Tables, ghost enc: Encoding,
      ghost start: Tables, ghost commits: seq<seq<Change>>) returns (st: Tables)
    requires Recoverable(t, logs, tbl, enc, start, commits) && logs.phase == P.Idle && logs.active.pending == []
    requires AgreeBut(found, start, Logged(AllRecs(P.Flat(commits))))
    modifies logs, logs.active, logs.backup
    ensures Shows(st, tbl, t.Abs().committed, enc)
    ensures Recoverable(t, logs, tbl, enc, st, [])
  {
    P.RecoveryIsCommits(logs.Logged(), commits, {tbl}, start, found);
    st := logs.Recover({tbl}, found, logs.active.commitId);
    assert P.Flat([]) == [] && ApplyAll(st, []) == st;
  }

  // ----- a flush

  lemma {:induction false} FlatTwoParts(a: seq<seq<Change>>, b: seq<seq<Change>>)
    ensures P.Flat(a + b) == P.Flat(a) + P.Flat(b)
    decreases a
  {
    if a == [] {
      assert a + b == b;
    } else {
      var ab := a + b;
      assert ab[0] == a[0] && ab[1..] == a[1..] + b;
      FlatTwoParts(a[1..], b);
      assert P.Flat(ab) == a[0] + (P.Flat(a[1..]) + P.Flat(b));
    }
  }

  /** The last commits, over the state that the ones before gave; and the state they gave is one to recover from. */
  lemma LastCommits(ss: seq<Segment>, commits: seq<seq<Change>>, n: nat, tbl: Word, start: Tables)
    returns (start': Tables)
    requires P.LogsCommits(ss, commits, {tbl}) && n <= |ss|
    ensures P.LogsCommits(ss[n..], commits[n..], {tbl})
    ensures ApplyAll(start', P.Flat(commits[n..])) == ApplyAll(start, P.Flat(commits))
    ensures AgreeBut(ApplyAll(start, P.Flat(commits)), start', Logged(AllRecs(P.Flat(commits[n..]))))
  {
    var a, b := commits[..n], commits[n..];
    assert commits == a + b;
    start' := ApplyAll(start, P.Flat(a));
    FlatTwoParts(a, b);
    ApplyTwoParts(start, P.Flat(a), P.Flat(b));
    forall i | 0 <= i < |ss[n..]|
      ensures P.LogsCommit(ss[n..][i], b[i], {tbl})
    {
      assert P.LogsCommit(ss[n + i], commits[n + i], {tbl});
    }
    P.LoggedRecords(ss[n..], b, {tbl});
    RunRedone(start', P.Flat(b));
    RedoKeeps(start', AllRecs(P.Flat(b)));
  }

  /**
  A flush drops the commits of the backup log, or those of the active one when the backup was
  empty. The tables it wrote are a state from which the commits still logged can be recovered.
  */
  method FlushTable(t: Table, logs: P.LogPair, ghost tbl: Word, ghost enc: Encoding, ghost start: Tables,
      ghost commits: seq<seq<Change>>) returns (ghost start': Tables, ghost commits': seq<seq<Change>>)
    requires Recoverable(t, logs, tbl, enc, start, commits) && logs.phase == P.Idle && logs.active.pending == []
    modifies logs, logs.active, logs.backup
    ensures Recoverable(t, logs, tbl, enc, start', commits')
    ensures AgreeBut(ApplyAll(start, P.Flat(commits)), start', Logged(AllRecs(P.Flat(commits'))))
    ensures var n := if old(logs.backup.segs) != [] then |old(logs.backup.segs)| else |old(logs.active.segs)|;
      n <= |commits| && commits' == commits[n..]
  {
    ghost var ss := logs.Logged();
    ghost var n := logs.FlushDb();
    start' := LastCommits(ss, commits, n, tbl, start);
    commits' := commits[n..];
  }
}
