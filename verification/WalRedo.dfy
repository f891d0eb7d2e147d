/**
Redoing a log. A commit marks its new rows and then removes its deleted rows; its records
name the deleted rows first. Tables are of fixed width, and a row is named by its table and
its row id.
*/
module WalRedo {
  import opened RowWord
  import opened WalCodec

  type RowName = (Word, nat)
  type Tables = map<RowName, seq<Word>>

  function NameOf(r: Rec): RowName { (r.tbl, r.rid) }

  function RedoOne(st: Tables, r: Rec): Tables {
    if r.del then st - {NameOf(r)} else st[NameOf(r) := r.data]
  }

  ghost function Redo(st: Tables, rs: seq<Rec>): Tables
    decreases rs
  {
    if rs == [] then st else Redo(RedoOne(st, rs[0]), rs[1..])
  }

  ghost function Logged(rs: seq<Rec>): set<RowName> { set i | 0 <= i < |rs| :: NameOf(rs[i]) }

  /** Two states that differ at most on some keys. */
  ghost predicate AgreeBut(a: Tables, b: Tables, keys: set<RowName>) {
    forall k :: k !in keys ==> (k in a <==> k in b) && (k in a ==> a[k] == b[k])
  }

  method RedoAll(st0: Tables, rs: seq<Rec>) returns (st: Tables)
    ensures st == Redo(st0, rs)
  {
    st := st0;
    for i := 0 to |rs|
      invariant Redo(st, rs[i..]) == Redo(st0, rs)
    {
      assert rs[i..][1..] == rs[i + 1..];
      st := RedoOne(st, rs[i]);
    }
  }

  lemma {:induction false} RedoTwoParts(st: Tables, a: seq<Rec>, b: seq<Rec>)
    ensures Redo(st, a + b) == Redo(Redo(st, a), b)
    decreases a
  {
    if a == [] {
      assert a + b == b;
    } else {
      RedoTwoParts(RedoOne(st, a[0]), a[1..], b);
      assert (a + b)[1..] == a[1..] + b;
    }
  }

  /** What is logged is redone to one result, whatever was there. */
  lemma {:induction false} RedoForgets(a: Tables, b: Tables, rs: seq<Rec>)
    requires AgreeBut(a, b, Logged(rs))
    ensures Redo(a, rs) == Redo(b, rs)
    decreases rs
  {
    if rs == [] {
      assert a == b;
    } else {
      assert Logged(rs) == Logged(rs[1..]) + {NameOf(rs[0])} by {
        LoggedFirst(rs);
      }
      RedoForgets(RedoOne(a, rs[0]), RedoOne(b, rs[0]), rs[1..]);
    }
  }

  lemma LoggedFirst(rs: seq<Rec>)
    requires rs != []
    ensures Logged(rs) == Logged(rs[1..]) + {NameOf(rs[0])}
  {
    forall k | k in Logged(rs)
      ensures k in Logged(rs[1..]) + {NameOf(rs[0])}
    {
      var i :| 0 <= i < |rs| && NameOf(rs[i]) == k;
      assert i > 0 ==> rs[1..][i - 1] == rs[i];
    }
    forall k | k in Logged(rs[1..])
      ensures k in Logged(rs)
    {
      var i :| 0 <= i < |rs[1..]| && NameOf(rs[1..][i]) == k;
      assert rs[i + 1] == rs[1..][i];
    }
  }

  /** Nothing else is touched. */
  lemma {:induction false} RedoKeeps(st: Tables, rs: seq<Rec>)
    ensures AgreeBut(Redo(st, rs), st, Logged(rs))
    decreases rs
  {
    if rs != [] {
      LoggedFirst(rs);
      RedoKeeps(RedoOne(st, rs[0]), rs[1..]);
    }
  }

  /** Redoing a log twice is redoing it once. */
  lemma RedoTwice(st: Tables, rs: seq<Rec>)
    ensures Redo(Redo(st, rs), rs) == Redo(st, rs)
  {
    RedoKeeps(st, rs);
    RedoForgets(Redo(st, rs), st, rs);
  }

  // ----- commits

  /** What a commit does to one table. */
  datatype Change = Change(tbl: Word, news: seq<(nat, seq<Word>)>, dels: seq<nat>)

  function DelRecs(tbl: Word, dels: seq<nat>): (rs: seq<Rec>)
    ensures |rs| == |dels| && forall i :: 0 <= i < |rs| ==> rs[i] == Rec(true, dels[i], tbl, [])
  {
    seq(|dels|, i requires 0 <= i < |dels| => Rec(true, dels[i], tbl, []))
  }

  function NewRecs(tbl: Word, news: seq<(nat, seq<Word>)>): (rs: seq<Rec>)
    ensures |rs| == |news| && forall i :: 0 <= i < |rs| ==> rs[i] == Rec(false, news[i].0, tbl, news[i].1)
  {
    seq(|news|, i requires 0 <= i < |news| => Rec(false, news[i].0, tbl, news[i].1))
  }

  /** The records of a commit: deletions first. */
  function RecsOf(c: Change): seq<Rec> { DelRecs(c.tbl, c.dels) + NewRecs(c.tbl, c.news) }

  /** The commit itself: new rows first. */
  ghost function Apply(st: Tables, c: Change): Tables {
    Redo(Redo(st, NewRecs(c.tbl, c.news)), DelRecs(c.tbl, c.dels))
  }

  /** No row is both new and deleted. */
  ghost predicate Disjoint(c: Change) {
    forall i, j :: 0 <= i < |c.news| && 0 <= j < |c.dels| ==> c.news[i].0 != c.dels[j]
  }

  lemma {:induction false} DelsGone(st: Tables, tbl: Word, dels: seq<nat>)
    ensures Redo(st, DelRecs(tbl, dels)) == st - Logged(DelRecs(tbl, dels))
    decreases dels
  {
    var rs := DelRecs(tbl, dels);
    if dels == [] {
      assert Logged(rs) == {};
      assert st - Logged(rs) == st;
    } else {
      assert rs[1..] == DelRecs(tbl, dels[1..]);
      LoggedFirst(rs);
      DelsGone(st - {NameOf(rs[0])}, tbl, dels[1..]);
    }
  }

  lemma {:induction false} NewsThere(st: Tables, tbl: Word, news: seq<(nat, seq<Word>)>, i: nat)
    requires i < |news|
    ensures (tbl, news[i].0) in Redo(st, NewRecs(tbl, news))
    decreases news
  {
    var rs := NewRecs(tbl, news);
    assert rs[1..] == NewRecs(tbl, news[1..]);
    if i > 0 {
      NewsThere(RedoOne(st, rs[0]), tbl, news[1..], i - 1);
    } else {
      NewsStay(RedoOne(st, rs[0]), tbl, news[1..], NameOf(rs[0]));
    }
  }

  lemma {:induction false} NewsStay(st: Tables, tbl: Word, news: seq<(nat, seq<Word>)>, k: RowName)
    requires k in st
    ensures k in Redo(st, NewRecs(tbl, news))
    decreases news
  {
    if news != [] {
      var rs := NewRecs(tbl, news);
      assert rs[1..] == NewRecs(tbl, news[1..]);
      NewsStay(RedoOne(st, rs[0]), tbl, news[1..], k);
    }
  }

  /** The order of new and deleted rows does not matter when no row is both. */
  lemma DisjointSwap(st: Tables, c: Change)
    requires Disjoint(c)
    ensures Redo(st, RecsOf(c)) == Apply(st, c)
  {
    var d, n := DelRecs(c.tbl, c.dels), NewRecs(c.tbl, c.news);
    RedoTwoParts(st, d, n);
    DelsGone(st, c.tbl, c.dels);
    DelsGone(Redo(st, n), c.tbl, c.dels);
    NewsCommute(st, n, Logged(d)) by {
      forall i | 0 <= i < |n|
        ensures NameOf(n[i]) !in Logged(d)
      {
        assert n[i] == Rec(false, c.news[i].0, c.tbl, c.news[i].1);
        assert forall j :: 0 <= j < |d| ==> d[j] == Rec(true, c.dels[j], c.tbl, []);
      }
    }
  }

  lemma {:induction false} NewsCommute(st: Tables, n: seq<Rec>, gone: set<RowName>)
    requires forall i :: 0 <= i < |n| ==> !n[i].del && NameOf(n[i]) !in gone
    ensures Redo(st - gone, n) == Redo(st, n) - gone
    decreases n
  {
    if n != [] {
      assert RedoOne(st - gone, n[0]) == RedoOne(st, n[0]) - gone;
      NewsCommute(RedoOne(st, n[0]), n[1..], gone);
    }
  }

  /** Redo does what commit did exactly when no row is both new and deleted. */
  lemma RedoIsCommit(c: Change)
    ensures (forall st :: Redo(st, RecsOf(c)) == Apply(st, c)) <==> Disjoint(c)
  {
    if Disjoint(c) {
      forall st
        ensures Redo(st, RecsOf(c)) == Apply(st, c)
      {
        DisjointSwap(st, c);
      }
    } else {
      var i, j :| 0 <= i < |c.news| && 0 <= j < |c.dels| && c.news[i].0 == c.dels[j];
      BothWays(map[], c, i, j);
    }
  }

  /** A row both new and deleted is there after redo and gone after commit. */
  lemma BothWays(st: Tables, c: Change, i: nat, j: nat)
    requires i < |c.news| && j < |c.dels| && c.news[i].0 == c.dels[j]
    ensures (c.tbl, c.dels[j]) in Redo(st, RecsOf(c)) && (c.tbl, c.dels[j]) !in Apply(st, c)
  {
    var d, n := DelRecs(c.tbl, c.dels), NewRecs(c.tbl, c.news);
    RedoTwoParts(st, d, n);
    NewsThere(Redo(st, d), c.tbl, c.news, i);
    DelsGone(Redo(st, n), c.tbl, c.dels);
    assert NameOf(d[j]) in Logged(d);
  }

  // ----- runs of commits

  ghost function ApplyAll(st: Tables, cs: seq<Change>): Tables
    decreases cs
  {
    if cs == [] then st else ApplyAll(Apply(st, cs[0]), cs[1..])
  }

  function AllRecs(cs: seq<Change>): seq<Rec> {
    if cs == [] then [] else RecsOf(cs[0]) + AllRecs(cs[1..])
  }

  lemma {:induction false} RunRedone(st: Tables, cs: seq<Change>)
    requires forall i :: 0 <= i < |cs| ==> Disjoint(cs[i])
    ensures Redo(st, AllRecs(cs)) == ApplyAll(st, cs)
    decreases cs
  {
    if cs != [] {
      RedoTwoParts(st, RecsOf(cs[0]), AllRecs(cs[1..]));
      DisjointSwap(st, cs[0]);
      RunRedone(Apply(st, cs[0]), cs[1..]);
    }
  }

  /**
  Redoing the log of a run of commits, over any state that differs from the start only in
  logged rows, gives what the commits gave; redoing it again changes nothing.
  */
  lemma RedoRecovers(start: Tables, found: Tables, cs: seq<Change>)
    requires forall i :: 0 <= i < |cs| ==> Disjoint(cs[i])
    requires AgreeBut(found, start, Logged(AllRecs(cs)))
    ensures Redo(found, AllRecs(cs)) == ApplyAll(start, cs)
    ensures Redo(Redo(found, AllRecs(cs)), AllRecs(cs)) == ApplyAll(start, cs)
  {
    RedoForgets(found, start, AllRecs(cs));
    RunRedone(start, cs);
    RedoTwice(found, AllRecs(cs));
  }
}
