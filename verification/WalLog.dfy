/**
One write-ahead log: records are appended behind the last commit, a commit makes them a
segment, and the iterator reads them back. The memory is taken to be large enough.
*/
module WalLog {
  import opened RowWord
  import opened WalCodec

  /** The records the iterator calls back for: those before the first one of an unknown table. */
  function Known(rs: seq<Rec>, tables: set<Word>): seq<Rec> {
    if rs == [] || rs[0].tbl !in tables then [] else [rs[0]] + Known(rs[1..], tables)
  }

  ghost function Records(ss: seq<Segment>, tables: set<Word>): seq<Rec> {
    if ss == [] then [] else Known(ss[0].recs, tables) + Records(ss[1..], tables)
  }

  /** It stops before the first record of an unknown table. */
  lemma {:induction false} KnownStops(rs: seq<Rec>, tables: set<Word>)
    ensures var n := |Known(rs, tables)|;
      && n <= |rs| && Known(rs, tables) == rs[..n] && (forall i :: 0 <= i < n ==> rs[i].tbl in tables)
      && (n < |rs| ==> rs[n].tbl !in tables)
  {
    if rs != [] && rs[0].tbl in tables {
      KnownStops(rs[1..], tables);
      var n := |Known(rs, tables)|;
      assert rs[..n] == [rs[0]] + rs[1..][..n - 1];
    }
  }

  /** The records of a log with one segment more. */
  lemma {:induction false} RecordsMore(ss: seq<Segment>, s: Segment, tables: set<Word>)
    ensures Records([], tables) == [] && Records(ss + [s], tables) == Records(ss, tables) + Known(s.recs, tables)
  {
    if ss == [] {
      assert [s][1..] == [] && Records([s], tables) == Known(s.recs, tables) + Records([], tables);
      assert ss + [s] == [s];
    } else {
      RecordsMore(ss[1..], s, tables);
      assert (ss + [s])[0] == ss[0] && (ss + [s])[1..] == ss[1..] + [s];
      var a, b, c := Known(ss[0].recs, tables), Records(ss[1..], tables), Known(s.recs, tables);
      assert a + (b + c) == (a + b) + c;
    }
  }

  /** With every table known nothing is left out. */
  lemma {:induction false} AllKnown(rs: seq<Rec>, tables: set<Word>)
    requires forall i :: 0 <= i < |rs| ==> rs[i].tbl in tables
    ensures Known(rs, tables) == rs
  {
    if rs != [] {
      AllKnown(rs[1..], tables);
      assert rs == [rs[0]] + rs[1..];
    }
  }

  lemma {:induction false} RecsFirst(rs: seq<Rec>, mem: Mem, o: nat)
    requires RecsOk(rs) && rs != [] && Holds(mem, o, RecsWords(rs))
    ensures RecOk(rs[0]) && RecsOk(rs[1..]) && o + ROW_HDR <= |mem| && RecAt(mem, o) == rs[0]
    ensures mem[o] == |RecWords(rs[0])| && |RecsWords(rs)| == mem[o] + |RecsWords(rs[1..])| && mem[o] >= ROW_HDR
    ensures Holds(mem, o + mem[o], RecsWords(rs[1..]))
  {
    HoldsBoth(mem, o, RecWords(rs[0]), RecsWords(rs[1..]));
    RecRead(mem, o, rs[0]);
  }

  lemma {:induction false} RecsEmpty(rs: seq<Rec>)
    requires RecsOk(rs)
    ensures |RecsWords(rs)| == 0 <==> rs == []
  {
  }

  lemma {:induction false} SegmentFirst(ss: seq<Segment>, mem: Mem, o: nat, sum: Mem -> Word)
    requires SegmentsOk(ss) && ss != [] && Holds(mem, o, LogWords(ss, sum))
    ensures SegmentOk(ss[0]) && SegmentsOk(ss[1..])
    ensures var rows := RecsWords(ss[0].recs); var len := COMMIT_HDR + |rows|;
      && |LogWords(ss, sum)| == len + |LogWords(ss[1..], sum)|
      && o + len <= |mem| && Wide(mem, o) == len && Wide(mem, o + 2) == ss[0].id && mem[o + 6] == sum(rows)
      && mem[o + COMMIT_HDR..o + len] == rows && Holds(mem, o + COMMIT_HDR, rows)
      && Holds(mem, o + len, LogWords(ss[1..], sum)) && |rows| > 0
  {
    SegmentsRest(ss);
    var s, rows := ss[0], RecsWords(ss[0].recs);
    var h := Header(COMMIT_HDR + |rows|, s.id, s.time, sum(rows));
    HoldsBoth(mem, o, SegmentWords(s, sum), LogWords(ss[1..], sum));
    HoldsBoth(mem, o, h, rows);
    HeaderRead(mem, o, COMMIT_HDR + |rows|, s.id, s.time, sum(rows));
    RecsEmpty(s.recs);
  }

  lemma {:induction false} NoSegment(ss: seq<Segment>, sum: Mem -> Word)
    requires SegmentsOk(ss)
    ensures |LogWords(ss, sum)| == 0 <==> ss == []
  {
    if ss != [] {
      SegmentsRest(ss);
    }
  }

  /** A header written before the rows makes the log longer. */
  lemma {:induction false} HoldsMore(m: Mem, m': Mem, first: nat, log: Mem, h: Mem, rows: Mem, log': Mem)
    requires Holds(m, first, log) && Holds(m, first + |log| + |h|, rows) && |m'| == |m|
    requires Holds(m', first + |log|, h)
    requires forall i :: 0 <= i < first + |log| + |h| + |rows| && !(first + |log| <= i < first + |log| + |h|) ==>
      m'[i] == m[i]
    requires log' == log + (h + rows)
    ensures Holds(m', first, log')
  {
    HoldsKept(m, m', first, log);
    HoldsKept(m, m', first + |log| + |h|, rows);
    HoldsBoth(m', first + |log|, h, rows);
    HoldsBoth(m', first, log, h + rows);
  }

  lemma {:induction false} LogGrown(ss: seq<Segment>, s: Segment, sum: Mem -> Word, h: Mem)
    requires SegmentOk(s) && SegmentsOk(ss)
    requires h == Header(COMMIT_HDR + |RecsWords(s.recs)|, s.id, s.time, sum(RecsWords(s.recs)))
    ensures SegmentsOk(ss + [s]) && LogWords(ss + [s], sum) == LogWords(ss, sum) + (h + RecsWords(s.recs))
    ensures |LogWords(ss + [s], sum)| == |LogWords(ss, sum)| + COMMIT_HDR + |RecsWords(s.recs)|
  {
    LogAppend(ss, s, sum);
  }

  /** The id of the last of these segments, or else id0. */
  function LastId(ss: seq<Segment>, id0: nat): nat { if ss == [] then id0 else ss[|ss| - 1].id }

  lemma {:induction false} NextOf(all: seq<Segment>, done: seq<Segment>, rest: seq<Segment>)
    requires all == done + rest && rest != []
    ensures all == (done + [rest[0]]) + rest[1..]
  {
  }

  lemma {:induction false} RecordsNext(visited: seq<Rec>, rows: seq<Rec>, rest: seq<Segment>, tables: set<Word>)
    requires rest != [] && rows == Known(rest[0].recs, tables)
    ensures (visited + rows) + Records(rest[1..], tables) == visited + Records(rest, tables)
  {
  }

  // ----- logs that are torn

  /** The segments stand from o on, one after the other, and where they end reading stops. */
  ghost predicate Intact(mem: Mem, size: nat, o: nat, ss: seq<Segment>, sum: Mem -> Word) {
    && SegmentsOk(ss) && Holds(mem, o, LogWords(ss, sum))
    && o + |LogWords(ss, sum)| + COMMIT_HDR <= size <= |mem| && Stops(mem, size, o + |LogWords(ss, sum)|, sum)
  }

  /** No commit starts here, or it does not lie within the log, or its checksum is another. */
  ghost predicate Stops(mem: Mem, size: nat, o: nat, sum: Mem -> Word)
    requires o + COMMIT_HDR <= |mem|
  {
    var len := Wide(mem, o);
    || len == 0 || o + COMMIT_HDR + len > size
    || (len >= COMMIT_HDR && o + len <= |mem| && mem[o + 6] > 0 && sum(mem[o + COMMIT_HDR..o + len]) != mem[o + 6])
  }

  /** Reading stops before a segment only when there is none. */
  lemma {:induction false} NoneFollow(mem: Mem, size: nat, o: nat, ss: seq<Segment>, sum: Mem -> Word)
    requires Intact(mem, size, o, ss, sum)
    ensures ss != [] ==> o + 1 < |mem| && o < size && Wide(mem, o) > 0
  {
    if ss != [] {
      SegmentFirst(ss, mem, o, sum);
    }
  }

  lemma {:induction false} LogTwoParts(a: seq<Segment>, b: seq<Segment>, sum: Mem -> Word)
    requires SegmentsOk(a + b)
    ensures SegmentsOk(a) && SegmentsOk(b) && LogWords(a + b, sum) == LogWords(a, sum) + LogWords(b, sum)
    decreases |b|
  {
    forall i | 0 <= i < |a|
      ensures SegmentOk(a[i])
    {
      assert (a + b)[i] == a[i];
    }
    forall i | 0 <= i < |b|
      ensures SegmentOk(b[i])
    {
      assert (a + b)[|a| + i] == b[i];
    }
    if b == [] {
      assert a + b == a;
    } else {
      var c, s := b[..|b| - 1], b[|b| - 1];
      assert a + b == (a + c) + [s] && b == c + [s];
      forall i | 0 <= i < |a + c|
        ensures SegmentOk((a + c)[i])
      {
        assert (a + b)[i] == (a + c)[i];
      }
      LogTwoParts(a, c, sum);
      LogAppend(a + c, s, sum);
      LogAppend(c, s, sum);
      Regroup(LogWords(a, sum), LogWords(c, sum), SegmentWords(s, sum));
    }
  }

  /**
  A commit whose rows are damaged is where reading stops, when its checksum is not 0 and
  differs from that of what now stands there: the commits before it are read, it and those
  after it are not. Here it is the first one of r.
  */
  lemma {:induction false} DamageStops(mem: Mem, mem': Mem, size: nat, a: seq<Segment>, r: seq<Segment>,
        sum: Mem -> Word)
    requires SegmentsOk(a + r) && SegmentsOk(a) && r != [] && SegmentOk(r[0])
    requires Holds(mem, FIRST, LogWords(a + r, sum))
    requires FIRST + |LogWords(a + r, sum)| + COMMIT_HDR <= size <= |mem|
    requires Damaged(mem, mem', FIRST + |LogWords(a, sum)|, r[0], sum)
    ensures Intact(mem', size, FIRST, a, sum)
  {
    TwoPartsHeld(mem, mem', a, r, sum);
    DamagedHere(mem, mem', size, FIRST + |LogWords(a, sum)|, r, sum);
  }

  lemma {:induction false} TwoPartsHeld(mem: Mem, mem': Mem, a: seq<Segment>, r: seq<Segment>, sum: Mem -> Word)
    requires SegmentsOk(a + r) && SegmentsOk(a) && Holds(mem, FIRST, LogWords(a + r, sum)) && |mem'| >= |mem|
    requires forall i :: 0 <= i < FIRST + |LogWords(a, sum)| && i < |mem| ==> mem'[i] == mem[i]
    ensures SegmentsOk(r) && |LogWords(a + r, sum)| == |LogWords(a, sum)| + |LogWords(r, sum)|
    ensures Holds(mem', FIRST, LogWords(a, sum)) && Holds(mem, FIRST + |LogWords(a, sum)|, LogWords(r, sum))
  {
    LogTwoParts(a, r, sum);
    HoldsBoth(mem, FIRST, LogWords(a, sum), LogWords(r, sum));
    HoldsKept(mem, mem', FIRST, LogWords(a, sum));
  }

  /** Of the segment s at o the rows have changed, and with them their checksum. */
  ghost predicate Damaged(mem: Mem, mem': Mem, o: nat, s: Segment, sum: Mem -> Word)
    requires SegmentOk(s)
  {
    var p, n := o + COMMIT_HDR, |RecsWords(s.recs)|;
    && p + n <= |mem| == |mem'| && (forall i :: 0 <= i < |mem| && !(p <= i < p + n) ==> mem'[i] == mem[i])
    && sum(mem'[p..p + n]) != sum(mem[p..p + n]) > 0
  }

  lemma {:induction false} DamagedHere(mem: Mem, mem': Mem, size: nat, o: nat, r: seq<Segment>, sum: Mem -> Word)
    requires SegmentsOk(r) && r != [] && SegmentOk(r[0]) && Holds(mem, o, LogWords(r, sum))
    requires Damaged(mem, mem', o, r[0], sum)
    ensures o + COMMIT_HDR <= |mem'| && Stops(mem', size, o, sum) && |LogWords(r, sum)| >= COMMIT_HDR
  {
    SegmentFirst(r, mem, o, sum);
  }

  /** How the log starts: its first header is 38 words in, and its end 8 words before its size. */
  lemma {:induction false} LogStart(wal: Wal)
    requires wal.Valid()
    ensures Holds(wal.mem, 38, LogWords(wal.segs, wal.sum)) && wal.commitSize == 46 + |LogWords(wal.segs, wal.sum)|
    ensures Intact(wal.mem, wal.commitSize, 38, wal.segs, wal.sum)
  {
  }

  class Wal {
    const sum: Mem -> Word
    var mem: Mem
    /** Where the rows of the next commit go; its header is just before. */
    var commitSize: nat
    var commitId: nat
    /** The words written for the commit under way. */
    var commitLen: nat
    ghost var segs: seq<Segment>
    ghost var pending: seq<Rec>

    ghost predicate Committed()
      reads this`mem, this`commitSize, this`segs
    {
      && SegmentsOk(segs) && Holds(mem, FIRST, LogWords(segs, sum))
      && commitSize == FIRST + |LogWords(segs, sum)| + COMMIT_HDR && commitSize <= |mem|
      && Ended(mem, commitSize - COMMIT_HDR)
    }

    ghost predicate Valid()
      reads this
    {
      && Committed() && RecsOk(pending) && commitLen == |RecsWords(pending)| &&
        Holds(mem, commitSize, RecsWords(pending))
    }

    /** The log is intact up to a place where reading stops: its end, or a commit that is torn. */
    ghost predicate Readable()
      reads this`mem, this`commitSize, this`segs
    {
      Intact(mem, commitSize, FIRST, segs, sum)
    }

    /** Room for so many words more, and for the header that ends the log. */
    predicate Room(size: nat)
      reads this
    {
      commitSize + commitLen + size + COMMIT_HDR <= |mem|
    }

    constructor (mem: Mem, sum: Mem -> Word)
      requires |mem| >= FIRST + COMMIT_HDR
      ensures Valid() && segs == [] && pending == [] && commitId == 0 && |this.mem| == |mem| && this.sum == sum
    {
      this.sum := sum;
      this.mem := mem[FIRST := 0][FIRST + 1 := 0];
      commitSize, commitId, commitLen, segs, pending := FIRST + COMMIT_HDR, 0, 0, [], [];
    }

    /** Starts collecting the records of a commit. */
    method Start()
      requires Valid()
      modifies this`commitLen, this`pending
      ensures Valid() && pending == []
    {
      commitLen, pending := 0, [];
    }

    method LogRec(r: Rec)
      requires Valid() && RecOk(r) && Room(|RecWords(r)|)
      modifies this`mem, this`commitLen, this`pending
      ensures Valid() && pending == old(pending) + [r] && |mem| == old(|mem|) &&
        commitLen == old(commitLen) + |RecWords(r)|
    {
      ghost var m := mem;
      mem := Copied(mem, commitSize + commitLen, RecWords(r));
      HoldsKept(m, mem, FIRST, LogWords(segs, sum));
      HoldsKept(m, mem, commitSize, RecsWords(pending));
      RecsAppend(pending, r);
      HoldsBoth(mem, commitSize, RecsWords(pending), RecWords(r));
      commitLen := commitLen + |RecWords(r)|;
      pending := pending + [r];
    }

    method LogDel(rid: nat, tbl: Word)
      requires Valid() && rid < MSB && Room(ROW_HDR)
      modifies this`mem, this`commitLen, this`pending
      ensures Valid() && pending == old(pending) + [Rec(true, rid, tbl, [])] && |mem| == old(|mem|)
      ensures commitLen == old(commitLen) + ROW_HDR
    {
      LogRec(Rec(true, rid, tbl, []));
    }

    method LogNew(rid: nat, tbl: Word, data: seq<Word>)
      requires Valid() && rid < MSB && |data| + ROW_HDR < 0x1_0000_0000 && Room(ROW_HDR + |data|)
      modifies this`mem, this`commitLen, this`pending
      ensures Valid() && pending == old(pending) + [Rec(false, rid, tbl, data)] && |mem| == old(|mem|)
      ensures commitLen == old(commitLen) + ROW_HDR + |data|
    {
      LogRec(Rec(false, rid, tbl, data));
    }

    /** Makes the collected records a segment; nothing happens when there are none. */
    method Commit(time: nat)
      requires Valid() && Room(0)
      requires commitId + 1 < 0x1_0000_0000_0000_0000 && time < 0x1_0000_0000_0000_0000
      requires commitLen + COMMIT_HDR < 0x1_0000_0000_0000_0000
      modifies this
      ensures Valid() && pending == [] && |mem| == old(|mem|)
      ensures old(pending) == [] ==> segs == old(segs) && commitId == old(commitId)
      ensures old(pending) != [] ==>
        commitId == old(commitId) + 1 && segs == old(segs) + [Segment(commitId, time, old(pending))]
    {
      RecsEmpty(pending);
      if commitLen == 0 {
        return;
      }
      ghost var s := Segment(commitId + 1, time, pending);
      commitId := commitId + 1;
      WriteSegment(commitId, time, s);
      Advance(s);
    }

    /** The log now ends behind the segment written. */
    method Advance(ghost s: Segment)
      requires SegmentsOk(segs + [s]) && Holds(mem, FIRST, LogWords(segs + [s], sum))
      requires commitSize + commitLen == FIRST + |LogWords(segs + [s], sum)| && Ended(mem, commitSize + commitLen)
      requires commitSize + commitLen + COMMIT_HDR <= |mem|
      modifies this`commitSize, this`commitLen, this`segs, this`pending
      ensures Valid() && pending == [] && segs == old(segs) + [s]
    {
      commitSize := commitSize + commitLen + COMMIT_HDR;
      commitLen, segs, pending := 0, segs + [s], [];
    }

    /** The header before the collected records, and the end of the log after them. */
    method WriteSegment(id: nat, time: nat, ghost s: Segment)
      requires Committed() && SegmentOk(s) && s.id == id && s.time == time && Room(0)
      requires commitLen == |RecsWords(s.recs)| && Holds(mem, commitSize, RecsWords(s.recs))
      modifies this`mem
      ensures |mem| == old(|mem|) && SegmentsOk(segs + [s]) && Holds(mem, FIRST, LogWords(segs + [s], sum))
      ensures commitSize + commitLen == FIRST + |LogWords(segs + [s], sum)| && Ended(mem, commitSize + commitLen)
    {
      ghost var m, rows := mem, RecsWords(s.recs);
      var h := Header(commitLen + COMMIT_HDR, id, time, sum(mem[commitSize..commitSize + commitLen]));
      WriteEnds(h);
      LogLonger(m, mem, h, s);
    }

    method WriteEnds(h: Mem)
      requires commitSize >= COMMIT_HDR && |h| == COMMIT_HDR && commitSize + commitLen + 1 < |mem|
      modifies this`mem
      ensures |mem| == old(|mem|) && Holds(mem, commitSize - COMMIT_HDR, h) && Ended(mem, commitSize + commitLen)
      ensures forall i :: 0 <= i < commitSize + commitLen && !(commitSize - COMMIT_HDR <= i < commitSize) ==>
        mem[i] == old(mem)[i]
    {
      mem := Copied(mem, commitSize - COMMIT_HDR, h);
      ghost var m := mem;
      mem := mem[commitSize + commitLen := 0][commitSize + commitLen + 1 := 0];
      HoldsKept(m, mem, commitSize - COMMIT_HDR, h);
    }

    /** The new header and the new end leave the log as it was with one segment more. */
    lemma {:induction false} LogLonger(m: Mem, m': Mem, h: Mem, s: Segment)
      requires SegmentOk(s) && SegmentsOk(segs) && Holds(m, FIRST, LogWords(segs, sum)) && |m'| == |m|
      requires commitSize == FIRST + |LogWords(segs, sum)| + COMMIT_HDR
      requires Holds(m, commitSize, RecsWords(s.recs)) && Holds(m', commitSize - COMMIT_HDR, h)
      requires h == Header(COMMIT_HDR + |RecsWords(s.recs)|, s.id, s.time, sum(RecsWords(s.recs)))
      requires forall i ::
        0 <= i < commitSize + |RecsWords(s.recs)| && !(commitSize - COMMIT_HDR <= i < commitSize) ==> m'[i] == m[i]
      ensures SegmentsOk(segs + [s]) && Holds(m', FIRST, LogWords(segs + [s], sum))
      ensures |LogWords(segs + [s], sum)| == |LogWords(segs, sum)| + COMMIT_HDR + |RecsWords(s.recs)|
    {
      LogGrown(segs, s, sum, h);
      HoldsMore(m, m', FIRST, LogWords(segs, sum), h, RecsWords(s.recs), LogWords(segs + [s], sum));
    }

    /** Reads the rows of one segment. */
    method ReadRows(o: nat, end: nat, tables: set<Word>, ghost recs: seq<Rec>) returns (visited: seq<Rec>)
      requires RecsOk(recs) && recs != [] && Holds(mem, o, RecsWords(recs)) && end == o + |RecsWords(recs)|
      ensures visited == Known(recs, tables)
    {
      visited := [];
      var at: nat, more := o, true;
      ghost var rest := recs;
      while more
        invariant RecsOk(rest) && Holds(mem, at, RecsWords(rest)) && end == at + |RecsWords(rest)|
        invariant visited + Known(rest, tables) == Known(recs, tables) && (more <==> rest != [])
        decreases |rest|
      {
        RecsFirst(rest, mem, at);
        var r := RecAt(mem, at);
        if r.tbl !in tables {
          return;
        }
        assert Known(rest, tables) == [r] + Known(rest[1..], tables);
        assert visited + ([r] + Known(rest[1..], tables)) == (visited + [r]) + Known(rest[1..], tables);
        visited := visited + [r];
        at := at + mem[at];
        rest := rest[1..];
        RecsEmpty(rest);
        more := at < end;
      }
    }

    /** Reads one segment; `whole` is whether it lies within the log and its checksum agrees. */
    method ReadSegment(o: nat, total: nat, tables: set<Word>, ghost rest: seq<Segment>)
      returns (whole: bool, rows: seq<Rec>, len: nat, id: nat)
      requires Intact(mem, commitSize, o, rest, sum) && total == o + COMMIT_HDR && o + 1 < |mem| && Wide(mem, o) > 0
      ensures whole <==> rest != []
      ensures whole ==> rows == Known(rest[0].recs, tables) && id == rest[0].id
      ensures whole ==> Intact(mem, commitSize, o + len, rest[1..], sum)
    {
      if rest != [] {
        SegmentFirst(rest, mem, o, sum);
      }
      len := Wide(mem, o);
      id := Wide(mem, o + 2);
      if total + len > commitSize {
        return false, [], len, id;
      }
      if mem[o + 6] > 0 {
        if sum(mem[o + COMMIT_HDR..o + len]) != mem[o + 6] {
          return false, [], len, id;
        }
      }
      rows := ReadRows(o + COMMIT_HDR, o + len, tables, rest[0].recs);
      whole := true;
    }

    /** Reads the next segment and finds where the one after it starts. */
    method ReadNext(o: nat, total: nat, tables: set<Word>, ghost done: seq<Segment>, ghost rest: seq<Segment>,
          lastId: nat, visited: seq<Rec>)
      returns (whole: bool, next: nat, nextTotal: nat, nextId: nat, more: seq<Rec>)
      requires Intact(mem, commitSize, o, rest, sum) && total == o + COMMIT_HDR && o + 1 < |mem| && Wide(mem, o) > 0
      requires lastId == LastId(done, commitId)
      ensures whole <==> rest != []
      ensures whole ==> Intact(mem, commitSize, next, rest[1..], sum) && nextTotal == next + COMMIT_HDR
      ensures whole ==> nextId == LastId(done + [rest[0]], commitId)
      ensures whole ==> more + Records(rest[1..], tables) == visited + Records(rest, tables)
    {
      var rows, len, id;
      whole, rows, len, id := ReadSegment(o, total, tables, rest);
      next, nextTotal, nextId, more := o + len, total + len, id, visited + rows;
      if whole {
        RecordsNext(visited, rows, rest, tables);
      }
    }

    /**
    Calls back for the records of all intact commits in order, and stops at the end of the
    log or at the first commit that is torn; returns the id of the last commit read.
    */
    method Iterate(tables: set<Word>) returns (visited: seq<Rec>, lastId: nat)
      requires Readable()
      ensures visited == Records(segs, tables)
      ensures lastId == LastId(segs, commitId)
    {
      visited, lastId := [], commitId;
      var o: nat, total: nat := FIRST, FIRST + COMMIT_HDR;
      ghost var done, rest: seq<Segment> := [], segs;
      while o < commitSize && Wide(mem, o) > 0
        invariant Intact(mem, commitSize, o, rest, sum) && total == o + COMMIT_HDR
        invariant visited + Records(rest, tables) == Records(segs, tables)
        invariant segs == done + rest && lastId == LastId(done, commitId)
        decreases |rest|
      {
        var whole, next, nextTotal, id, more := ReadNext(o, total, tables, done, rest, lastId, visited);
        if !whole {
          break;
        }
        NextOf(segs, done, rest);
        o, total, lastId, visited := next, nextTotal, id, more;
        done, rest := done + [rest[0]], rest[1..];
      }
      NoneFollow(mem, commitSize, o, rest, sum);
      assert done + [] == done;
    }

    method SetId(id: nat)
      requires Valid()
      modifies this`commitId
      ensures Valid() && commitId == id
    {
      commitId := id;
    }

    /** Empties the log. */
    method Flush()
      requires Valid() && pending == []
      modifies this
      ensures Valid() && segs == [] && pending == [] && commitId == old(commitId) && |mem| == old(|mem|)
      ensures Wide(mem, FIRST) == Wide(mem, FIRST + 2) == 0
    {
      commitSize := FIRST + COMMIT_HDR;
      mem := mem[FIRST := 0][FIRST + 1 := 0][FIRST + 2 := 0][FIRST + 3 := 0];
      commitLen, segs := 0, [];
    }
  }
}
