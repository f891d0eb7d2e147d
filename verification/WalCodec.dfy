/**
The write-ahead log as words in memory: commit segments one after the other, each with a
header that holds its length, and a header of length 0 after the last. Lengths and offsets
count 32-bit words here, a quarter of the code's bytes.
*/
module WalCodec {
  import opened RowWord

  /** One row record: a deletion, or a row with its contents. */
  datatype Rec = Rec(del: bool, rid: nat, tbl: Word, data: seq<Word>)

  datatype Segment = Segment(id: nat, time: nat, recs: seq<Rec>)

  type Mem = seq<Word>

  /** Where the first commit header is: the last part of the log header. */
  const FIRST := 38

  /** Words of a commit header: length, id, timestamp, checksum, reserved. */
  const COMMIT_HDR := 8

  const ROW_HDR := 3

  ghost predicate RecOk(r: Rec) {
    r.rid < MSB && |r.data| + ROW_HDR < 0x1_0000_0000 && (r.del ==> r.data == [])
  }

  // ----- writing

  function RecWords(r: Rec): (ws: Mem)
    requires RecOk(r)
    ensures |ws| == ROW_HDR + |r.data|
  {
    [ROW_HDR + |r.data|, r.rid + (if r.del then MSB else 0), r.tbl] + r.data
  }

  ghost predicate RecsOk(rs: seq<Rec>) { forall i :: 0 <= i < |rs| ==> RecOk(rs[i]) }

  ghost function RecsWords(rs: seq<Rec>): Mem
    requires RecsOk(rs)
  {
    if rs == [] then [] else RecWords(rs[0]) + RecsWords(rs[1..])
  }

  lemma {:induction false} RecsAppend(rs: seq<Rec>, r: Rec)
    requires RecsOk(rs) && RecOk(r)
    ensures RecsWords(rs + [r]) == RecsWords(rs) + RecWords(r)
  {
    if rs == [] {
      assert rs + [r] == [r] && [r][1..] == [];
    } else {
      RecsAppend(rs[1..], r);
      assert (rs + [r])[0] == rs[0] && (rs + [r])[1..] == rs[1..] + [r];
    }
  }

  function Low(x: nat): Word { x % 0x1_0000_0000 }

  function High(x: nat): Word
    requires x < 0x1_0000_0000_0000_0000
  {
    x / 0x1_0000_0000
  }

  /** Two words as one 64-bit number. */
  function Wide(mem: Mem, o: nat): nat
    requires o + 1 < |mem|
  {
    var low: nat, high: nat := mem[o], mem[o + 1];
    low + 0x1_0000_0000 * high
  }

  ghost predicate SegmentOk(s: Segment) {
    && RecsOk(s.recs) && s.recs != [] && s.id < 0x1_0000_0000_0000_0000 && s.time < 0x1_0000_0000_0000_0000
    && |RecsWords(s.recs)| + COMMIT_HDR < 0x1_0000_0000_0000_0000
  }

  function Header(len: nat, id: nat, time: nat, checksum: Word): (ws: Mem)
    requires len < 0x1_0000_0000_0000_0000 && id < 0x1_0000_0000_0000_0000 && time < 0x1_0000_0000_0000_0000
    ensures |ws| == COMMIT_HDR && Wide(ws, 0) == len && Wide(ws, 2) == id
  {
    [Low(len), High(len), Low(id), High(id), Low(time), High(time), checksum, 0]
  }

  ghost function SegmentWords(s: Segment, sum: Mem -> Word): (ws: Mem)
    requires SegmentOk(s)
    ensures |ws| == COMMIT_HDR + |RecsWords(s.recs)|
  {
    var rows := RecsWords(s.recs);
    Header(COMMIT_HDR + |rows|, s.id, s.time, sum(rows)) + rows
  }

  ghost predicate SegmentsOk(ss: seq<Segment>) {
    forall i {:trigger SegmentOk(ss[i])} :: 0 <= i < |ss| ==> SegmentOk(ss[i])
  }

  ghost function LogWords(ss: seq<Segment>, sum: Mem -> Word): Mem
    requires SegmentsOk(ss)
  {
    if ss == [] then [] else
      SegmentsRest(ss);
      SegmentWords(ss[0], sum) + LogWords(ss[1..], sum)
  }

  lemma {:induction false} SegmentsAppend(ss: seq<Segment>, s: Segment)
    requires SegmentsOk(ss) && SegmentOk(s)
    ensures SegmentsOk(ss + [s])
  {
    forall i | 0 <= i < |ss + [s]|
      ensures SegmentOk((ss + [s])[i])
    {
      assert i < |ss| ==> SegmentOk(ss[i]);
    }
  }

  lemma {:induction false} SegmentsRest(ss: seq<Segment>)
    requires SegmentsOk(ss) && ss != []
    ensures SegmentOk(ss[0]) && SegmentsOk(ss[1..])
  {
    assert SegmentOk(ss[0]);
    forall i | 0 <= i < |ss[1..]|
      ensures SegmentOk(ss[1..][i])
    {
      assert SegmentOk(ss[i + 1]);
    }
  }

  lemma {:induction false} Regroup(a: Mem, b: Mem, c: Mem)
    ensures a + (b + c) == (a + b) + c
  {
  }

  lemma {:induction false} LogAppend(ss: seq<Segment>, s: Segment, sum: Mem -> Word)
    requires SegmentsOk(ss) && SegmentOk(s)
    ensures SegmentsOk(ss + [s]) && LogWords(ss + [s], sum) == LogWords(ss, sum) + SegmentWords(s, sum)
  {
    SegmentsAppend(ss, s);
    if ss == [] {
      assert ss + [s] == [s] && [s][1..] == [];
      LogOne(s, sum);
    } else {
      SegmentsRest(ss);
      LogAppend(ss[1..], s, sum);
      assert (ss + [s])[0] == ss[0] && (ss + [s])[1..] == ss[1..] + [s];
      Regroup(SegmentWords(ss[0], sum), LogWords(ss[1..], sum), SegmentWords(s, sum));
    }
  }

  lemma {:induction false} LogOne(s: Segment, sum: Mem -> Word)
    requires SegmentOk(s)
    ensures LogWords([s], sum) == SegmentWords(s, sum)
  {
    assert [s][1..] == [];
  }

  /** The words ws stand in memory from o on. */
  ghost predicate Holds(mem: Mem, o: nat, ws: Mem) { o + |ws| <= |mem| && mem[o..o + |ws|] == ws }

  lemma {:induction false} HoldsBoth(mem: Mem, o: nat, a: Mem, b: Mem)
    ensures Holds(mem, o, a + b) <==> Holds(mem, o, a) && Holds(mem, o + |a|, b)
  {
    if o + |a| + |b| <= |mem| {
      var w := mem[o..o + |a + b|];
      assert w[..|a|] == mem[o..o + |a|] && w[|a|..] == mem[o + |a|..o + |a| + |b|];
      assert (a + b)[..|a|] == a && (a + b)[|a|..] == b;
      assert w == w[..|a|] + w[|a|..];
    }
  }

  /** Writing words somewhere else keeps what is held. */
  lemma {:induction false} HoldsKept(mem: Mem, mem': Mem, o: nat, ws: Mem)
    requires Holds(mem, o, ws) && |mem'| >= |mem| && forall i :: o <= i < o + |ws| ==> mem'[i] == mem[i]
    ensures Holds(mem', o, ws)
  {
  }

  /** The log ends here. */
  predicate Ended(mem: Mem, o: nat) { o + 1 < |mem| && mem[o] == 0 && mem[o + 1] == 0 }

  /** Copies words into memory. */
  function Copied(mem: Mem, o: nat, ws: Mem): (mem': Mem)
    requires o + |ws| <= |mem|
    ensures |mem'| == |mem| && Holds(mem', o, ws)
    ensures forall i :: 0 <= i < |mem| && !(o <= i < o + |ws|) ==> mem'[i] == mem[i]
  {
    mem[..o] + ws + mem[o + |ws|..]
  }

  // ----- reading

  /** The record at o. */
  function RecAt(mem: Mem, o: nat): Rec
    requires o + ROW_HDR <= |mem|
  {
    var len := if ROW_HDR <= mem[o] && o + mem[o] <= |mem| then mem[o] else ROW_HDR;
    Rec(Tagged(mem[o + 1]), Rid(mem[o + 1]), mem[o + 2], mem[o + ROW_HDR..o + len])
  }

  lemma {:induction false} RecRead(mem: Mem, o: nat, r: Rec)
    requires RecOk(r) && Holds(mem, o, RecWords(r))
    ensures o + ROW_HDR <= |mem| && RecAt(mem, o) == r && mem[o] == |RecWords(r)|
    ensures o + 3 + |r.data| <= |mem| && mem[o] == 3 + |r.data| && mem[o + 2] == r.tbl
    ensures mem[o + 1] == r.rid + (if r.del then 0x8000_0000 else 0) && mem[o + 3..o + 3 + |r.data|] == r.data
  {
    var ws := RecWords(r);
    assert mem[o] == mem[o..o + |ws|][0] && mem[o + 1] == mem[o..o + |ws|][1] && mem[o + 2] == mem[o..o + |ws|][2];
    assert mem[o + ROW_HDR..o + |ws|] == mem[o..o + |ws|][ROW_HDR..];
  }

  lemma {:induction false} HeaderRead(mem: Mem, o: nat, len: nat, id: nat, time: nat, checksum: Word)
    requires len < 0x1_0000_0000_0000_0000 && id < 0x1_0000_0000_0000_0000 && time < 0x1_0000_0000_0000_0000
    requires Holds(mem, o, Header(len, id, time, checksum))
    ensures o + COMMIT_HDR <= |mem| && Wide(mem, o) == len && Wide(mem, o + 2) == id && mem[o + 6] == checksum
    ensures o + 8 <= |mem| && mem[o] == len % 0x1_0000_0000 && mem[o + 1] == len / 0x1_0000_0000
    ensures mem[o + 2] == id % 0x1_0000_0000 && mem[o + 3] == id / 0x1_0000_0000
    ensures mem[o + 4] == time % 0x1_0000_0000 && mem[o + 5] == time / 0x1_0000_0000 && mem[o + 7] == 0
  {
    var h := Header(len, id, time, checksum);
    var m := mem[o..o + |h|];
    assert mem[o] == m[0] && mem[o + 1] == m[1] && mem[o + 2] == m[2] && mem[o + 3] == m[3];
    assert mem[o + 4] == m[4] && mem[o + 5] == m[5] && mem[o + 6] == m[6] && mem[o + 7] == m[7];
  }
}
