/**
The block allocator. Freed blocks are chained through a link word kept inside them, from
`head` to `tail`; a block is taken from the head, or past `maxid` when none is free.
*/
module Store {
  import opened Keys
  import opened RowGroups

  /** The two low bits of a block's control byte. */
  datatype Ctrl = Unused | Dirty | Commit | Trans

  /** A row: the values of the indexed columns and of the others. */
  datatype Row = Row(key: Key, rest: seq<int>)

  datatype Block = Block(link: nat, ctrl: Ctrl, row: Row)

  /** An id handed out and not given back. */
  ghost predicate Live(maxid: nat, free: seq<nat>, r: int) { 1 <= r <= maxid && r !in free }

  /** The free list as it runs through the link words. */
  ghost predicate FreeAt(blocks: seq<Block>, maxid: nat, free: seq<nat>, i: nat)
    requires i < |free|
  {
    && 0 < free[i] < |blocks| && free[i] <= maxid && blocks[free[i]].link == (if i + 1 < |free| then free[i + 1] else 0)
    && blocks[free[i]].ctrl == Unused
  }

  ghost predicate LiveAt(blocks: seq<Block>, r: nat) { 0 < r < |blocks| && blocks[r].ctrl != Unused }

  ghost predicate FreeListed(blocks: seq<Block>, free: seq<nat>, maxid: nat) {
    && maxid < |blocks| && NoDup(free) &&
      (forall i {:trigger FreeAt(blocks, maxid, free, i)} :: 0 <= i < |free| ==> FreeAt(blocks, maxid, free, i))
    && forall r {:trigger LiveAt(blocks, r)} :: Live(maxid, free, r) ==> LiveAt(blocks, r)
  }

  lemma HeadTaken(blocks: seq<Block>, blocks': seq<Block>, free: seq<nat>, maxid: nat)
    requires FreeListed(blocks, free, maxid) && free != [] && |blocks'| == |blocks| && free[0] < |blocks|
    requires blocks'[free[0]].ctrl != Unused &&
      forall r :: 0 <= r < |blocks| && r != free[0] ==> blocks'[r] == blocks[r]
    ensures FreeListed(blocks', free[1..], maxid)
    ensures forall r :: Live(maxid, free[1..], r) <==> Live(maxid, free, r) || r == free[0]
  {
    var t := free[1..];
    assert forall r :: r in free <==> r in t || r == free[0];
    assert FreeAt(blocks, maxid, free, 0);
    forall r | Live(maxid, t, r)
      ensures LiveAt(blocks', r)
    {
      assert r != free[0] ==> LiveAt(blocks, r);
    }
    forall i | 0 <= i < |t|
      ensures FreeAt(blocks', maxid, t, i) && t[i] != free[0]
    {
      assert t[i] == free[i + 1] && FreeAt(blocks, maxid, free, i + 1);
    }
  }

  lemma TailPut(blocks: seq<Block>, blocks': seq<Block>, free: seq<nat>, maxid: nat, rid: nat)
    requires FreeListed(blocks, free, maxid) && Live(maxid, free, rid) && |blocks'| == |blocks|
    requires blocks'[rid].link == 0 && blocks'[rid].ctrl == Unused
    requires free != [] ==> Last(free) < |blocks| && blocks'[Last(free)] == blocks[Last(free)].(link := rid)
    requires forall r :: 0 <= r < |blocks| && r != rid && (free != [] ==> r != Last(free)) ==> blocks'[r] == blocks[r]
    ensures FreeListed(blocks', free + [rid], maxid)
    ensures forall r :: Live(maxid, free + [rid], r) <==> Live(maxid, free, r) && r != rid
  {
    var s := free + [rid];
    assert forall r :: r in s <==> r in free || r == rid;
    assert LiveAt(blocks, rid);
    forall r | Live(maxid, s, r)
      ensures LiveAt(blocks', r)
    {
      assert LiveAt(blocks, r);
      assert free != [] ==> Last(free) in free;
    }
    forall i | 0 <= i < |s|
      ensures FreeAt(blocks', maxid, s, i)
    {
      if i < |free| {
        assert FreeAt(blocks, maxid, free, i);
      }
    }
  }

  lemma NotEmpty(blocks: seq<Block>, free: seq<nat>, maxid: nat)
    requires FreeListed(blocks, free, maxid)
    ensures Head(free) == 0 <==> free == []
  {
    assert free != [] ==> FreeAt(blocks, maxid, free, 0);
  }

  // ----- counting

  /** The ids 1 to n. */
  ghost function Ids(n: nat): (ids: set<nat>)
    ensures |ids| == n && forall r :: r in ids <==> 1 <= r <= n
  {
    if n == 0 then {} else Ids(n - 1) + {n}
  }

  ghost function LiveIds(maxid: nat, free: seq<nat>): (ids: set<nat>)
    ensures forall r :: r in ids <==> Live(maxid, free, r)
  {
    Ids(maxid) - Elements(free)
  }

  /** Live and free ids partition 1..maxid, so the live ones number maxid less the free ones. */
  lemma LivePartition(blocks: seq<Block>, free: seq<nat>, maxid: nat)
    requires FreeListed(blocks, free, maxid)
    ensures var live := LiveIds(maxid, free);
      live !! Elements(free) && live + Elements(free) == Ids(maxid) && |live| + |free| == maxid
  {
    ElementsCount(free);
    var live := LiveIds(maxid, free);
    forall i | 0 <= i < |free|
      ensures 1 <= free[i] <= maxid
    {
      assert FreeAt(blocks, maxid, free, i);
    }
    assert live + Elements(free) == Ids(maxid);
  }

  lemma SomeLive(blocks: seq<Block>, free: seq<nat>, maxid: nat, rid: nat)
    requires FreeListed(blocks, free, maxid) && Live(maxid, free, rid)
    ensures |free| < maxid
  {
    LivePartition(blocks, free, maxid);
    assert rid in LiveIds(maxid, free);
  }

  class Store {
    var head: nat
    var tail: nat
    var maxid: nat
    var alloc: nat
    var blocks: seq<Block>
    ghost var free: seq<nat>

    /** blk_cap: how many blocks there is room for; ids start at 1. */
    function Cap(): int
      reads this`blocks
    {
      |blocks| - 1
    }

    ghost predicate Valid()
      reads this
    {
      && 1 <= Cap() && head == Head(free) && tail == Last(free)
      && FreeListed(blocks, free, maxid) && alloc + |free| == maxid
    }

    constructor (blocks: seq<Block>)
      requires |blocks| == 9
      ensures Valid() && maxid == 0 && alloc == 0 && free == [] && this.blocks == blocks
    {
      head, tail, maxid, alloc, free := 0, 0, 0, 0, [];
      this.blocks := blocks;
    }

    /** Takes the head of the free list. */
    method AllocFree() returns (rid: nat)
      requires Valid() && free != []
      modifies this
      ensures Valid() && |blocks| == old(|blocks|) && maxid == old(maxid) && alloc == old(alloc) + 1
      ensures rid == old(free)[0] && free == old(free)[1..] && 0 < rid < |blocks|
      ensures !Live(maxid, old(free), rid) && forall r :: Live(maxid, free, r) <==>
        Live(maxid, old(free), r) || r == rid
      ensures blocks == old(blocks)[rid := old(blocks)[rid].(ctrl := Dirty)]
    {
      assert FreeAt(blocks, maxid, free, 0);
      assert |free| > 1 ==> FreeAt(blocks, maxid, free, 1);
      rid := head;
      head := blocks[rid].link;
      if tail == rid {
        tail := 0;
      }
      ghost var b := blocks;
      blocks := blocks[rid := blocks[rid].(ctrl := Dirty)];
      alloc := alloc + 1;
      HeadTaken(b, blocks, free, maxid);
      free := free[1..];
    }

    /** Takes the next id; the room doubles when there is none left. */
    method AllocNext(more: seq<Block>) returns (rid: int)
      requires Valid() && free == [] && |more| in {0, Cap()}
      modifies this
      ensures Valid() && free == []
      ensures rid == -1 <==> old(maxid) == old(Cap()) && more == []
      ensures rid == -1 ==> maxid == old(maxid) && alloc == old(alloc) && blocks == old(blocks)
      ensures rid != -1 ==>
        && rid == maxid == old(maxid) + 1 && alloc == old(alloc) + 1 && rid < |blocks| && blocks[rid].ctrl == Dirty
        && |blocks| == (if old(maxid) == old(Cap()) then 2 * old(|blocks|) - 1 else old(|blocks|))
        && forall r :: 1 <= r <= old(maxid) ==> blocks[r] == old(blocks)[r]
    {
      if maxid == Cap() {
        if more == [] {
          return -1;
        }
        blocks := blocks + more;
      }
      maxid := maxid + 1;
      rid := maxid;
      blocks := blocks[rid := blocks[rid].(ctrl := Dirty)];
      alloc := alloc + 1;
      forall r | Live(maxid, free, r)
        ensures LiveAt(blocks, r)
      {
        assert r != rid ==> LiveAt(old(blocks), r);
      }
    }

    /**
    Hands out a block that is not live: the head of the free list, or the next id. `more`
    is what the storage would grow by, nothing when it cannot.
    */
    method Alloc(more: seq<Block>) returns (rid: int)
      requires Valid() && |more| in {0, Cap()}
      modifies this
      ensures Valid()
      ensures rid == -1 <==> old(free) == [] && old(maxid) == old(Cap()) && more == []
      ensures rid == -1 ==> free == old(free) && maxid == old(maxid) && alloc == old(alloc) && blocks == old(blocks)
      ensures rid != -1 ==>
        && rid > 0 && !Live(old(maxid), old(free), rid)
        && (forall r :: Live(maxid, free, r) <==> Live(old(maxid), old(free), r) || r == rid)
        && rid == (if old(free) != [] then old(free)[0] else old(maxid) + 1)
        && free == (if old(free) != [] then old(free)[1..] else [])
        && maxid == (if old(free) != [] then old(maxid) else old(maxid) + 1)
        && alloc == old(alloc) + 1 && rid < |blocks| && blocks[rid].ctrl == Dirty
        && |blocks| == (if old(free) == [] && old(maxid) == old(Cap()) then 2 * old(|blocks|) - 1 else old(|blocks|))
        && forall r :: 1 <= r <= old(maxid) && r != rid ==> blocks[r] == old(blocks)[r]
    {
      if head != 0 {
        rid := AllocFree();
      } else {
        NotEmpty(blocks, free, maxid);
        rid := AllocNext(more);
      }
    }

    /** Gives a live block back, to the tail of the free list. */
    method Release(rid: nat)
      requires Valid() && Live(maxid, free, rid)
      modifies this
      ensures Valid() && free == old(free) + [rid] && maxid == old(maxid) && |blocks| == old(|blocks|)
      ensures alloc == old(alloc) - 1 && forall r :: Live(maxid, free, r) <==> Live(maxid, old(free), r) && r != rid
      ensures rid < |blocks| && blocks[rid].ctrl == Unused
      ensures forall r :: Live(maxid, free, r) ==> r < |blocks| && blocks[r] == old(blocks)[r]
    {
      assert free != [] ==> FreeAt(blocks, maxid, free, |free| - 1);
      SomeLive(blocks, free, maxid, rid);
      assert LiveAt(blocks, rid);
      ghost var b := blocks;
      blocks := blocks[rid := blocks[rid].(ctrl := Unused)];
      blocks := blocks[rid := blocks[rid].(link := 0)];
      if tail != 0 {
        blocks := blocks[tail := blocks[tail].(link := rid)];
      } else {
        head := rid;
      }
      tail := rid;
      alloc := alloc - 1;
      TailPut(b, blocks, free, maxid, rid);
      free := free + [rid];
    }

    /** The row and the control bits of a live block are the table's to write. */
    method Write(rid: nat, ctrl: Ctrl, row: Row)
      requires Valid() && Live(maxid, free, rid) && ctrl != Unused
      modifies this`blocks
      ensures Valid() && rid < old(|blocks|) && blocks == old(blocks)[rid := Block(old(blocks)[rid].link, ctrl, row)]
    {
      ghost var b := blocks;
      assert LiveAt(b, rid);
      blocks := blocks[rid := Block(blocks[rid].link, ctrl, row)];
      forall i | 0 <= i < |free|
        ensures FreeAt(blocks, maxid, free, i)
      {
        assert FreeAt(b, maxid, free, i);
      }
      forall r | Live(maxid, free, r)
        ensures LiveAt(blocks, r)
      {
        assert LiveAt(b, r);
      }
    }
  }
}
