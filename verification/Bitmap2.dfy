/**
The two-level bitmap: 64 leaf words and a summary word. A leaf word counts only while its
summary bit is set, so nothing needs clearing to make the bitmap empty.
*/
module Bitmap2 {
  import opened BitWord

  ghost predicate Has(bmp4: Word, bmp5: seq<Word>, b: nat)
    requires |bmp5| == 64
  {
    b < 4096 && At(bmp4, bmp5, b / 64, b % 64)
  }

  ghost predicate At(bmp4: Word, bmp5: seq<Word>, i: nat, j: nat)
    requires |bmp5| == 64
  {
    i < 64 && j < 64 && bmp4[i] && bmp5[i][j]
  }

  /** One bit is written and no other. */
  lemma OneBit(bmp4: Word, bmp5: seq<Word>, bmp4': Word, bmp5': seq<Word>, bit: nat, v: bool)
    requires |bmp5| == 64 && |bmp5'| == 64 && bit < 4096 && (At(bmp4', bmp5', bit / 64, bit % 64) <==> v)
    requires forall i: nat, j: nat {:trigger At(bmp4', bmp5', i, j)} ::
      i != bit / 64 || j != bit % 64 ==> (At(bmp4', bmp5', i, j) <==> At(bmp4, bmp5, i, j))
    ensures forall b: nat :: Has(bmp4', bmp5', b) <==> if b == bit then v else Has(bmp4, bmp5, b)
  {
    forall b: nat
      ensures Has(bmp4', bmp5', b) <==> if b == bit then v else Has(bmp4, bmp5, b)
    {
      assert At(bmp4', bmp5', b / 64, b % 64) <==> b < 4096 && Has(bmp4', bmp5', b);
    }
  }

  /** The members of blocks of 64 listed one block after the other. */
  ghost predicate ListsBlocks(s: seq<nat>, bmp4: Word, bmp5: seq<Word>, base: nat, top: nat)
    requires |bmp5| == 64
  {
    Rising(s) && forall x :: x in s <==> base <= x && Has(bmp4, bmp5, x - base) && (x - base) / 64 < top
  }

  /** The bits of one word, shifted, come after what is listed. */
  lemma ListsMore(s: seq<nat>, t: seq<nat>, bound: nat)
    requires Rising(s) && Rising(t) && (forall x :: x in s ==> x < bound) && (forall x :: x in t ==> bound <= x)
    ensures Rising(s + t) && forall x :: x in s + t <==> x in s || x in t
  {
    var u := s + t;
    forall i, j | 0 <= i < j < |u|
      ensures u[i] < u[j]
    {
      assert i < |s| ==> u[i] in s;
      assert i >= |s| ==> u[i] == t[i - |s|];
      assert j >= |s| ==> u[j] == t[j - |s|] && u[j] in t;
    }
  }

  /** Calls back the members with `bid` added, ascending. */
  method IterateFrom(bmp4: Word, bmp5: seq<Word>, bid: nat) returns (visited: seq<nat>)
    requires |bmp5| == 64
    ensures ListsBlocks(visited, bmp4, bmp5, bid, 64)
  {
    var ids4 := Bits(bmp4);
    visited := [];
    var done := 0;
    for i := 0 to |ids4|
      invariant done == (if i == 0 then 0 else ids4[i - 1] + 1)
      invariant ListsBlocks(visited, bmp4, bmp5, bid, done)
    {
      var id4 := ids4[i];
      assert id4 in ids4;
      Between(ids4, bmp4, i);
      var leaf := IterateWord(bmp5[id4], bid + id4 * 64);
      ListsMore(visited, leaf, bid + id4 * 64);
      visited := visited + leaf;
      done := id4 + 1;
    }
    After(ids4, bmp4);
  }

  lemma Between(ids: seq<nat>, w: Word, i: nat)
    requires ListsBits(ids, w, 64) && i < |ids|
    ensures forall b :: (if i == 0 then 0 else ids[i - 1] + 1) <= b < ids[i] && b < 64 ==> !w[b]
  {
    forall b: nat | (if i == 0 then 0 else ids[i - 1] + 1) <= b < ids[i] && b < 64
      ensures !w[b]
    {
      IndexOf(ids, b);
    }
  }

  lemma After(ids: seq<nat>, w: Word)
    requires ListsBits(ids, w, 64)
    ensures forall b :: (if ids == [] then 0 else ids[|ids| - 1] + 1) <= b < 64 ==> !w[b]
  {
    forall b: nat | (if ids == [] then 0 else ids[|ids| - 1] + 1) <= b < 64
      ensures !w[b]
    {
      IndexOf(ids, b);
    }
  }

  method IterateWord(w: Word, base: nat) returns (visited: seq<nat>)
    ensures Rising(visited) && forall x :: x in visited <==> base <= x < base + 64 && w[x - base]
  {
    var ids := Bits(w);
    visited := [];
    for i := 0 to |ids|
      invariant |visited| == i && forall j :: 0 <= j < i ==> visited[j] == base + ids[j]
    {
      visited := visited + [base + ids[i]];
    }
    forall x: nat
      ensures x in visited <==> base <= x < base + 64 && w[x - base]
    {
      if x in visited {
        var j :| 0 <= j < |visited| && visited[j] == x;
        assert ids[j] in ids;
      }
      if base <= x < base + 64 && w[x - base] {
        assert x - base in ids;
        var j :| 0 <= j < |ids| && ids[j] == x - base;
        assert visited[j] == x;
      }
    }
  }

  class Lv2Bmp {
    var bmp4: Word
    var bmp5: seq<Word>
    var count: nat
    ghost var members: set<nat>

    ghost predicate Valid()
      reads this
    {
      && |bmp5| == 64 && (forall i :: 0 <= i < 64 && bmp4[i] ==> !IsZero(bmp5[i]))
      && (forall b {:trigger Has(bmp4, bmp5, b)} {:trigger b in members} :: b in members <==> Has(bmp4, bmp5, b)) &&
        count == |members|
    }

    /** Leaf words start with any contents. */
    constructor (bmp5: seq<Word>)
      requires |bmp5| == 64
      ensures Valid() && members == {}
    {
      bmp4, count, members := ZERO, 0, {};
      this.bmp5 := bmp5;
    }

    method Init()
      requires |bmp5| == 64
      modifies this
      ensures Valid() && members == {}
    {
      bmp4 := ZERO;
      count := 0;
      members := {};
    }

    method Set(bit: nat)
      requires Valid() && bit < 4096
      modifies this
      ensures Valid() && members == old(members) + {bit}
    {
      ghost var w4, w5 := bmp4, bmp5;
      var id4, id5 := bit / 64 % 64, bit % 64;
      if bmp4[id4] {
        if !bmp5[id4][id5] {
          bmp5 := bmp5[id4 := bmp5[id4][id5 := true]];
          count := count + 1;
        }
      } else {
        bmp4 := bmp4[id4 := true];
        bmp5 := bmp5[id4 := ZERO[id5 := true]];
        count := count + 1;
      }
      assert bmp5[id4][id5];
      OneBit(w4, w5, bmp4, bmp5, bit, true);
      members := members + {bit};
    }

    method Clr(bit: nat)
      requires Valid() && bit < 4096
      modifies this
      ensures Valid() && members == old(members) - {bit}
    {
      ghost var w4, w5 := bmp4, bmp5;
      var id4 := bit / 64 % 64;
      if bmp4[id4] {
        var id5 := bit % 64;
        if bmp5[id4][id5] {
          assert bit in members;
          count := count - 1;
          bmp5 := bmp5[id4 := bmp5[id4][id5 := false]];
          if IsZero(bmp5[id4]) {
            bmp4 := bmp4[id4 := false];
          }
        }
      }
      forall i: nat, j: nat | i != id4 || j != bit % 64
        ensures At(bmp4, bmp5, i, j) <==> At(w4, w5, i, j)
      {
        assert i == id4 && IsZero(bmp5[i]) && j < 64 ==> !bmp5[i][j];
      }
      OneBit(w4, w5, bmp4, bmp5, bit, false);
      members := members - {bit};
    }

    method Get(bit: nat) returns (set_: bool)
      requires Valid() && bit < 4096
      ensures set_ <==> bit in members
    {
      var id4 := bit / 64 % 64;
      if bmp4[id4] {
        var id5 := bit % 64;
        return bmp5[id4][id5];
      }
      return false;
    }

    method Iterate() returns (visited: seq<nat>)
      requires Valid()
      ensures Rising(visited) && forall b :: b in visited <==> b in members
    {
      visited := IterateFrom(bmp4, bmp5, 0);
    }
  }
}
