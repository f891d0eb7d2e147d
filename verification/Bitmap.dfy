/**
The five-level bitmap over ids below 2^31: 2 words of 64 bits name level-1 blocks, whose
two levels of words name level-2 blocks, whose two levels of words hold the bits. Every
summary bit says whether anything is set below it.
*/
module Bitmap {
  import opened BitWord
  import opened Bitmap2

  const LIMIT: nat := 0x8000_0000
  const LV1_SPAN: nat := 0x100_0000
  const LV2_SPAN: nat := 0x1000

  datatype Lv2 = Lv2(bmp4: Word, bmp5: seq<Word>)

  /** lv2 holds the blocks the pointers of the set bits lead to, by their number 0 to 4095. */
  datatype Lv1 = Lv1(bmp2: Word, bmp3: seq<Word>, lv2: map<nat, Lv2>)

  const NEW_LV2 := Lv2(ZERO, seq(64, i => ZERO))
  const NEW_LV1 := Lv1(ZERO, seq(64, i => ZERO), map[])

  /** A summary word over 64 words is exact. */
  ghost predicate Exact(top: Word, words: seq<Word>) {
    |words| == 64 && forall i :: 0 <= i < 64 ==> (top[i] <==> !IsZero(words[i]))
  }

  lemma ExactAt(top: Word, words: seq<Word>, i: nat, j: nat)
    requires Exact(top, words) && i < 64 && j < 64
    ensures At(top, words, i, j) <==> words[i][j]
    ensures words[i][j] ==> top[i] && !IsZero(top)
  {
  }

  /** Something is set below a summary word that is not zero, and only then. */
  lemma ExactEmpty(top: Word, words: seq<Word>)
    requires Exact(top, words)
    ensures !IsZero(top) <==> exists b: nat :: Has(top, words, b)
  {
    if !IsZero(top) {
      var i: nat :| i < 64 && top[i];
      var j: nat :| j < 64 && words[i][j];
      assert (64 * i + j) / 64 == i && (64 * i + j) % 64 == j;
      assert Has(top, words, 64 * i + j);
    }
  }

  ghost predicate Block2(l: Lv2) { Exact(l.bmp4, l.bmp5) && !IsZero(l.bmp4) }

  ghost predicate Has2(l: Lv2, r: nat) { |l.bmp5| == 64 && Has(l.bmp4, l.bmp5, r) }

  /** A level-2 block stands where the words say, and is not empty. */
  ghost predicate Block2At(l: Lv1, k: nat) {
    |l.bmp3| == 64 && (k in l.lv2 <==> Has(l.bmp2, l.bmp3, k)) && (k in l.lv2 ==> Block2(l.lv2[k]))
  }

  ghost predicate Whole1(l: Lv1) {
    Exact(l.bmp2, l.bmp3) && forall k {:trigger Block2At(l, k)} :: Block2At(l, k)
  }

  ghost predicate Has1(l: Lv1, b: nat) {
    b < LV1_SPAN && b / LV2_SPAN in l.lv2 && Has2(l.lv2[b / LV2_SPAN], b % LV2_SPAN)
  }

  // ----- one word of two levels

  /** Sets bit r below a summary word. */
  method SetBits(top: Word, words: seq<Word>, r: nat) returns (top': Word, words': seq<Word>)
    requires Exact(top, words) && r < 4096
    ensures Exact(top', words') && !IsZero(top')
    ensures forall b: nat :: Has(top', words', b) <==> b == r || Has(top, words, b)
  {
    var hi, lo := r / 64 % 64, r % 64;
    top' := top[hi := true];
    words' := words[hi := words[hi][lo := true]];
    assert words'[hi][lo];
    forall i: nat, j: nat | i != hi || j != lo
      ensures At(top', words', i, j) <==> At(top, words, i, j)
    {
      if i < 64 && j < 64 {
        ExactAt(top, words, i, j);
      }
    }
    OneBit(top, words, top', words', r, true);
  }

  /** Clears bit r, and its summary bit when nothing is left. */
  method ClrBits(top: Word, words: seq<Word>, r: nat) returns (top': Word, words': seq<Word>)
    requires Exact(top, words) && r < 4096
    ensures Exact(top', words')
    ensures forall b: nat :: Has(top', words', b) <==> b != r && Has(top, words, b)
  {
    var hi, lo := r / 64 % 64, r % 64;
    top' := top;
    words' := words[hi := words[hi][lo := false]];
    if IsZero(words'[hi]) {
      top' := top[hi := false];
    }
    assert IsZero(words[hi]) ==> IsZero(words'[hi]);
    forall i: nat, j: nat | i != hi || j != lo
      ensures At(top', words', i, j) <==> At(top, words, i, j)
    {
      if i < 64 && j < 64 {
        ExactAt(top, words, i, j);
        assert IsZero(words'[hi]) && i == hi ==> !words'[hi][j];
      }
    }
    OneBit(top, words, top', words', r, false);
  }

  // ----- a level-1 block

  /** A bit of the block is its number in its level-2 block and its place there. */
  lemma Coordinates(b: nat, r: nat, span: nat)
    requires span > 0
    ensures b == r <==> b / span == r / span && b % span == r % span
  {
    assert b == span * (b / span) + b % span && r == span * (r / span) + r % span;
  }

  method SetLv1(l: Lv1, r: nat) returns (l': Lv1)
    requires Whole1(l) && r < LV1_SPAN
    ensures Whole1(l') && !IsZero(l'.bmp2)
    ensures forall b: nat :: Has1(l', b) <==> b == r || Has1(l, b)
  {
    var k := r / LV2_SPAN;
    assert Block2At(l, k);
    ExactAt(l.bmp2, l.bmp3, k / 64, k % 64);
    var leaf := if l.bmp3[k / 64][k % 64] then l.lv2[k] else NEW_LV2;
    var bmp2, bmp3 := SetBits(l.bmp2, l.bmp3, k);
    var bmp4, bmp5 := SetBits(leaf.bmp4, leaf.bmp5, r % LV2_SPAN);
    l' := Lv1(bmp2, bmp3, l.lv2[k := Lv2(bmp4, bmp5)]);
    SetStored(l, l', k);
    forall b: nat
      ensures Has1(l', b) <==> b == r || Has1(l, b)
    {
      Coordinates(b, r, LV2_SPAN);
    }
  }

  lemma SetStored(l: Lv1, l': Lv1, k: nat)
    requires Whole1(l) && Exact(l'.bmp2, l'.bmp3) && k in l'.lv2 && l'.lv2 == l.lv2[k := l'.lv2[k]] && Block2(l'.lv2[k])
    requires forall j: nat :: Has(l'.bmp2, l'.bmp3, j) <==> j == k || Has(l.bmp2, l.bmp3, j)
    ensures Whole1(l')
  {
    forall j: nat
      ensures Block2At(l', j)
    {
      assert Block2At(l, j);
    }
  }

  /** A level-2 block that becomes empty goes. */
  method ClrLv1(l: Lv1, r: nat) returns (l': Lv1)
    requires Whole1(l) && r < LV1_SPAN
    ensures Whole1(l')
    ensures forall b: nat :: Has1(l', b) <==> b != r && Has1(l, b)
  {
    var k := r / LV2_SPAN;
    assert Block2At(l, k);
    ExactAt(l.bmp2, l.bmp3, k / 64, k % 64);
    if !l.bmp3[k / 64][k % 64] {
      return l;
    }
    var bmp4, bmp5 := ClrBits(l.lv2[k].bmp4, l.lv2[k].bmp5, r % LV2_SPAN);
    if IsZero(bmp4) {
      var bmp2, bmp3 := ClrBits(l.bmp2, l.bmp3, k);
      l' := Lv1(bmp2, bmp3, l.lv2 - {k});
      ExactEmpty(bmp4, bmp5);
      DropStored(l, l', k);
    } else {
      l' := l.(lv2 := l.lv2[k := Lv2(bmp4, bmp5)]);
      SetStored(l, l', k);
    }
    forall b: nat
      ensures Has1(l', b) <==> b != r && Has1(l, b)
    {
      Coordinates(b, r, LV2_SPAN);
      assert Has(bmp4, bmp5, b % LV2_SPAN) <==>
        b % LV2_SPAN != r % LV2_SPAN && Has(l.lv2[k].bmp4, l.lv2[k].bmp5, b % LV2_SPAN);
    }
  }

  lemma DropStored(l: Lv1, l': Lv1, k: nat)
    requires Whole1(l) && Exact(l'.bmp2, l'.bmp3) && l'.lv2 == l.lv2 - {k}
    requires forall j: nat :: Has(l'.bmp2, l'.bmp3, j) <==> j != k && Has(l.bmp2, l.bmp3, j)
    ensures Whole1(l')
  {
    forall j: nat
      ensures Block2At(l', j)
    {
      assert Block2At(l, j);
    }
  }

  lemma Empty1(l: Lv1)
    requires Whole1(l) && IsZero(l.bmp2)
    ensures forall b: nat :: !Has1(l, b)
  {
    forall b: nat
      ensures !Has1(l, b)
    {
      assert Block2At(l, b / LV2_SPAN);
    }
  }

  method GetLv1(l: Lv1, r: nat) returns (has: bool)
    requires Whole1(l) && r < LV1_SPAN
    ensures has <==> Has1(l, r)
  {
    var k := r / LV2_SPAN;
    assert Block2At(l, k);
    ExactAt(l.bmp2, l.bmp3, k / 64, k % 64);
    if !l.bmp3[k / 64][k % 64] {
      return false;
    }
    var lo := r % LV2_SPAN;
    ExactAt(l.lv2[k].bmp4, l.lv2[k].bmp5, lo / 64, lo % 64);
    return l.lv2[k].bmp5[lo / 64][lo % 64];
  }

  /** One past the last of the first i keys. */
  function Done(keys: seq<nat>, i: nat): nat
    requires i <= |keys|
  {
    if i == 0 then 0 else keys[i - 1] + 1
  }

  /** Nothing lies between a key and the next one. */
  lemma NoneBetween(keys: seq<nat>, i: nat, k: nat)
    requires Rising(keys) && i <= |keys| && k in keys
    ensures k < Done(keys, i) || (i < |keys| && keys[i] <= k)
  {
    var j :| 0 <= j < |keys| && keys[j] == k;
    assert j < i ==> j == i - 1 || keys[j] < keys[i - 1];
    assert i < j ==> keys[i] < keys[j];
  }

  /** Calls back the members with `bid` added, block after block. */
  method IterateLv1(l: Lv1, bid: nat) returns (visited: seq<nat>)
    requires Whole1(l)
    ensures Rising(visited) && forall x: nat :: x in visited <==> bid <= x && Has1(l, x - bid)
  {
    var keys: seq<nat> := IterateFrom(l.bmp2, l.bmp3, 0);
    KeysOfBlocks(l, keys);
    visited := [];
    for i := 0 to |keys|
      invariant Rising(visited)
      invariant forall x: nat :: x in visited <==> bid <= x && Has1(l, x - bid) && (x - bid) / LV2_SPAN < Done(keys, i)
    {
      var k: nat := keys[i];
      assert k in keys && Block2At(l, k);
      var leaf := IterateFrom(l.lv2[k].bmp4, l.lv2[k].bmp5, bid + k * LV2_SPAN);
      Block2Listed(l, k, bid, leaf);
      ListsMore(visited, leaf, bid + k * LV2_SPAN) by {
        assert i > 0 ==> keys[i - 1] < k;
      }
      visited := visited + leaf;
      forall x: nat
        ensures x in visited <==> bid <= x && Has1(l, x - bid) && (x - bid) / LV2_SPAN < Done(keys, i + 1)
      {
        if bid <= x && Has1(l, x - bid) {
          NoneBetween(keys, i, (x - bid) / LV2_SPAN);
        }
      }
    }
    forall x: nat
      ensures x in visited <==> bid <= x && Has1(l, x - bid)
    {
      if bid <= x && Has1(l, x - bid) {
        NoneBetween(keys, |keys|, (x - bid) / LV2_SPAN);
      }
    }
  }

  lemma KeysOfBlocks(l: Lv1, keys: seq<nat>)
    requires Whole1(l) && ListsBlocks(keys, l.bmp2, l.bmp3, 0, 64)
    ensures Rising(keys) && forall k: nat :: k in keys <==> k in l.lv2
  {
    forall k: nat
      ensures k in keys <==> k in l.lv2
    {
      assert Block2At(l, k);
      assert k in keys <==> Has(l.bmp2, l.bmp3, k - 0) && k / 64 < 64;
    }
  }

  lemma Block2Listed(l: Lv1, k: nat, bid: nat, leaf: seq<nat>)
    requires Whole1(l) && k in l.lv2 && Block2(l.lv2[k])
    requires ListsBlocks(leaf, l.lv2[k].bmp4, l.lv2[k].bmp5, bid + k * LV2_SPAN, 64)
    ensures forall x: nat :: x in leaf <==> bid <= x && Has1(l, x - bid) && (x - bid) / LV2_SPAN == k
    ensures forall x: nat :: x in leaf ==> bid + k * LV2_SPAN <= x
  {
    assert Block2At(l, k);
    forall x: nat
      ensures x in leaf <==> bid <= x && Has1(l, x - bid) && (x - bid) / LV2_SPAN == k
    {
      var base := bid + k * LV2_SPAN;
      if x in leaf {
        assert Has(l.lv2[k].bmp4, l.lv2[k].bmp5, x - base);
        Within(x - bid, k, LV2_SPAN);
      } else if bid <= x && (x - bid) / LV2_SPAN == k {
        Within(x - bid, k, LV2_SPAN);
      }
    }
  }

  lemma Within(b: nat, k: nat, span: nat)
    requires span == LV1_SPAN || span == LV2_SPAN
    ensures b / span == k <==> k * span <= b < k * span + span
    ensures b / span == k ==> b % span == b - k * span
  {
    if span == LV1_SPAN {
      assert b / LV1_SPAN == k <==> k * LV1_SPAN <= b < k * LV1_SPAN + LV1_SPAN;
    } else {
      assert b / LV2_SPAN == k <==> k * LV2_SPAN <= b < k * LV2_SPAN + LV2_SPAN;
    }
  }

  // ----- the whole bitmap

  ghost predicate Block1At(bmp1: seq<Word>, lv1: map<nat, Lv1>, k: nat) {
    && |bmp1| == 2 && (k in lv1 <==> k < 128 && bmp1[k / 64][k % 64])
    && (k in lv1 ==> Whole1(lv1[k]) && !IsZero(lv1[k].bmp2))
  }

  ghost predicate Has0(lv1: map<nat, Lv1>, b: nat) {
    b < LIMIT && b / LV1_SPAN in lv1 && Has1(lv1[b / LV1_SPAN], b % LV1_SPAN)
  }

  class XdbBmp {
    var bmp1: seq<Word>
    var lv1: map<nat, Lv1>
    ghost var members: set<nat>

    ghost predicate Valid()
      reads this
    {
      && |bmp1| == 2 && (forall k {:trigger Block1At(bmp1, lv1, k)} :: Block1At(bmp1, lv1, k))
      && forall b {:trigger Has0(lv1, b)} {:trigger b in members} :: b in members <==> Has0(lv1, b)
    }

    constructor ()
      ensures Valid() && members == {}
    {
      bmp1, lv1, members := [ZERO, ZERO], map[], {};
    }

    method Set(bit: nat)
      requires Valid() && bit < LIMIT
      modifies this
      ensures Valid() && members == old(members) + {bit}
    {
      ghost var b0, l0 := bmp1, lv1;
      var id0, id1, k := bit / 0x4000_0000, bit / LV1_SPAN % 64, bit / LV1_SPAN;
      assert Block1At(bmp1, lv1, k) && k / 64 == id0;
      var block := NEW_LV1;
      if bmp1[id0][id1] {
        block := lv1[k];
      } else {
        bmp1 := bmp1[id0 := bmp1[id0][id1 := true]];
        NewBlock();
      }
      var block' := SetLv1(block, bit % LV1_SPAN);
      lv1 := lv1[k := block'];
      forall j
        ensures Block1At(bmp1, lv1, j)
      {
        assert Block1At(b0, l0, j);
        Coordinates(j, k, 64);
      }
      forall b: nat
        ensures Has0(lv1, b) <==> b == bit || Has0(l0, b)
      {
        Coordinates(b, bit, LV1_SPAN);
      }
      members := members + {bit};
    }

    lemma NewBlock()
      ensures Whole1(NEW_LV1) && forall b: nat :: !Has1(NEW_LV1, b)
    {
    }

    /** Summary bits and blocks go with the last bit below them. */
    method Clr(bit: nat)
      requires Valid() && bit < LIMIT
      modifies this
      ensures Valid() && members == old(members) - {bit}
    {
      ghost var b0, l0 := bmp1, lv1;
      var id0, id1, k := bit / 0x4000_0000, bit / LV1_SPAN % 64, bit / LV1_SPAN;
      assert Block1At(bmp1, lv1, k) && k / 64 == id0;
      if !bmp1[id0][id1] {
        assert !Has0(lv1, bit);
        return;
      }
      var block := ClrLv1(lv1[k], bit % LV1_SPAN);
      if IsZero(block.bmp2) {
        lv1 := lv1 - {k};
        bmp1 := bmp1[id0 := bmp1[id0][id1 := false]];
        Empty1(block);
      } else {
        lv1 := lv1[k := block];
      }
      forall j
        ensures Block1At(bmp1, lv1, j)
      {
        assert Block1At(b0, l0, j);
        Coordinates(j, k, 64);
      }
      forall b: nat
        ensures Has0(lv1, b) <==> b != bit && Has0(l0, b)
      {
        Coordinates(b, bit, LV1_SPAN);
        assert Has1(block, b % LV1_SPAN) <==> b % LV1_SPAN != bit % LV1_SPAN && Has1(l0[k], b % LV1_SPAN);
      }
      members := members - {bit};
    }

    method Get(bit: nat) returns (has: bool)
      requires Valid() && bit < LIMIT
      ensures has <==> bit in members
    {
      var id0, id1, k := bit / 0x4000_0000, bit / LV1_SPAN % 64, bit / LV1_SPAN;
      assert Block1At(bmp1, lv1, k) && k / 64 == id0;
      assert bit in members <==> Has0(lv1, bit);
      if !bmp1[id0][id1] {
        return false;
      }
      has := GetLv1(lv1[k], bit % LV1_SPAN);
    }

    /** Calls back the members, ascending. */
    method Iterate() returns (visited: seq<nat>)
      requires Valid()
      ensures Rising(visited) && forall b: nat :: b in visited <==> b in members
    {
      var keys: seq<nat> := Blocks();
      visited := [];
      for i := 0 to |keys|
        invariant Rising(visited)
        invariant forall x: nat :: x in visited <==> Has0(lv1, x) && x / LV1_SPAN < Done(keys, i)
      {
        var k: nat := keys[i];
        assert k in keys && Block1At(bmp1, lv1, k);
        var list := IterateLv1(lv1[k], k * LV1_SPAN);
        Block1Listed(k, list);
        ListsMore(visited, list, k * LV1_SPAN) by {
          assert i > 0 ==> keys[i - 1] < k;
        }
        visited := visited + list;
        forall x: nat
          ensures x in visited <==> Has0(lv1, x) && x / LV1_SPAN < Done(keys, i + 1)
        {
          if Has0(lv1, x) {
            NoneBetween(keys, i, x / LV1_SPAN);
          }
        }
      }
      forall x: nat
        ensures x in visited <==> x in members
      {
        assert x in members <==> Has0(lv1, x);
        if Has0(lv1, x) {
          NoneBetween(keys, |keys|, x / LV1_SPAN);
        }
      }
    }

    /** The numbers of the level-1 blocks, from the two top words. */
    method Blocks() returns (keys: seq<nat>)
      requires Valid()
      ensures Rising(keys) && forall k: nat :: k in keys <==> k in lv1
    {
      keys := IterateWord(bmp1[0], 0);
      var more := IterateWord(bmp1[1], 64);
      ListsMore(keys, more, 64);
      keys := keys + more;
      forall k: nat
        ensures k in keys <==> k in lv1
      {
        assert Block1At(bmp1, lv1, k);
      }
    }

    lemma Block1Listed(k: nat, list: seq<nat>)
      requires Valid() && k in lv1 && Whole1(lv1[k]) && k < 128
      requires forall x: nat :: x in list <==> k * LV1_SPAN <= x && Has1(lv1[k], x - k * LV1_SPAN)
      ensures forall x: nat :: x in list <==> Has0(lv1, x) && x / LV1_SPAN == k
    {
      forall x: nat
        ensures x in list <==> Has0(lv1, x) && x / LV1_SPAN == k
      {
        Within(x, k, LV1_SPAN);
      }
    }
  }
}
