/**
What the hash index keeps about its rows: every row id is a top or a sibling of the top
with its key, tops have different keys and stand in the slot their key hashes to, and a row
id that is not indexed has zero links. Every change of the index keeps this.
*/
module HashRows {
  import opened RowWord
  import opened Keys
  import opened RowGroups
  import opened HashBits
  import opened HashLink
  import opened HashSlots

  const ZERO_NODE := HNode(0, 0, 0, 0)

  /** A node's hash word is the hash of its row's key. */
  ghost predicate RowHashed(n: HNodes, rows: Rows, hash: Key -> Word, r: nat) {
    r in rows && r < |n| && n[r].hash == hash(rows[r])
  }

  ghost predicate Hashed(n: HNodes, rows: Rows, hash: Key -> Word) {
    forall r {:trigger RowHashed(n, rows, hash, r)} :: r in rows ==> RowHashed(n, rows, hash, r)
  }

  ghost predicate KeyApart(rows: Rows, x: nat, y: nat) {
    x in rows && y in rows && (rows[x] == rows[y] ==> x == y)
  }

  /** Tops have different keys. */
  ghost predicate KeysApart(rows: Rows, sibs: Sibs) {
    forall x, y {:trigger KeyApart(rows, x, y)} :: x in sibs && y in sibs ==> KeyApart(rows, x, y)
  }

  ghost predicate RowsInRange(rows: Rows, len: nat) {
    forall r :: r in rows ==> 0 < r < len && r < RID_LIMIT
  }

  /** A row id that is not indexed has three zero links. */
  ghost predicate Cleared(n: HNodes, rows: Rows) {
    forall i :: 0 < i < |n| && i !in rows ==> n[i].next == 0 && n[i].prev == 0 && n[i].sibling == 0
  }

  ghost predicate RowsStored(n: HNodes, rows: Rows, sibs: Sibs, owner: map<nat, nat>, place: map<nat, nat>,
        hash: Key -> Word, bits: nat) {
    && place.Keys == sibs.Keys && ListsOf(n, sibs) && Placed(rows, sibs, owner) && KeysApart(rows, sibs)
    && Hashed(n, rows, hash) && InSlots(n, place, bits) && RowsInRange(rows, |n|) && Cleared(n, rows) && |n| > 0
  }

  ghost predicate NoTopHas(rows: Rows, sibs: Sibs, k: Key) {
    forall x :: x in sibs && x in rows ==> rows[x] != k
  }

  // ----- looking up

  /** The rows with a top's key are the top and its siblings. */
  lemma GroupOfKey(rows: Rows, sibs: Sibs, owner: map<nat, nat>, x: nat, r: nat)
    requires Placed(rows, sibs, owner) && KeysApart(rows, sibs) && x in sibs && x in rows
    ensures r in rows && rows[r] == rows[x] <==> r == x || r in sibs[x]
  {
    assert ListPlaced(rows, owner, x, sibs[x]);
    if r in rows {
      assert RowPlaced(rows, sibs, owner, r) && KeyApart(rows, x, owner[r]);
    }
    if r in sibs[x] {
      var i :| 0 <= i < |sibs[x]| && sibs[x][i] == r;
      assert RowPlaced(rows, sibs, owner, r);
    }
  }

  lemma NoRowHas(rows: Rows, sibs: Sibs, owner: map<nat, nat>, k: Key)
    requires Placed(rows, sibs, owner) && NoTopHas(rows, sibs, k)
    ensures forall r :: r in rows ==> rows[r] != k
  {
    forall r | r in rows
      ensures rows[r] != k
    {
      assert RowPlaced(rows, sibs, owner, r);
    }
  }

  /** A key that no top of its slot has is nowhere. */
  lemma NotInSlot(n: HNodes, rows: Rows, sibs: Sibs, owner: map<nat, nat>, chains: Chains, place: map<nat, nat>,
        hash: Key -> Word, bits: nat, k: Key)
    requires RowsStored(n, rows, sibs, owner, place, hash, bits) && ChainsPlaced(chains, place)
    requires var sl := LowBits(hash(k), bits);
      sl < |chains| && forall i :: 0 <= i < |chains[sl]| && chains[sl][i] in rows ==> rows[chains[sl][i]] != k
    ensures NoTopHas(rows, sibs, k)
  {
    forall x | x in sibs && x in rows
      ensures rows[x] != k
    {
      assert x in place && TopPlaced(chains, place, x) && InSlot(n, place, bits, x) && RowHashed(n, rows, hash, x);
    }
  }

  lemma TopWords(n: HNodes, rows: Rows, sibs: Sibs, owner: map<nat, nat>, place: map<nat, nat>, hash: Key -> Word,
        bits: nat, x: nat)
    requires RowsStored(n, rows, sibs, owner, place, hash, bits) && x in sibs
    ensures 0 < x < |n| && x < RID_LIMIT && x in rows && x in place && n[x].hash == hash(rows[x])
    ensures NoDup(sibs[x]) && x !in sibs[x] && InRange(sibs[x], |n|)
    ensures forall i :: 0 <= i < |sibs[x]| ==>
      ListAt(n, x, sibs[x], i) && sibs[x][i] < RID_LIMIT && sibs[x][i] in rows && sibs[x][i] !in sibs
    ensures n[x].sibling == Head(sibs[x])
  {
    assert ListOf(n, x, sibs[x]) && ListPlaced(rows, owner, x, sibs[x]) && RowHashed(n, rows, hash, x);
    forall i | 0 <= i < |sibs[x]|
      ensures ListAt(n, x, sibs[x], i) && sibs[x][i] !in sibs
    {
      SiblingNotTop(rows, sibs, owner, x, i);
    }
  }

  lemma TopsIndexed(rows: Rows, sibs: Sibs, owner: map<nat, nat>)
    requires Placed(rows, sibs, owner)
    ensures forall x :: x in sibs ==> x in rows
  {
    forall x | x in sibs
      ensures x in rows
    {
      assert ListPlaced(rows, owner, x, sibs[x]);
    }
  }

  // ----- rows coming

  /** The hash word of a row id that is not indexed may be written. */
  lemma HashWritten(n: HNodes, rows: Rows, sibs: Sibs, owner: map<nat, nat>, place: map<nat, nat>, hash: Key -> Word,
        bits: nat, Z: nat, h: nat)
    requires RowsStored(n, rows, sibs, owner, place, hash, bits) && Z < |n| && Z !in rows
    ensures RowsStored(n[Z := n[Z].(hash := h)], rows, sibs, owner, place, hash, bits)
  {
    var n' := n[Z := n[Z].(hash := h)];
    OnlyCleared(n, n', rows, sibs, owner, place, hash, bits, Z);
    assert Cleared(n', rows);
  }

  /** Writes to a row id that is not indexed leave the others' lists, hashes and slots. */
  lemma OnlyCleared(n: HNodes, n': HNodes, rows: Rows, sibs: Sibs, owner: map<nat, nat>, place: map<nat, nat>,
        hash: Key -> Word, bits: nat, Z: nat)
    requires place.Keys == sibs.Keys && ListsOf(n, sibs) && Placed(rows, sibs, owner) && Hashed(n, rows, hash) &&
      InSlots(n, place, bits)
    requires Z !in rows && |n'| >= |n| && forall i :: 0 <= i < |n| && i != Z ==> n'[i] == n[i]
    ensures ListsOf(n', sibs) && Hashed(n', rows, hash) && InSlots(n', place, bits)
  {
    forall x | x in sibs
      ensures ListOf(n', x, sibs[x])
    {
      assert ListOf(n, x, sibs[x]) && ListPlaced(rows, owner, x, sibs[x]);
      forall i | 0 <= i < |sibs[x]|
        ensures ListAt(n', x, sibs[x], i)
      {
        assert ListAt(n, x, sibs[x], i);
      }
    }
    HashesKept(n, n', rows, sibs, owner, place, hash, bits, Z);
  }

  /** The hash words of the indexed rows stayed. */
  lemma HashesKept(n: HNodes, n': HNodes, rows: Rows, sibs: Sibs, owner: map<nat, nat>, place: map<nat, nat>,
        hash: Key -> Word, bits: nat, Z: nat)
    requires place.Keys == sibs.Keys && Placed(rows, sibs, owner) && Hashed(n, rows, hash) &&
      InSlots(n, place, bits) && Z !in rows
    requires |n'| >= |n| && forall i :: 0 <= i < |n| && i != Z ==> n'[i].hash == n[i].hash
    ensures Hashed(n', rows, hash) && InSlots(n', place, bits)
  {
    forall r | r in rows
      ensures RowHashed(n', rows, hash, r)
    {
      assert RowHashed(n, rows, hash, r);
    }
    forall x | x in place
      ensures InSlot(n', place, bits, x)
    {
      assert InSlot(n, place, bits, x) && ListPlaced(rows, owner, x, sibs[x]);
    }
  }

  lemma NodesGrown(n: HNodes, n': HNodes, rows: Rows, sibs: Sibs, owner: map<nat, nat>, place: map<nat, nat>,
        hash: Key -> Word, bits: nat)
    requires RowsStored(n, rows, sibs, owner, place, hash, bits)
    requires |n| <= |n'| && n'[..|n|] == n && forall i :: |n| <= i < |n'| ==> n'[i] == ZERO_NODE
    ensures RowsStored(n', rows, sibs, owner, place, hash, bits)
  {
    assert forall i :: 0 <= i < |n| ==> n'[i] == n'[..|n|][i];
    OnlyCleared(n, n', rows, sibs, owner, place, hash, bits, |n|);
  }

  /** Z, its hash word written, becomes the first sibling of x. */
  lemma SiblingStored(n: HNodes, n': HNodes, rows: Rows, sibs: Sibs, owner: map<nat, nat>, place: map<nat, nat>,
        hash: Key -> Word, bits: nat, x: nat, Z: nat)
    requires RowsStored(n, rows, sibs, owner, place, hash, bits) && x in sibs && x in rows
    requires Z !in rows && 0 < Z < RID_LIMIT && PushListWrites(n, n', x, sibs[x], Z)
    requires n[Z].hash == hash(rows[x]) && n'[Z].hash == n[Z].hash
    ensures RowsStored(n', rows[Z := rows[x]], sibs[x := [Z] + sibs[x]], owner[Z := x], place, hash, bits)
    ensures forall i :: 0 <= i < |n| && i in place ==> n'[i].next == n[i].next && n'[i].prev == n[i].prev
  {
    var rows', sibs', owner' := rows[Z := rows[x]], sibs[x := [Z] + sibs[x]], owner[Z := x];
    TopWords(n, rows, sibs, owner, place, hash, bits, x);
    SiblingAddedPlaced(rows, sibs, owner, x, Z);
    ListsPushed(n, n', rows, sibs, owner, x, Z);
    HashesKept(n, n', rows, sibs, owner, place, hash, bits, Z);
    assert Hashed(n', rows', hash) by {
      forall r | r in rows'
        ensures RowHashed(n', rows', hash, r)
      {
        assert r != Z ==> RowHashed(n', rows, hash, r);
      }
    }
    TopsIndexed(rows, sibs, owner);
    KeysApartAfter(rows, sibs, owner, rows', sibs');
    assert sibs[x] != [] ==> sibs[x][0] !in sibs;
  }

  lemma KeysApartAfter(rows: Rows, sibs: Sibs, owner: map<nat, nat>, rows': Rows, sibs': Sibs)
    requires KeysApart(rows, sibs) && Placed(rows, sibs, owner)
    requires forall x :: x in sibs' ==> x in sibs && x in rows'
    requires forall x :: x in sibs' && x in rows ==> rows'[x] == rows[x]
    ensures KeysApart(rows', sibs')
  {
    forall x, y | x in sibs' && y in sibs'
      ensures KeyApart(rows', x, y)
    {
      assert KeyApart(rows, x, y);
    }
  }

  /** Z, its links zero and its hash word written, becomes a top. */
  lemma TopStored(n: HNodes, n': HNodes, rows: Rows, sibs: Sibs, owner: map<nat, nat>, place: map<nat, nat>,
        hash: Key -> Word, bits: nat, Z: nat, k: Key)
    requires RowsStored(n, rows, sibs, owner, place, hash, bits) && NoTopHas(rows, sibs, k)
    requires Z !in rows && 0 < Z < |n| && Z < RID_LIMIT && n[Z].hash == hash(k) && n[Z].sibling == 0
    requires ChainsOnly(n, n', place.Keys + {Z})
    ensures RowsStored(n', rows[Z := k], sibs[Z := []], owner[Z := Z], place[Z := LowBits(hash(k), bits)], hash, bits)
  {
    var rows', sibs', place' := rows[Z := k], sibs[Z := []], place[Z := LowBits(hash(k), bits)];
    LeafPlaced(rows, sibs, owner, Z, k);
    ListsKept(n, n', rows, sibs, owner, place.Keys + {Z});
    assert ListOf(n', Z, []);
    HashesKept(n, n', rows, sibs, owner, place, hash, bits, Z);
    assert Hashed(n', rows', hash) by {
      forall r | r in rows'
        ensures RowHashed(n', rows', hash, r)
      {
        assert r != Z ==> RowHashed(n', rows, hash, r);
      }
    }
    assert InSlots(n', place', bits) by {
      forall x | x in place'
        ensures InSlot(n', place', bits, x)
      {
        assert x != Z ==> InSlot(n', place, bits, x);
      }
    }
    forall x, y | x in sibs' && y in sibs'
      ensures KeyApart(rows', x, y)
    {
      assert x != Z ==> ListPlaced(rows, owner, x, sibs[x]);
      assert y != Z ==> ListPlaced(rows, owner, y, sibs[y]);
      assert x != Z && y != Z ==> KeyApart(rows, x, y);
    }
    TopsIndexed(rows, sibs, owner);
    assert Cleared(n', rows');
  }

  // ----- rows going

  /** The j-th sibling of x leaves. */
  lemma SiblingGone(n: HNodes, n': HNodes, rows: Rows, sibs: Sibs, owner: map<nat, nat>, place: map<nat, nat>,
        hash: Key -> Word, bits: nat, x: nat, j: nat)
    requires RowsStored(n, rows, sibs, owner, place, hash, bits) && x in sibs && j < |sibs[x]|
    requires CutListWrites(n, n', x, sibs[x], j)
    ensures var r := sibs[x][j]; RowsStored(n', rows - {r}, sibs[x := Cut(sibs[x], j)], owner - {r}, place, hash, bits)
    ensures forall i :: 0 <= i < |n| && i in place ==> n'[i].next == n[i].next && n'[i].prev == n[i].prev
  {
    var s, r := sibs[x], sibs[x][j];
    var rows', sibs' := rows - {r}, sibs[x := Cut(s, j)];
    TopWords(n, rows, sibs, owner, place, hash, bits, x);
    CutPlaced(rows, sibs, owner, x, j);
    ListsCut(n, n', rows, sibs, owner, x, j);
    assert ListAt(n, x, s, j);
    assert j > 0 ==> ListAt(n, x, s, j - 1);
    assert j + 1 < |s| ==> ListAt(n, x, s, j + 1);
    HashesStay(n, n', rows, rows', sibs, owner, place, place, hash, bits);
    TopsIndexed(rows, sibs, owner);
    KeysApartAfter(rows, sibs, owner, rows', sibs');
  }

  /** Hash words and slots after some rows went. */
  lemma HashesStay(n: HNodes, n': HNodes, rows: Rows, rows': Rows, sibs: Sibs, owner: map<nat, nat>,
        place: map<nat, nat>, place': map<nat, nat>, hash: Key -> Word, bits: nat)
    requires Hashed(n, rows, hash) && InSlots(n, place, bits)
    requires |n'| == |n| && forall i :: 0 <= i < |n| ==> n'[i].hash == n[i].hash
    requires forall r :: r in rows' ==> r in rows && rows'[r] == rows[r]
    requires forall x :: x in place' ==> x in place && place'[x] == place[x]
    ensures Hashed(n', rows', hash) && InSlots(n', place', bits)
  {
    forall r | r in rows'
      ensures RowHashed(n', rows', hash, r)
    {
      assert RowHashed(n, rows, hash, r);
    }
    forall x | x in place'
      ensures InSlot(n', place', bits, x)
    {
      assert InSlot(n, place, bits, x);
    }
  }

  /** A top without siblings, its chain words already handed over, leaves. */
  lemma TopGone(n: HNodes, n1: HNodes, n': HNodes, rows: Rows, sibs: Sibs, owner: map<nat, nat>, place: map<nat, nat>,
        hash: Key -> Word, bits: nat, Z: nat)
    requires RowsStored(n, rows, sibs, owner, place, hash, bits) && Z in sibs && sibs[Z] == []
    requires ChainsOnly(n, n1, place.Keys) && Z < |n| && n' == n1[Z := n1[Z].(next := 0, prev := 0, sibling := 0)]
    ensures RowsStored(n', rows - {Z}, sibs - {Z}, owner - {Z}, place - {Z}, hash, bits)
  {
    GonePlaced(rows, sibs, owner, Z);
    TopsIndexed(rows, sibs, owner);
    HashesStay(n, n', rows, rows - {Z}, sibs, owner, place, place - {Z}, hash, bits);
    ListsKept(n, n1, rows, sibs, owner, place.Keys);
    forall x | x in sibs - {Z}
      ensures ListOf(n', x, (sibs - {Z})[x])
    {
      assert ListOf(n1, x, sibs[x]) && ListPlaced(rows, owner, x, sibs[x]);
      forall i | 0 <= i < |sibs[x]|
        ensures ListAt(n', x, sibs[x], i)
      {
        assert ListAt(n1, x, sibs[x], i);
        SiblingNotTop(rows, sibs, owner, x, i);
      }
    }
    KeysApartAfter(rows, sibs, owner, rows - {Z}, sibs - {Z});
  }

  /** The k-th top of a chain leaves and its first sibling takes its place. */
  lemma TopPromoted(n: HNodes, n': HNodes, rows: Rows, sibs: Sibs, owner: map<nat, nat>, place: map<nat, nat>,
        hash: Key -> Word, bits: nat, c: seq<nat>, k: nat)
    requires RowsStored(n, rows, sibs, owner, place, hash, bits) && k < |c| && c[k] in sibs && sibs[c[k]] != []
    requires NoDup(c) && (forall i :: 0 <= i < |c| ==> c[i] in sibs) && PromoteWrites(n, n', c, k, sibs[c[k]])
    ensures var Z, S := c[k], sibs[c[k]][0];
      RowsStored(n', rows - {Z}, Promoted(sibs, Z), PromotedOwner(owner, Z, S), (place - {Z})[S := place[Z]], hash,
        bits)
  {
    var Z, S := c[k], sibs[c[k]][0];
    var rows', sibs', owner', place' := rows - {Z}, Promoted(sibs, Z), PromotedOwner(owner, Z, S),
      (place - {Z})[S := place[Z]];
    TopWords(n, rows, sibs, owner, place, hash, bits, Z);
    PromotedPlaced(rows, sibs, owner, Z);
    ListsPromoted(n, n', rows, sibs, owner, c, k);
    TopsIndexed(rows, sibs, owner);
    GroupOfKey(rows, sibs, owner, Z, S);
    HashesStay(n, n', rows, rows', sibs, owner, place, place - {Z}, hash, bits);
    assert InSlots(n', place', bits) by {
      assert RowHashed(n, rows, hash, S) && RowHashed(n, rows, hash, Z) && InSlot(n, place, bits, Z);
      forall x | x in place'
        ensures InSlot(n', place', bits, x)
      {
        assert x != S ==> InSlot(n', place - {Z}, bits, x);
      }
    }
    PromotedApart(rows, sibs, owner, Z);
    assert Cleared(n', rows') by {
      assert sibs[Z][0] in rows;
      assert |sibs[Z]| > 1 ==> sibs[Z][1] in rows;
      assert k + 1 < |c| ==> c[k + 1] in rows;
      assert k > 0 ==> c[k - 1] in rows;
    }
  }

  lemma PromotedApart(rows: Rows, sibs: Sibs, owner: map<nat, nat>, Z: nat)
    requires Placed(rows, sibs, owner) && KeysApart(rows, sibs) && Z in sibs && sibs[Z] != []
    ensures KeysApart(rows - {Z}, Promoted(sibs, Z))
  {
    var S := sibs[Z][0];
    TopsIndexed(rows, sibs, owner);
    GroupOfKey(rows, sibs, owner, Z, S);
    forall x, y | x in Promoted(sibs, Z) && y in Promoted(sibs, Z)
      ensures KeyApart(rows - {Z}, x, y)
    {
      SiblingNotTop(rows, sibs, owner, Z, 0);
      assert x != S && y != S ==> KeyApart(rows, x, y);
      assert x != S ==> KeyApart(rows, x, Z);
      assert y != S ==> KeyApart(rows, y, Z);
    }
  }

  // ----- slots

  /** The tops moved to the slots of twice as many. */
  lemma MovedStored(n: HNodes, n': HNodes, rows: Rows, sibs: Sibs, owner: map<nat, nat>, place: map<nat, nat>,
        place': map<nat, nat>, hash: Key -> Word, bits: nat, bits': nat)
    requires RowsStored(n, rows, sibs, owner, place, hash, bits) && ChainsOnly(n, n', place'.Keys)
    requires place'.Keys == place.Keys && InSlots(n', place', bits')
    ensures RowsStored(n', rows, sibs, owner, place', hash, bits')
  {
    ListsKept(n, n', rows, sibs, owner, place'.Keys);
    TopsIndexed(rows, sibs, owner);
    forall r | r in rows
      ensures RowHashed(n', rows, hash, r)
    {
      assert RowHashed(n, rows, hash, r);
    }
  }

  lemma ChainsGrown(slot: seq<nat>, n: HNodes, n': HNodes, chains: Chains, place: map<nat, nat>)
    requires SlotsLinked(slot, n, chains) && |n| <= |n'| && n'[..|n|] == n
    ensures SlotsLinked(slot, n', chains)
  {
    assert forall i :: 0 <= i < |n| ==> n'[i] == n'[..|n|][i];
    forall sl | 0 <= sl < |chains|
      ensures SlotLinked(slot, n', chains, sl)
    {
      assert SlotLinked(slot, n, chains, sl);
      forall k | 0 <= k < |chains[sl]|
        ensures ChainAt(n', sl, chains[sl], k)
      {
        assert ChainAt(n, sl, chains[sl], k);
      }
    }
  }

  lemma SlotsGrown(slot: seq<nat>, n: HNodes, chains: Chains, place: map<nat, nat>, m: nat)
    requires SlotsLinked(slot, n, chains) && ChainsPlaced(chains, place)
    ensures var slot', chains' := slot + seq(m, i => 0), chains + seq(m, i => []);
      SlotsLinked(slot', n, chains') && ChainsPlaced(chains', place) && |Used(chains')| == |Used(chains)|
  {
    var slot', chains' := slot + seq(m, i => 0), chains + seq(m, i => []);
    assert Used(chains') == Used(chains);
    forall sl | 0 <= sl < |chains'|
      ensures SlotLinked(slot', n, chains', sl) && ChainPlaced(chains'[sl], place, sl)
    {
      if sl < |chains| {
        assert SlotLinked(slot, n, chains, sl) && ChainPlaced(chains[sl], place, sl);
        forall k | 0 <= k < |chains[sl]|
          ensures ChainAt(n, sl, chains'[sl], k)
        {
          assert ChainAt(n, sl, chains[sl], k);
        }
      }
    }
    forall x | x in place
      ensures TopPlaced(chains', place, x)
    {
      assert TopPlaced(chains, place, x);
    }
  }

  /** No more slots are in use than there are tops, and there are fewer tops than row ids. */
  lemma UsedBounded(chains: Chains, place: map<nat, nat>)
    requires ChainsPlaced(chains, place)
    ensures |Used(chains)| < RID_LIMIT
  {
    forall x | x in place
      ensures 0 < x < RID_LIMIT
    {
      assert TopPlaced(chains, place, x);
      assert ChainPlaced(chains[place[x]], place, place[x]);
    }
    IdsBounded(place.Keys, RID_LIMIT);
    ValuesBounded(place);
    forall sl | sl in Used(chains)
      ensures sl in place.Values
    {
      assert ChainPlaced(chains[sl], place, sl);
      assert chains[sl][0] in place;
    }
    SubsetSize(Used(chains), place.Values);
  }

  lemma {:induction false} ValuesBounded(m: map<nat, nat>)
    ensures |m.Values| <= |m.Keys|
    decreases |m.Keys|
  {
    if m.Keys == {} {
      assert m.Values == {};
    } else {
      var k :| k in m;
      var m' := m - {k};
      assert m'.Keys == m.Keys - {k};
      ValuesBounded(m');
      forall v | v in m.Values
        ensures v in m'.Values + {m[k]}
      {
        var j :| j in m && m[j] == v;
        assert j != k ==> j in m' && m'[j] == v;
      }
      SubsetSize(m.Values, m'.Values + {m[k]});
    }
  }

  lemma {:induction false} SubsetSize<T>(a: set<T>, b: set<T>)
    requires a <= b
    ensures |a| <= |b|
  {
    if a != {} {
      var x :| x in a;
      SubsetSize(a - {x}, b - {x});
    }
  }

  lemma {:induction false} IdsBounded(ids: set<nat>, limit: nat)
    requires limit > 0 && forall x :: x in ids ==> 0 < x < limit
    ensures |ids| < limit
    decreases limit
  {
    if limit == 1 {
      assert ids == {};
    } else {
      IdsBounded(ids - {limit - 1}, limit - 1);
    }
  }
}
