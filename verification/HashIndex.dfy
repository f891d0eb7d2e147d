/**
The hash index: slot heads and nodes, changed in place.
*/
module HashIndex {
  import opened RowWord
  import opened Keys
  import opened RowGroups
  import opened HashBits
  import opened HashLink
  import opened HashSlots
  import opened HashRows

  class HashIndex {
    const unique: bool
    /** The hash of a row, by its key: its index columns as comparisons read them. */
    const hash: Key -> Word
    var slot: seq<nat>
    var node: HNodes
    var slotCount: nat
    var nodeCount: nat
    var rowCount: nat
    var rows: Rows
    ghost var bits: nat
    ghost var chains: Chains
    ghost var place: map<nat, nat>
    ghost var sibs: Sibs
    ghost var owner: map<nat, nat>

    ghost predicate Chained()
      reads this`slot, this`node, this`slotCount, this`chains, this`place
    {
      && SlotsLinked(slot, node, chains) && ChainsPlaced(chains, place)
      && slotCount == |Used(chains)|
    }

    /** The slot count is a power of two, small enough for a slot number to carry the tag. */
    ghost predicate Sized()
      reads this`slot, this`bits
    {
      |slot| == Pow2(bits) && |slot| <= 4 * RID_LIMIT
    }

    ghost predicate Shaped()
      reads this`slot, this`node, this`slotCount, this`rows, this`bits, this`chains, this`place, this`sibs, this`owner
    {
      Chained() && Sized() && RowsStored(node, rows, sibs, owner, place, hash, bits)
    }

    ghost predicate Valid()
      reads this
    {
      Shaped() && rowCount == |rows| && nodeCount == |sibs|
    }

    /** An empty index over nodes with zero links. */
    constructor (unique: bool, hash: Key -> Word, nodes: HNodes, slotBits: nat)
      requires Pow2(slotBits) <= 4 * RID_LIMIT && |nodes| > 0 && Cleared(nodes, map[])
      ensures Valid() && rows == map[] && sibs == map[] && this.unique == unique
      ensures this.hash == hash && node == nodes && |slot| == Pow2(slotBits)
    {
      this.unique, this.hash := unique, hash;
      slot, node, rows := seq(Pow2(slotBits), i => 0), nodes, map[];
      slotCount, nodeCount, rowCount := 0, 0, 0;
      bits, chains, place, sibs, owner := slotBits, seq(Pow2(slotBits), i => []), map[], map[], map[];
      new;
      assert Used(chains) == {};
      assert forall sl :: 0 <= sl < |chains| ==> SlotLinked(slot, node, chains, sl);
    }

    /** Takes a row id out of the doubly linked chain or list it is in; its own words stay. */
    method Unlink(rid: nat)
      requires rid < |node| && node[rid].next < |node| && node[rid].next != rid
      requires if Tagged(node[rid].prev) then Rid(node[rid].prev) < |slot|
        else node[rid].prev < |node| && node[rid].prev != rid
      requires node[rid].next != 0 && !Tagged(node[rid].prev) ==> node[rid].next != node[rid].prev
      requires Tagged(node[rid].prev) && node[rid].next == 0 ==> slotCount > 0
      modifies this`slot, this`node, this`slotCount
      ensures var next, prev := old(node)[rid].next, old(node)[rid].prev;
        && |node| == old(|node|)
        && (next != 0 ==> node[next] == old(node)[next].(prev := prev))
        && (!Tagged(prev) && prev != 0 ==> node[prev] == old(node)[prev].(next := next))
        && (forall i :: 0 <= i < |node| && (next == 0 || i != next) && (Tagged(prev) || prev == 0 || i != prev) ==>
          node[i] == old(node)[i])
        && slot == (if Tagged(prev) then old(slot)[Rid(prev) := next] else old(slot))
        && slotCount == old(slotCount) - (if Tagged(prev) && next == 0 then 1 else 0)
    {
      var cur := node[rid];
      if cur.next != 0 {
        node := node[cur.next := node[cur.next].(prev := cur.prev)];
      }
      if Tagged(cur.prev) {
        slot := slot[Rid(cur.prev) := cur.next];
        if cur.next == 0 {
          slotCount := slotCount - 1;
        }
      } else if cur.prev != 0 {
        node := node[cur.prev := node[cur.prev].(next := cur.next)];
      }
    }

    /** Takes a top out of its chain. */
    method UnlinkTop(rid: nat, ghost sl: nat, ghost k: nat)
      requires Chained() && sl < |chains| && k < |chains[sl]| && chains[sl][k] == rid
      modifies this`slot, this`node, this`slotCount, this`chains, this`place
      ensures Chained() && chains == old(chains)[sl := Cut(old(chains)[sl], k)] && place == old(place) - {rid}
      ensures ChainsOnly(old(node), node, old(place).Keys) && rid < |node| && node[rid] == old(node)[rid] &&
        |slot| == old(|slot|)
    {
      ghost var n, slot0, c := node, slot, chains[sl];
      ChainWords(slot, node, chains, place, sl, k);
      Unlink(rid);
      ChainsCut(slot0, n, slot, node, chains, place, sl, k);
      chains, place := chains[sl := Cut(c, k)], place - {rid};
    }

    /** A top goes to the head of a slot. */
    method PushTop(rid: nat, sl: nat)
      requires Chained() && sl < |slot| && rid !in place && 0 < rid < |node| && rid < RID_LIMIT
      modifies this`slot, this`node, this`slotCount, this`chains, this`place
      ensures Chained() && chains == old(chains)[sl := [rid] + old(chains)[sl]] && place == old(place)[rid := sl]
      ensures ChainsOnly(old(node), node, old(place).Keys + {rid}) && |slot| == old(|slot|)
    {
      ghost var n, slot0, c := node, slot, chains[sl];
      SlotWords(slot, node, chains, place, sl);
      var first := slot[sl];
      slot := slot[sl := rid];
      if first == 0 {
        node := node[rid := node[rid].(next := 0, prev := MSB + sl)];
        slotCount := slotCount + 1;
      } else {
        node := node[rid := node[rid].(next := first, prev := MSB + sl)];
        node := node[first := node[first].(prev := rid)];
      }
      ChainsPushed(slot0, n, slot, node, chains, place, sl, rid);
      chains, place := chains[sl := [rid] + c], place[rid := sl];
    }

    /**
    After the slots have doubled: every chain of the old slots is walked once, and a top
    whose new slot is another one is moved to the head of that slot.
    */
    method Rehash(oldMax: nat)
      requires Chained() && oldMax == Pow2(bits) && |slot| == Pow2(bits + 1)
      requires InSlots(node, place, bits)
      modifies this`slot, this`node, this`slotCount, this`chains, this`place, this`bits
      ensures Chained() && bits == old(bits) + 1 && InSlots(node, place, bits)
      ensures place.Keys == old(place).Keys && |slot| == old(|slot|)
      ensures ChainsOnly(old(node), node, place.Keys)
    {
      ghost var n0, tops := node, place.Keys;
      StartMoving(node, place, bits);
      for s := 0 to oldMax
        invariant Chained() && |slot| == old(|slot|) && bits == old(bits) && place.Keys == tops
        invariant ChainsOnly(n0, node, tops) && AllMovedBelow(node, place, bits, s)
      {
        ghost var n := node;
        StartSlot(node, place, bits, s);
        RehashSlot(s);
        ChainsOnlyTransitive(n0, n, node, tops);
      }
      DoneMoving(node, place, bits, oldMax);
      bits := bits + 1;
    }

    method RehashSlot(s: nat)
      requires Chained() && s < Pow2(bits) && |slot| == Pow2(bits + 1) && AllMoving(node, place, bits, s)
      modifies this`slot, this`node, this`slotCount, this`chains, this`place
      ensures Chained() && |slot| == old(|slot|) && place.Keys == old(place).Keys
      ensures ChainsOnly(old(node), node, place.Keys) && AllMovedBelow(node, place, bits, s + 1)
    {
      ghost var n0, tops, k := node, place.Keys, 0;
      SlotWords(slot, node, chains, place, s);
      var rid := slot[s];
      while 0 < rid < |node|
        invariant Chained() && |slot| == old(|slot|) && place.Keys == tops && ChainsOnly(n0, node, tops)
        invariant AllMoving(node, place, bits, s) && Settled(node, chains[s], bits, s, k)
        invariant rid == (if k < |chains[s]| then chains[s][k] else 0) && (k < |chains[s]| ==> 0 < rid < |node|)
        decreases |chains[s]| - k
      {
        ChainWords(slot, node, chains, place, s, k);
        var nextRid := node[rid].next;
        var newSlot := And(node[rid].hash, |slot| - 1);
        WhereNow(node, chains, place, bits, s, k, newSlot);
        if newSlot != s {
          MoveTop(rid, newSlot, s, k);
        } else {
          k := k + 1;
        }
        if k < |chains[s]| {
          ChainWords(slot, node, chains, place, s, k);
        }
        rid := nextRid;
      }
      EndSlot(node, chains, place, bits, s);
    }

    method MoveTop(rid: nat, newSlot: nat, ghost s: nat, ghost k: nat)
      requires Chained() && s < |chains| && k < |chains[s]| && chains[s][k] == rid && newSlot < |slot| && newSlot != s
      requires AllMoving(node, place, bits, s) && Settled(node, chains[s], bits, s, k)
      requires rid < |node| && LowBits(node[rid].hash, bits) == s && newSlot == LowBits(node[rid].hash, bits + 1)
      modifies this`slot, this`node, this`slotCount, this`chains, this`place
      ensures Chained() && |slot| == old(|slot|) && place.Keys == old(place).Keys &&
        ChainsOnly(old(node), node, place.Keys)
      ensures AllMoving(node, place, bits, s) && chains[s] == Cut(old(chains)[s], k) &&
        Settled(node, chains[s], bits, s, k)
    {
      ghost var n, place0 := node, place;
      ChainMember(chains, place, s, k);
      UnlinkTop(rid, s, k);
      ghost var n1 := node;
      PushTop(rid, newSlot);
      assert place == place0[rid := newSlot];
      MovingKept(n, node, place0, place, bits, s, rid, place.Keys);
    }

    /** The ghost side of a change, in one step. */
    ghost method Settle(chains': Chains, place': map<nat, nat>, sibs': Sibs, owner': map<nat, nat>)
      requires SlotsLinked(slot, node, chains') && ChainsPlaced(chains', place') && slotCount == |Used(chains')| &&
        Sized()
      requires RowsStored(node, rows, sibs', owner', place', hash, bits)
      modifies this`chains, this`place, this`sibs, this`owner
      ensures Shaped() && chains == chains' && place == place' && sibs == sibs' && owner == owner'
    {
      chains, place, sibs, owner := chains', place', sibs', owner';
    }

    // ----- growing

    method GrowNodes()
      requires Shaped()
      modifies this`node
      ensures Shaped() && |node| == 2 * old(|node|) - 1
      ensures forall i :: 0 <= i < old(|node|) ==> node[i] == old(node)[i]
    {
      ghost var n := node;
      node := node + seq(|node| - 1, i => ZERO_NODE);
      assert node[..|n|] == n;
      NodesGrown(n, node, rows, sibs, owner, place, hash, bits);
      TopsIndexed(rows, sibs, owner);
      ChainsGrown(slot, n, node, chains, place);
    }

    /** Twice as many slots, the new ones empty, and every top in its new slot. */
    method GrowSlots()
      requires Shaped() && |slot| / 2 < slotCount
      modifies this`slot, this`node, this`slotCount, this`chains, this`place, this`bits
      ensures Shaped() && |slot| == 2 * old(|slot|) && |node| == old(|node|)
    {
      ghost var n, place0, bits0 := node, place, bits;
      var oldMax := |slot|;
      UsedBounded(chains, place);
      SlotsGrown(slot, node, chains, place, oldMax);
      slot, chains := slot + seq(oldMax, i => 0), chains + seq(oldMax, i => []);
      Rehash(oldMax);
      MovedStored(n, node, rows, sibs, owner, place0, place, hash, bits0, bits);
    }

    // ----- adding a row

    /** The words of the j-th top of a chain, and where the chain goes on. */
    lemma ChainTop(sl: nat, j: nat)
      requires Shaped() && sl < |chains| && j < |chains[sl]|
      ensures var x := chains[sl][j];
        && x in sibs && x in rows && 0 < x < |node| && node[x].hash == hash(rows[x])
        && node[x].next == (if j + 1 < |chains[sl]| then chains[sl][j + 1] else 0)
        && (j + 1 < |chains[sl]| ==> chains[sl][j + 1] > 0)
    {
      ChainWords(slot, node, chains, place, sl, j);
      TopWords(node, rows, sibs, owner, place, hash, bits, chains[sl][j]);
    }

    /** Walks the chain of slot sl for the top with hash word h and key k. */
    method FindTop(h: Word, k: Key, sl: nat) returns (rid: nat)
      requires Shaped() && sl == LowBits(h, bits) && sl < |slot|
      ensures rid == 0 ==> h != hash(k) || NoTopHas(rows, sibs, k)
      ensures rid != 0 ==> rid in sibs && rid in rows && rows[rid] == k && h == hash(k)
    {
      ghost var j := 0;
      SlotWords(slot, node, chains, place, sl);
      rid := slot[sl];
      while rid > 0
        invariant 0 <= j <= |chains[sl]| && rid == (if j < |chains[sl]| then chains[sl][j] else 0)
        invariant forall i :: 0 <= i < j && chains[sl][i] in rows && hash(rows[chains[sl][i]]) == h ==>
          rows[chains[sl][i]] != k
        invariant j < |chains[sl]| ==> rid > 0
        decreases |chains[sl]| - j
      {
        ChainTop(sl, j);
        if node[rid].hash == h && rows[rid] == k {
          return;
        }
        rid := node[rid].next;
        j := j + 1;
      }
      if h == hash(k) {
        NotInSlot(node, rows, sibs, owner, chains, place, hash, bits, k);
      }
    }

    /** Whether the connection sees a row among the top and its siblings. */
    method AnyVisible(top: nat, visible: set<nat>) returns (found: bool)
      requires Shaped() && top in sibs
      ensures found <==> top in visible || exists r :: r in sibs[top] && r in visible
    {
      if top in visible {
        return true;
      }
      TopWords(node, rows, sibs, owner, place, hash, bits, top);
      ghost var j, s := 0, sibs[top];
      var sid := node[top].sibling;
      while sid > 0
        invariant 0 <= j <= |s| && sid == (if j < |s| then s[j] else 0) && (j < |s| ==> sid > 0)
        invariant forall i :: 0 <= i < j ==> s[i] !in visible
        decreases |s| - j
      {
        assert ListAt(node, top, s, j);
        if sid in visible {
          return true;
        }
        assert j + 1 < |s| ==> ListAt(node, top, s, j + 1);
        sid := node[sid].next;
        j := j + 1;
      }
      return false;
    }

    /** The links of a new first sibling Z in front of the siblings s. */
    method LinkSibling(top: nat, Z: nat, ghost s: seq<nat>)
      requires top < |node| && Z < |node| && top != Z && InRange(s, |node|) && node[top].sibling == Head(s)
      requires s != [] ==> s[0] != 0 && s[0] != top && s[0] != Z
      modifies this`node
      ensures PushListWrites(old(node), node, top, s, Z) && node[Z].hash == old(node)[Z].hash
    {
      var first := node[top].sibling;
      node := node[top := node[top].(sibling := Z)];
      node := node[Z := node[Z].(prev := 0, next := first, sibling := top)];
      if first != 0 {
        node := node[first := node[first].(prev := Z, sibling := MSB)];
      }
    }

    /** Z, its hash word written, becomes the first sibling of a top. */
    method AddSibling(top: nat, Z: nat)
      requires Shaped() && top in sibs && top in rows && Z !in rows && 0 < Z < |node| && Z < RID_LIMIT
      requires node[Z].hash == hash(rows[top])
      modifies this`node, this`rows, this`chains, this`place, this`sibs, this`owner
      ensures Shaped() && |node| == old(|node|) && |slot| == old(|slot|)
      ensures rows == old(rows)[Z := old(rows)[top]] && sibs == old(sibs)[top := [Z] + old(sibs)[top]]
    {
      ghost var n := node;
      TopWords(node, rows, sibs, owner, place, hash, bits, top);
      assert sibs[top] != [] ==> ListAt(node, top, sibs[top], 0);
      LinkSibling(top, Z, sibs[top]);
      SiblingStored(n, node, rows, sibs, owner, place, hash, bits, top, Z);
      ChainsKept(slot, n, node, chains, place);
      rows := rows[Z := rows[top]];
      Settle(chains, place, sibs[top := [Z] + sibs[top]], owner[Z := top]);
    }

    /** Z, its hash word written, becomes a top of its own. */
    method AddTop(Z: nat, k: Key, sl: nat)
      requires Shaped() && NoTopHas(rows, sibs, k) && Z !in rows && 0 < Z < |node| && Z < RID_LIMIT
      requires node[Z].hash == hash(k) && sl == LowBits(hash(k), bits) && sl < |slot|
      modifies this`slot, this`node, this`slotCount, this`chains, this`place, this`rows, this`sibs, this`owner
      ensures Shaped() && |node| == old(|node|) && |slot| == old(|slot|)
      ensures rows == old(rows)[Z := k] && sibs == old(sibs)[Z := []] && Z !in old(sibs)
    {
      ghost var place0 := place;
      TopsIndexed(rows, sibs, owner);
      ghost var n := node;
      PushTop(Z, sl);
      TopStored(n, node, rows, sibs, owner, place0, hash, bits, Z, k);
      rows, sibs, owner := rows[Z := k], sibs[Z := []], owner[Z := Z];
    }

    /** How a row comes: to the front of the siblings of the top with its key, or as a new top. */
    ghost predicate AddedTo(rows0: Rows, sibs0: Sibs, Z: nat, k: Key)
      reads this`rows, this`sibs
    {
      && rows == rows0[Z := k]
      && if NoTopHas(rows0, sibs0, k) then sibs == sibs0[Z := []]
         else exists x :: x in sibs0 && x in rows0 && rows0[x] == k && sibs == sibs0[x := [Z] + sibs0[x]]
    }

    /** Whether a unique index refuses a key whose top is `rid`, 0 when it has none. */
    method Refuses(rid: nat, k: Key, visible: set<nat>, withConn: bool) returns (refused: bool)
      requires Shaped() && (rid == 0 ==> NoTopHas(rows, sibs, k)) &&
        (rid != 0 ==> rid in sibs && rid in rows && rows[rid] == k)
      ensures refused <==> unique && withConn && exists r :: r in rows && rows[r] == k && r in visible
    {
      if rid == 0 {
        NoRowHas(rows, sibs, owner, k);
        return false;
      }
      RowsOfKey(rid);
      if unique && withConn {
        refused := AnyVisible(rid, visible);
      } else {
        refused := false;
      }
    }

    /** Z, its hash word written, joins the top `rid` of its key, or slot sl as a new top. */
    method Put(rid: nat, Z: nat, k: Key, sl: nat)
      requires Valid() && (rid == 0 ==> NoTopHas(rows, sibs, k)) &&
        (rid != 0 ==> rid in sibs && rid in rows && rows[rid] == k)
      requires Z !in rows && 0 < Z < |node| && Z < RID_LIMIT
      requires node[Z].hash == hash(k) && sl == LowBits(hash(k), bits) && sl < |slot|
      modifies this
      ensures Valid() && |node| == old(|node|) && |slot| == old(|slot|) && AddedTo(old(rows), old(sibs), Z, k)
    {
      if rid != 0 {
        AddSibling(rid, Z);
      } else {
        AddTop(Z, k, sl);
        nodeCount := nodeCount + 1;
      }
      rowCount := rowCount + 1;
    }

    /** Once the arrays have room. */
    method AddAt(Z: nat, k: Key, visible: set<nat>, withConn: bool) returns (rc: Status)
      requires Valid() && Z !in rows && 0 < Z < RID_LIMIT && Z < |node|
      modifies this
      ensures Valid() && |node| == old(|node|) && |slot| == old(|slot|)
      ensures rc == Exists <==>
        unique && withConn && exists r :: r in old(rows) && old(rows)[r] == k && r in visible
      ensures rc == Exists ==> rows == old(rows) && sibs == old(sibs)
      ensures rc == Ok ==> AddedTo(old(rows), old(sibs), Z, k)
    {
      var h := hash(k);
      MaskKeepsLowBits(h, bits);
      var sl := And(h, |slot| - 1);
      WriteHash(Z, h);
      var rid := FindTop(h, k, sl);
      var refused := Refuses(rid, k, visible, withConn);
      if refused {
        return Exists;
      }
      Put(rid, Z, k, sl);
      rc := Ok;
    }

    /**
    Adds row Z with key k. A unique index refuses it when any row with that key is visible
    to the connection; rows of that key that it does not see do not count.
    */
    method Add(Z: nat, k: Key, visible: set<nat>, withConn: bool) returns (rc: Status)
      requires Valid() && Z !in rows && 0 < Z < RID_LIMIT && Z < 2 * |node| - 1
      modifies this
      ensures Valid() && |node| == if Z < old(|node|) then old(|node|) else 2 * old(|node|) - 1
      ensures |slot| == if old(|slot|) / 2 < old(slotCount) then 2 * old(|slot|) else old(|slot|)
      ensures rc == Exists <==>
        unique && withConn && exists r :: r in old(rows) && old(rows)[r] == k && r in visible
      ensures rc == Exists ==> rows == old(rows) && sibs == old(sibs)
      ensures rc == Ok ==> AddedTo(old(rows), old(sibs), Z, k)
    {
      if Z >= |node| {
        GrowNodes();
      }
      if |slot| / 2 < slotCount {
        GrowSlots();
      }
      rc := AddAt(Z, k, visible, withConn);
    }

    method WriteHash(Z: nat, h: Word)
      requires Shaped() && Z < |node| && Z !in rows
      modifies this`node
      ensures Shaped() && |node| == old(|node|) && node[Z] == old(node)[Z].(hash := h)
    {
      ghost var n := node;
      node := node[Z := node[Z].(hash := h)];
      HashWritten(n, rows, sibs, owner, place, hash, bits, Z, h);
      TopsIndexed(rows, sibs, owner);
      ChainsKept(slot, n, node, chains, place);
    }

    lemma RowsOfKey(top: nat)
      requires Shaped() && top in sibs && top in rows
      ensures forall r :: r in rows && rows[r] == rows[top] <==> r == top || r in sibs[top]
    {
      forall r
        ensures r in rows && rows[r] == rows[top] <==> r == top || r in sibs[top]
      {
        GroupOfKey(rows, sibs, owner, top, r);
      }
    }

    // ----- removing a row

    /** Where a top stands in its chain. */
    lemma TopPosition(Z: nat) returns (sl: nat, k: nat)
      requires Shaped() && Z in sibs
      ensures sl < |chains| && k < |chains[sl]| && chains[sl][k] == Z && place[Z] == sl && Z in rows && 0 < Z < |node|
      ensures NoDup(chains[sl]) && forall i :: 0 <= i < |chains[sl]| ==> chains[sl][i] in sibs
    {
      assert Z in place && TopPlaced(chains, place, Z);
      sl := place[Z];
      assert ChainPlaced(chains[sl], place, sl);
      k :| k < |chains[sl]| && chains[sl][k] == Z;
      TopsIndexed(rows, sibs, owner);
    }

    /** Where another row id stands in its sibling list. */
    lemma SiblingPosition(Z: nat) returns (x: nat, j: nat)
      requires Shaped() && Z in rows && Z !in sibs
      ensures x in sibs && j < |sibs[x]| && sibs[x][j] == Z
    {
      assert RowPlaced(rows, sibs, owner, Z);
      x := owner[Z];
      j :| j < |sibs[x]| && sibs[x][j] == Z;
    }

    lemma TopRole(Z: nat)
      requires Shaped() && Z in sibs
      ensures Z in rows && 0 < Z < |node| && node[Z].sibling == Head(sibs[Z]) < RID_LIMIT &&
        (node[Z].sibling == 0 <==> sibs[Z] == [])
      ensures 0 < node[Z].next + node[Z].prev + node[Z].sibling < 0x1_0000_0000 && node[Z].prev != 0
    {
      var sl, k := TopPosition(Z);
      ChainWords(slot, node, chains, place, sl, k);
      TopWords(node, rows, sibs, owner, place, hash, bits, Z);
      assert sibs[Z] != [] ==> ListAt(node, Z, sibs[Z], 0);
      if k + 1 < |chains[sl]| {
        ChainMember(chains, place, sl, k + 1);
      }
    }

    lemma SiblingRole(Z: nat)
      requires Shaped() && Z in rows && Z !in sibs
      ensures 0 < Z < |node| && Rid(node[Z].sibling) != 0 ==> node[Z].prev == 0
      ensures 0 < Z < |node| && 0 < node[Z].next + node[Z].prev + node[Z].sibling < 0x1_0000_0000
      ensures node[Z].sibling != 0 && (Rid(node[Z].sibling) == 0 <==> node[Z].sibling == MSB)
    {
      var x, j := SiblingPosition(Z);
      TopWords(node, rows, sibs, owner, place, hash, bits, x);
      assert ListAt(node, x, sibs[x], j);
      assert j + 1 < |sibs[x]| ==> ListAt(node, x, sibs[x], j + 1);
      assert j > 0 ==> ListAt(node, x, sibs[x], j - 1);
    }

    /** The link words of a row id tell whether it is indexed and in which role. */
    lemma Role(Z: nat)
      requires Shaped() && 0 < Z < |node|
      ensures Z in rows <==> Wrap(node[Z].next + node[Z].prev + node[Z].sibling) != 0
      ensures Z in rows && Rid(node[Z].sibling) == 0 ==>
        (Z in sibs <==> !Tagged(node[Z].sibling)) && (Z in sibs ==> sibs[Z] == [])
      ensures Z in rows && Rid(node[Z].sibling) != 0 ==>
        (Z in sibs <==> node[Z].prev != 0) && (Z in sibs ==> sibs[Z] != [])
    {
      if Z in sibs {
        TopRole(Z);
      } else if Z in rows {
        SiblingRole(Z);
      }
    }

    /** A top without siblings leaves. */
    method RemoveTop(Z: nat)
      requires Shaped() && Z in sibs && sibs[Z] == []
      modifies this`slot, this`node, this`slotCount, this`chains, this`place, this`rows, this`sibs, this`owner
      ensures Shaped() && |node| == old(|node|) && |slot| == old(|slot|)
      ensures rows == old(rows) - {Z} && sibs == old(sibs) - {Z}
    {
      ghost var n, place0 := node, place;
      ghost var sl, k := TopPosition(Z);
      UnlinkTop(Z, sl, k);
      ghost var n1 := node;
      node := node[Z := node[Z].(next := 0, prev := 0, sibling := 0)];
      TopGone(n, n1, node, rows, sibs, owner, place0, hash, bits, Z);
      ChainsKept(slot, n1, node, chains, place);
      rows, sibs, owner := rows - {Z}, sibs - {Z}, owner - {Z};
    }

    /** Once the links of the j-th sibling of x are cut. */
    method DropSibling(Z: nat, ghost n: HNodes, ghost x: nat, ghost j: nat)
      requires SlotsLinked(slot, n, chains) && ChainsPlaced(chains, place) && slotCount == |Used(chains)| && Sized()
      requires RowsStored(n, rows, sibs, owner, place, hash, bits) && x in sibs && j < |sibs[x]| && sibs[x][j] == Z
      requires CutListWrites(n, node, x, sibs[x], j)
      modifies this`rows, this`sibs, this`owner
      ensures Shaped() && rows == old(rows) - {Z} && sibs == old(sibs)[x := Cut(old(sibs)[x], j)]
    {
      SiblingGone(n, node, rows, sibs, owner, place, hash, bits, x, j);
      ChainsKept(slot, n, node, chains, place);
      rows, sibs, owner := rows - {Z}, sibs[x := Cut(sibs[x], j)], owner - {Z};
    }

    /** A later sibling leaves its list. */
    method CutLater(Z: nat, ghost x: nat, ghost s: seq<nat>, ghost j: nat)
      requires ListOf(node, x, s) && NoDup(s) && x !in s && 0 < j < |s| && s[j] == Z
      requires InRange(s, |node|) && forall i :: 0 <= i < |s| ==> s[i] < RID_LIMIT
      modifies this`slot, this`node, this`slotCount
      ensures CutListWrites(old(node), node, x, s, j) && slot == old(slot) && slotCount == old(slotCount)
    {
      assert ListAt(node, x, s, j) && ListAt(node, x, s, j - 1);
      assert j + 1 < |s| ==> ListAt(node, x, s, j + 1);
      Unlink(Z);
      node := node[Z := node[Z].(next := 0, prev := 0, sibling := 0)];
    }

    /** The first sibling leaves its list. */
    method CutFirst(Z: nat, ghost x: nat, ghost s: seq<nat>)
      requires ListOf(node, x, s) && NoDup(s) && x !in s && s != [] && s[0] == Z && x != 0 && InRange(s, |node|)
      modifies this`node
      ensures CutListWrites(old(node), node, x, s, 0)
    {
      assert ListAt(node, x, s, 0);
      assert |s| > 1 ==> ListAt(node, x, s, 1);
      var cur := node[Z];
      node := node[cur.sibling := node[cur.sibling].(sibling := cur.next)];
      if cur.next != 0 {
        node := node[cur.next := node[cur.next].(prev := 0, sibling := cur.sibling)];
      }
      node := node[Z := node[Z].(next := 0, prev := 0, sibling := 0)];
    }

    method RemoveSibling(Z: nat)
      requires Shaped() && Z in rows && Z !in sibs && 0 < Z < |node|
      modifies this`slot, this`node, this`slotCount, this`rows, this`sibs, this`owner
      ensures Shaped() && |node| == old(|node|) && |slot| == old(|slot|) && rows == old(rows) - {Z}
      ensures exists x, j ::
        && x in old(sibs) && 0 <= j < |old(sibs)[x]| && old(sibs)[x][j] == Z
        && sibs == old(sibs)[x := Cut(old(sibs)[x], j)]
    {
      ghost var n := node;
      ghost var x, j := SiblingPosition(Z);
      TopWords(node, rows, sibs, owner, place, hash, bits, x);
      assert ListOf(node, x, sibs[x]) && ListAt(node, x, sibs[x], j);
      if Rid(node[Z].sibling) == 0 {
        CutLater(Z, x, sibs[x], j);
      } else {
        CutFirst(Z, x, sibs[x]);
      }
      DropSibling(Z, n, x, j);
    }

    /** The links of the promotion of the first of the siblings s of the k-th top. */
    method PromoteLinks(Z: nat, ghost sl: nat, ghost c: seq<nat>, ghost k: nat, ghost s: seq<nat>)
      requires k < |c| && c[k] == Z && s != [] && InRange(c, |node|) && InRange(s, |node|) && Z != 0 && s[0] != 0
      requires k + 1 < |c| ==> c[k + 1] != Z && c[k + 1] != 0
      requires k > 0 ==> c[k - 1] != Z && 0 < c[k - 1] < RID_LIMIT && (k + 1 < |c| ==> c[k - 1] != c[k + 1])
      requires forall r :: r in c ==> r != s[0] && (|s| > 1 ==> r != s[1])
      requires node[Z].next == (if k + 1 < |c| then c[k + 1] else 0) &&
        node[Z].prev == (if k == 0 then MSB + sl else c[k - 1])
      requires node[Z].sibling == s[0] && node[s[0]].next == (if |s| > 1 then s[1] else 0) && sl < |slot|
      requires |s| > 1 ==> s[1] != 0 && s[1] != s[0] && node[s[1]].prev == s[0]
      modifies this`slot, this`node
      ensures PromoteWrites(old(node), node, c, k, s) && slot == if k == 0 then old(slot)[sl := s[0]] else old(slot)
    {
      assert c[k] in c && (k + 1 < |c| ==> c[k + 1] in c) && (k > 0 ==> c[k - 1] in c);
      var cur := node[Z];
      PromoteInList(cur.sibling);
      PromoteInChain(Z, cur.sibling);
      node := node[Z := node[Z].(next := 0, prev := 0, sibling := 0)];
    }

    /** The sibling after the first one becomes the first; the first one heads it. */
    method PromoteInList(sib: nat)
      requires sib < |node| && node[sib].next < |node| && node[sib].next != sib
      modifies this`node
      ensures var after := old(node)[sib].next;
        && |node| == old(|node|) && node[sib] == old(node)[sib].(sibling := after)
        && (after != 0 ==> node[after] == old(node)[after].(prev := 0, sibling := old(node)[after].prev))
        && (forall i :: 0 <= i < |node| && i != sib && (after == 0 || i != after) ==> node[i] == old(node)[i])
    {
      var after := node[sib].next;
      if after != 0 {
        node := node[after := node[after].(sibling := node[after].prev)];
        node := node[after := node[after].(prev := 0)];
      }
      node := node[sib := node[sib].(sibling := after)];
    }

    /** A sibling gets the chain words of its top. */
    method PromoteInChain(Z: nat, sib: nat)
      requires Z < |node| && sib < |node| && Z != sib && node[Z].next < |node| && node[Z].next !in {Z, sib}
      requires if Tagged(node[Z].prev) then Rid(node[Z].prev) < |slot|
        else node[Z].prev < |node| && node[Z].prev !in {Z, sib}
      requires node[Z].next != 0 && !Tagged(node[Z].prev) ==> node[Z].next != node[Z].prev
      modifies this`slot, this`node
      ensures var next, prev := old(node)[Z].next, old(node)[Z].prev;
        && |node| == old(|node|) && node[sib] == old(node)[sib].(next := next, prev := prev)
        && (next != 0 ==> node[next] == old(node)[next].(prev := sib))
        && (!Tagged(prev) && prev != 0 ==> node[prev] == old(node)[prev].(next := sib))
        && (forall i ::
              0 <= i < |node| && i != sib && (next == 0 || i != next) && (Tagged(prev) || prev == 0 || i != prev) ==>
              node[i] == old(node)[i])
        && slot == if Tagged(prev) then old(slot)[Rid(prev) := sib] else old(slot)
    {
      var cur := node[Z];
      node := node[sib := node[sib].(next := cur.next)];
      if cur.next != 0 {
        node := node[cur.next := node[cur.next].(prev := sib)];
      }
      node := node[sib := node[sib].(prev := cur.prev)];
      if Tagged(cur.prev) {
        slot := slot[Rid(cur.prev) := sib];
      } else if cur.prev != 0 {
        node := node[cur.prev := node[cur.prev].(next := sib)];
      }
    }

    /** A top with siblings leaves, its first sibling takes its place in the chain. */
    method RemovePromoting(Z: nat)
      requires Shaped() && Z in sibs && sibs[Z] != []
      modifies this`slot, this`node, this`chains, this`place, this`rows, this`sibs, this`owner
      ensures Shaped() && |node| == old(|node|) && |slot| == old(|slot|)
      ensures rows == old(rows) - {Z} && sibs == Promoted(old(sibs), Z)
    {
      ghost var n, slot0 := node, slot;
      ghost var sl, k := TopPosition(Z);
      ghost var c, s := chains[sl], sibs[Z];
      TopWords(node, rows, sibs, owner, place, hash, bits, Z);
      ChainWords(slot, node, chains, place, sl, k);
      assert ListAt(node, Z, s, 0) && s[0] in s;
      assert |s| > 1 ==> ListAt(node, Z, s, 1) && s[1] in s;
      PromoteLinks(Z, sl, c, k, s);
      TopPromoted(n, node, rows, sibs, owner, place, hash, bits, c, k);
      ChainsSwapped(slot0, n, slot, node, chains, place, sl, k, s);
      rows := rows - {Z};
      Settle(chains[sl := Swap(c, k, s[0])], (place - {Z})[s[0] := sl], Promoted(sibs, Z),
        PromotedOwner(owner, Z, s[0]));
    }

    /** How a row goes: a sibling leaves its list, a top hands over to its first sibling or leaves its slot. */
    ghost predicate RemovedFrom(sibs0: Sibs, Z: nat)
      reads this`sibs
    {
      if Z !in sibs0 then
        exists x, j :: x in sibs0 && 0 <= j < |sibs0[x]| && sibs0[x][j] == Z && sibs == sibs0[x := Cut(sibs0[x], j)]
      else if sibs0[Z] != [] then
        sibs == Promoted(sibs0, Z)
      else
        sibs == sibs0 - {Z}
    }

    /** One row fewer; the count of keys drops with a top. */
    method Uncount(top: bool)
      requires Shaped() && rowCount == |rows| + 1 && nodeCount == |sibs| + (if top then 1 else 0)
      modifies this`rowCount, this`nodeCount
      ensures Valid()
    {
      if top {
        nodeCount := nodeCount - 1;
      }
      rowCount := rowCount - 1;
    }

    method RemoveIndexed(Z: nat)
      requires Valid() && 0 < Z < |node| && Z in rows
      modifies this
      ensures Valid() && |node| == old(|node|) && |slot| == old(|slot|) && rows == old(rows) - {Z}
      ensures RemovedFrom(old(sibs), Z)
    {
      Role(Z);
      if Rid(node[Z].sibling) == 0 {
        var top := !Tagged(node[Z].sibling);
        if top {
          RemoveTop(Z);
        } else {
          RemoveSibling(Z);
        }
        Uncount(top);
      } else if node[Z].prev == 0 {
        RemoveSibling(Z);
        Uncount(false);
      } else {
        PromotedCount(rows, sibs, owner, Z);
        RemovePromoting(Z);
        Uncount(false);
      }
    }

    /** Removes row Z. Nothing happens when it is not indexed. */
    method Remove(Z: nat)
      requires Valid() && 0 < Z < |node|
      modifies this
      ensures Valid() && |node| == old(|node|) && |slot| == old(|slot|) && rows == old(rows) - {Z}
      ensures Z !in old(rows) ==> sibs == old(sibs) && node == old(node) && slot == old(slot)
      ensures Z in old(rows) ==> RemovedFrom(old(sibs), Z)
    {
      Role(Z);
      if Wrap(node[Z].next + node[Z].prev + node[Z].sibling) == 0 {
        return;
      }
      RemoveIndexed(Z);
    }

    // ----- querying

    /** Walks a sibling list. */
    method Siblings(sid0: nat, ghost top: nat, ghost s: seq<nat>) returns (rids: seq<nat>)
      requires ListOf(node, top, s) && sid0 == Head(s)
      ensures rids == s
    {
      ghost var j := 0;
      var sid := sid0;
      rids := [];
      assert s != [] ==> ListAt(node, top, s, 0);
      while sid > 0
        invariant 0 <= j <= |s| && sid == (if j < |s| then s[j] else 0) && (j < |s| ==> sid > 0)
        invariant rids == s[..j]
        decreases |s| - j
      {
        assert ListAt(node, top, s, j);
        assert j + 1 < |s| ==> ListAt(node, top, s, j + 1);
        rids := rids + [sid];
        sid := node[sid].next;
        j := j + 1;
      }
    }

    /**
    Visits the rows with key k, each once: the top with that key, then its siblings. The
    word h is the hash of the values of the query; unless it is that of the rows none is found.
    */
    method Query(k: Key, h: Word) returns (rids: seq<nat>)
      requires Valid()
      ensures NoDup(rids) && forall r :: r in rids <==> r in rows && rows[r] == k && h == hash(k)
    {
      MaskKeepsLowBits(h, bits);
      var sl := And(h, |slot| - 1);
      var rid := FindTop(h, k, sl);
      if rid == 0 {
        if h == hash(k) {
          NoRowHas(rows, sibs, owner, k);
        }
        return [];
      }
      RowsOfKey(rid);
      TopWords(node, rows, sibs, owner, place, hash, bits, rid);
      assert ListOf(node, rid, sibs[rid]);
      rids := Siblings(node[rid].sibling, rid, sibs[rid]);
      rids := [rid] + rids;
    }
  }

  /** The three counters are exact: rows, distinct keys, slots in use. */
  lemma CountsExact(ix: HashIndex)
    requires ix.Valid()
    ensures ix.rowCount == |ix.rows|
    ensures ix.nodeCount == |set r | r in ix.rows :: ix.rows[r]|
    ensures ix.slotCount == |set sl | 0 <= sl < |ix.slot| && ix.slot[sl] != 0|
  {
    var tops := ix.sibs.Keys;
    TopsIndexed(ix.rows, ix.sibs, ix.owner);
    forall x, y | x in tops && y in tops && x != y
      ensures ix.rows[x] != ix.rows[y]
    {
      assert KeyApart(ix.rows, x, y);
    }
    DistinctKeys(ix.rows, tops);
    assert (set x | x in tops :: ix.rows[x]) == (set r | r in ix.rows :: ix.rows[r]) by {
      forall r | r in ix.rows
        ensures exists x :: x in tops && ix.rows[x] == ix.rows[r]
      {
        assert RowPlaced(ix.rows, ix.sibs, ix.owner, r);
      }
    }
    forall sl | 0 <= sl < |ix.slot|
      ensures ix.slot[sl] != 0 <==> ix.chains[sl] != []
    {
      SlotWords(ix.slot, ix.node, ix.chains, ix.place, sl);
    }
    assert Used(ix.chains) == set sl | 0 <= sl < |ix.slot| && ix.slot[sl] != 0;
  }
}
