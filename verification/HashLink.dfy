/**
How the hash index is stored. Every slot heads a doubly linked chain of tops, one for
every distinct key of the slot; every top heads a doubly linked list of siblings. One
node has three link words, and what they mean depends on the role of its row id.
*/
module HashLink {
  import opened RowWord
  import opened RowGroups

  /** next, prev, sibling and hash_val of one row id. */
  datatype HNode = HNode(next: nat, prev: nat, sibling: nat, hash: nat)

  type HNodes = seq<HNode>
  type Chains = seq<seq<nat>>

  // ----- chains of tops

  /** The k-th top of the chain: its neighbours, or the tagged slot number before the first. */
  ghost predicate ChainAt(n: HNodes, sl: nat, c: seq<nat>, k: nat)
    requires k < |c|
  {
    && 0 < c[k] < |n| && n[c[k]].next == (if k + 1 < |c| then c[k + 1] else 0)
    && n[c[k]].prev == if k == 0 then MSB + sl else c[k - 1]
  }

  ghost predicate ChainLinked(n: HNodes, sl: nat, c: seq<nat>) {
    forall k :: 0 <= k < |c| ==> ChainAt(n, sl, c, k)
  }

  ghost predicate SlotLinked(slot: seq<nat>, n: HNodes, chains: Chains, sl: nat) {
    sl < |slot| && sl < |chains| && slot[sl] == Head(chains[sl]) && ChainLinked(n, sl, chains[sl])
  }

  ghost predicate SlotsLinked(slot: seq<nat>, n: HNodes, chains: Chains) {
    |slot| == |chains| &&
    forall sl {:trigger SlotLinked(slot, n, chains, sl)} :: 0 <= sl < |chains| ==> SlotLinked(slot, n, chains, sl)
  }

  ghost predicate ChainPlaced(c: seq<nat>, place: map<nat, nat>, sl: nat) {
    NoDup(c) && forall k :: 0 <= k < |c| ==> c[k] in place && place[c[k]] == sl && 0 < c[k] < RID_LIMIT
  }

  ghost predicate TopPlaced(chains: Chains, place: map<nat, nat>, x: nat) {
    x in place && place[x] < |chains| && x in chains[place[x]]
  }

  /** Every top is in exactly one chain, at exactly one position; `place` names its slot. */
  ghost predicate ChainsPlaced(chains: Chains, place: map<nat, nat>) {
    && (forall sl {:trigger ChainPlaced(chains[sl], place, sl)} :: 0 <= sl < |chains| ==>
      ChainPlaced(chains[sl], place, sl))
    && (forall x {:trigger TopPlaced(chains, place, x)} :: x in place ==> TopPlaced(chains, place, x))
  }

  /** The slots in use. */
  ghost function Used(chains: Chains): set<nat> {
    set sl | 0 <= sl < |chains| && chains[sl] != []
  }

  lemma UsedUpdate(chains: Chains, sl: nat, c: seq<nat>)
    requires sl < |chains|
    ensures |Used(chains[sl := c])| ==
      |Used(chains)| - (if chains[sl] == [] then 0 else 1) + (if c == [] then 0 else 1)
  {
    var u, u' := Used(chains), Used(chains[sl := c]);
    var v := u - {sl};
    assert v == u' - {sl};
    assert chains[sl] != [] ==> u == v + {sl};
    assert chains[sl] == [] ==> u == v;
    assert c != [] ==> u' == v + {sl};
    assert c == [] ==> u' == v;
  }

  /** Only next and prev words of tops changed. */
  ghost predicate ChainsOnly(n: HNodes, n': HNodes, tops: set<nat>) {
    |n'| == |n| && forall i :: 0 <= i < |n| ==>
      n'[i].sibling == n[i].sibling && n'[i].hash == n[i].hash && (i !in tops ==> n'[i] == n[i])
  }

  lemma ChainMember(chains: Chains, place: map<nat, nat>, sl: nat, k: nat)
    requires ChainsPlaced(chains, place) && sl < |chains| && k < |chains[sl]|
    ensures var x := chains[sl][k]; x in place && place[x] == sl && 0 < x < RID_LIMIT && NoDup(chains[sl])
  {
    assert ChainPlaced(chains[sl], place, sl);
  }

  /** Writes outside a chain leave it linked. */
  lemma OtherSlot(slot: seq<nat>, n: HNodes, slot': seq<nat>, n': HNodes, chains: Chains, chains': Chains,
        place: map<nat, nat>, sl: nat, other: nat)
    requires SlotsLinked(slot, n, chains) && ChainsPlaced(chains, place) && other < |chains| && other != sl
    requires |n'| == |n| && |slot'| == |slot| && |chains'| == |chains| && slot'[other] == slot[other] &&
      chains'[other] == chains[other]
    requires forall i :: 0 <= i < |n| && i in place && place[i] != sl ==> n'[i] == n[i]
    ensures SlotLinked(slot', n', chains', other)
  {
    assert SlotLinked(slot, n, chains, other) && ChainPlaced(chains[other], place, other);
    forall k | 0 <= k < |chains[other]|
      ensures ChainAt(n', other, chains'[other], k)
    {
      assert ChainAt(n, other, chains[other], k);
    }
  }

  // ----- taking a top out of its chain

  ghost predicate CutChainWrites(n: HNodes, n': HNodes, c: seq<nat>, k: nat)
    requires k < |c|
  {
    && |n'| == |n| && InRange(c, |n|)
    && (k + 1 < |c| ==> n'[c[k + 1]] == n[c[k + 1]].(prev := n[c[k]].prev))
    && (k > 0 ==> n'[c[k - 1]] == n[c[k - 1]].(next := n[c[k]].next))
    && (forall i :: 0 <= i < |n| && (k + 1 < |c| ==> i != c[k + 1]) && (k > 0 ==> i != c[k - 1]) ==> n'[i] == n[i])
  }

  lemma ChainCut(n: HNodes, n': HNodes, sl: nat, c: seq<nat>, k: nat)
    requires ChainLinked(n, sl, c) && NoDup(c) && k < |c| && CutChainWrites(n, n', c, k)
    ensures ChainLinked(n', sl, Cut(c, k))
  {
    var c' := Cut(c, k);
    assert ChainAt(n, sl, c, k);
    forall i | 0 <= i < |c'|
      ensures ChainAt(n', sl, c', i)
    {
      var j := if i < k then i else i + 1;
      assert c'[i] == c[j] && ChainAt(n, sl, c, j);
      assert i > 0 ==> c'[i - 1] == c[if i - 1 < k then i - 1 else i];
      assert i + 1 < |c'| ==> c'[i + 1] == c[if i + 1 < k then i + 1 else i + 2];
    }
  }

  lemma CutMember(c: seq<nat>, k: nat, y: nat)
    requires NoDup(c) && k < |c|
    ensures y in Cut(c, k) <==> y in c && y != c[k]
    ensures NoDup(Cut(c, k))
  {
    var c' := Cut(c, k);
    assert forall i :: 0 <= i < |c'| ==> c'[i] == c[if i < k then i else i + 1];
    if y in c && y != c[k] {
      var i :| 0 <= i < |c| && c[i] == y;
      assert c'[if i < k then i else i - 1] == y;
    }
  }

  lemma CutChainPlaced(chains: Chains, place: map<nat, nat>, sl: nat, k: nat)
    requires ChainsPlaced(chains, place) && sl < |chains| && k < |chains[sl]|
    ensures ChainsPlaced(chains[sl := Cut(chains[sl], k)], place - {chains[sl][k]})
  {
    var c := chains[sl];
    var x := c[k];
    var chains', place' := chains[sl := Cut(c, k)], place - {x};
    assert ChainPlaced(c, place, sl);
    forall s | 0 <= s < |chains'|
      ensures ChainPlaced(chains'[s], place', s)
    {
      assert ChainPlaced(chains[s], place, s);
      CutMember(c, k, x);
      forall i | 0 <= i < |chains'[s]|
        ensures var y := chains'[s][i]; y in place' && place'[y] == s && 0 < y < RID_LIMIT
      {
        var y := chains'[s][i];
        assert y in chains'[s];
        CutMember(c, k, y);
        assert y in chains[s];
      }
    }
    forall y | y in place'
      ensures TopPlaced(chains', place', y)
    {
      assert TopPlaced(chains, place, y);
      CutMember(c, k, y);
    }
  }

  // ----- putting a top at the head of a chain

  ghost predicate PushWrites(n: HNodes, n': HNodes, sl: nat, c: seq<nat>, x: nat) {
    && |n'| == |n| && x < |n| && InRange(c, |n|)
    && n'[x] == n[x].(next := Head(c), prev := MSB + sl)
    && (c != [] ==> n'[c[0]] == n[c[0]].(prev := x))
    && (forall i :: 0 <= i < |n| && i != x && (c != [] ==> i != c[0]) ==> n'[i] == n[i])
  }

  lemma ChainPushed(n: HNodes, n': HNodes, sl: nat, c: seq<nat>, x: nat)
    requires ChainLinked(n, sl, c) && NoDup(c) && x !in c && x > 0 && PushWrites(n, n', sl, c, x)
    ensures ChainLinked(n', sl, [x] + c)
  {
    var c' := [x] + c;
    forall i | 0 <= i < |c'|
      ensures ChainAt(n', sl, c', i)
    {
      if i > 0 {
        assert c'[i] == c[i - 1] && ChainAt(n, sl, c, i - 1);
        assert i > 1 ==> c[i - 1] != c[0];
      }
    }
  }

  lemma PushPlaced(chains: Chains, place: map<nat, nat>, sl: nat, x: nat)
    requires ChainsPlaced(chains, place) && sl < |chains| && x !in place && 0 < x < RID_LIMIT
    ensures ChainsPlaced(chains[sl := [x] + chains[sl]], place[x := sl])
    ensures x !in chains[sl] && NoDup(chains[sl])
  {
    var c := chains[sl];
    var c' := [x] + c;
    var chains', place' := chains[sl := c'], place[x := sl];
    assert ChainPlaced(c, place, sl);
    assert forall i :: 0 <= i < |c'| ==> c'[i] == if i == 0 then x else c[i - 1];
    forall s | 0 <= s < |chains'|
      ensures ChainPlaced(chains'[s], place', s)
    {
      assert ChainPlaced(chains[s], place, s);
    }
    forall y | y in place'
      ensures TopPlaced(chains', place', y)
    {
      if y == x {
        assert c'[0] == x;
      } else {
        assert TopPlaced(chains, place, y);
        assert place[y] == sl && y in c ==> y in c';
      }
    }
  }

  // ----- sibling lists

  ghost predicate ListAt(n: HNodes, x: nat, s: seq<nat>, i: nat)
    requires i < |s|
  {
    && 0 < s[i] < |n| && n[s[i]].next == (if i + 1 < |s| then s[i + 1] else 0)
    && n[s[i]].prev == (if i == 0 then 0 else s[i - 1])
    && n[s[i]].sibling == if i == 0 then x else MSB
  }

  ghost predicate ListOf(n: HNodes, x: nat, s: seq<nat>) {
    x < |n| && n[x].sibling == Head(s) && forall i :: 0 <= i < |s| ==> ListAt(n, x, s, i)
  }

  ghost predicate ListsOf(n: HNodes, sibs: Sibs) {
    forall x {:trigger ListOf(n, x, sibs[x])} :: x in sibs ==> ListOf(n, x, sibs[x])
  }

  /** Chain writes leave the sibling lists alone. */
  lemma ListsKept(n: HNodes, n': HNodes, rows: Rows, sibs: Sibs, owner: map<nat, nat>, tops: set<nat>)
    requires ListsOf(n, sibs) && Placed(rows, sibs, owner) && ChainsOnly(n, n', tops)
    requires forall r :: r in tops && r in rows ==> r in sibs
    ensures ListsOf(n', sibs)
  {
    forall x | x in sibs
      ensures ListOf(n', x, sibs[x])
    {
      assert ListOf(n, x, sibs[x]) && ListPlaced(rows, owner, x, sibs[x]);
      forall i | 0 <= i < |sibs[x]|
        ensures ListAt(n', x, sibs[x], i)
      {
        assert ListAt(n, x, sibs[x], i);
        SiblingNotTop(rows, sibs, owner, x, i);
      }
    }
  }

  // ----- both together

  /** The words of the k-th top and where they lead. */
  lemma ChainWords(slot: seq<nat>, n: HNodes, chains: Chains, place: map<nat, nat>, sl: nat, k: nat)
    requires SlotsLinked(slot, n, chains) && ChainsPlaced(chains, place) && sl < |chains| && k < |chains[sl]|
    ensures var c := chains[sl]; var x := c[k];
      && 0 < x < |n| && x in place && InRange(c, |n|) && NoDup(c)
      && n[x].next == (if k + 1 < |c| then c[k + 1] else 0) && n[x].prev == (if k == 0 then MSB + sl else c[k - 1])
      && (k + 1 < |c| ==> 0 < c[k + 1] < |n| && c[k + 1] in place && c[k + 1] != x)
      && (k > 0 ==> 0 < c[k - 1] < |n| && c[k - 1] in place && c[k - 1] != x && c[k - 1] < RID_LIMIT)
      && (0 < k && k + 1 < |c| ==> c[k - 1] != c[k + 1])
      && slot[sl] == c[0] && |slot| == |chains|
    ensures sl in Used(chains)
  {
    var c := chains[sl];
    assert SlotLinked(slot, n, chains, sl) && ChainPlaced(c, place, sl);
    assert ChainAt(n, sl, c, k);
    forall i | 0 <= i < |c|
      ensures 0 < c[i] < |n|
    {
      assert ChainAt(n, sl, c, i);
    }
  }

  /** A slot head and the first top it names. */
  lemma SlotWords(slot: seq<nat>, n: HNodes, chains: Chains, place: map<nat, nat>, sl: nat)
    requires SlotsLinked(slot, n, chains) && ChainsPlaced(chains, place) && sl < |chains|
    ensures sl < |slot| && slot[sl] == Head(chains[sl]) && InRange(chains[sl], |n|)
    ensures chains[sl] != [] ==> 0 < chains[sl][0] < |n| && chains[sl][0] in place
    ensures slot[sl] == 0 <==> chains[sl] == []
  {
    assert SlotLinked(slot, n, chains, sl) && ChainPlaced(chains[sl], place, sl);
    forall i | 0 <= i < |chains[sl]|
      ensures 0 < chains[sl][i] < |n|
    {
      assert ChainAt(n, sl, chains[sl], i);
    }
  }

  lemma ChainsCut(slot: seq<nat>, n: HNodes, slot': seq<nat>, n': HNodes, chains: Chains, place: map<nat, nat>,
        sl: nat, k: nat)
    requires SlotsLinked(slot, n, chains) && ChainsPlaced(chains, place) && sl < |chains| && k < |chains[sl]|
    requires CutChainWrites(n, n', chains[sl], k)
    requires slot' == if k == 0 then slot[sl := Head(chains[sl][1..])] else slot
    ensures var chains' := chains[sl := Cut(chains[sl], k)];
      && SlotsLinked(slot', n', chains') && ChainsPlaced(chains', place - {chains[sl][k]})
      && |Used(chains')| == |Used(chains)| - (if |chains[sl]| == 1 then 1 else 0)
    ensures ChainsOnly(n, n', place.Keys) && n'[chains[sl][k]] == n[chains[sl][k]]
  {
    var c := chains[sl];
    var chains' := chains[sl := Cut(c, k)];
    ChainWords(slot, n, chains, place, sl, k);
    CutChainPlaced(chains, place, sl, k);
    UsedUpdate(chains, sl, Cut(c, k));
    assert ChainPlaced(c, place, sl);
    assert SlotLinked(slot, n, chains, sl);
    ChainCut(n, n', sl, c, k);
    assert Head(Cut(c, k)) == if k == 0 then Head(c[1..]) else c[0];
    forall other | 0 <= other < |chains'|
      ensures SlotLinked(slot', n', chains', other)
    {
      if other != sl {
        OtherSlot(slot, n, slot', n', chains, chains', place, sl, other);
      }
    }
  }

  lemma ChainsPushed(slot: seq<nat>, n: HNodes, slot': seq<nat>, n': HNodes, chains: Chains, place: map<nat, nat>,
        sl: nat, x: nat)
    requires SlotsLinked(slot, n, chains) && ChainsPlaced(chains, place) && sl < |chains|
    requires x !in place && 0 < x < RID_LIMIT && PushWrites(n, n', sl, chains[sl], x)
    requires slot' == slot[sl := x]
    ensures var chains' := chains[sl := [x] + chains[sl]];
      && SlotsLinked(slot', n', chains') && ChainsPlaced(chains', place[x := sl])
      && |Used(chains')| == |Used(chains)| + (if chains[sl] == [] then 1 else 0)
    ensures ChainsOnly(n, n', place.Keys + {x})
  {
    var c := chains[sl];
    var chains' := chains[sl := [x] + c];
    PushPlaced(chains, place, sl, x);
    UsedUpdate(chains, sl, [x] + c);
    assert ChainPlaced(c, place, sl);
    assert SlotLinked(slot, n, chains, sl);
    ChainPushed(n, n', sl, c, x);
    forall other | 0 <= other < |chains'|
      ensures SlotLinked(slot', n', chains', other)
    {
      if other != sl {
        OtherSlot(slot, n, slot', n', chains, chains', place, sl, other);
      }
    }
  }

  // ----- taking a sibling out of its list

  ghost predicate CutListWrites(n: HNodes, n': HNodes, x: nat, s: seq<nat>, j: nat)
    requires j < |s|
  {
    && |n'| == |n| && x < |n| && InRange(s, |n|)
    && (j == 0 ==> n'[x] == n[x].(sibling := Head(s[1..])))
    && (j == 0 && |s| > 1 ==> n'[s[1]] == n[s[1]].(prev := 0, sibling := x))
    && (j > 0 ==> n'[s[j - 1]] == n[s[j - 1]].(next := n[s[j]].next))
    && (j > 0 && j + 1 < |s| ==> n'[s[j + 1]] == n[s[j + 1]].(prev := s[j - 1]))
    && n'[s[j]] == n[s[j]].(next := 0, prev := 0, sibling := 0)
    && (forall i ::
          0 <= i < |n| && i != s[j] && (j == 0 ==> i != x) && (j + 1 < |s| ==> i != s[j + 1])
          && (j > 0 ==> i != s[j - 1]) ==>
          n'[i] == n[i])
  }

  lemma ListCut(n: HNodes, n': HNodes, x: nat, s: seq<nat>, j: nat)
    requires ListOf(n, x, s) && NoDup(s) && x !in s && j < |s| && CutListWrites(n, n', x, s, j)
    ensures ListOf(n', x, Cut(s, j))
  {
    var s' := Cut(s, j);
    assert ListAt(n, x, s, j);
    assert j == 0 ==> s' == s[1..];
    forall i | 0 <= i < |s'|
      ensures ListAt(n', x, s', i)
    {
      var i0 := if i < j then i else i + 1;
      assert s'[i] == s[i0] && ListAt(n, x, s, i0) && s[i0] in s;
      assert i > 0 ==> s'[i - 1] == s[if i - 1 < j then i - 1 else i];
      assert i + 1 < |s'| ==> s'[i + 1] == s[if i + 1 < j then i + 1 else i + 2];
    }
  }

  /** A list stays when its owner's words and its row ids' words stay. */
  lemma OtherList(n: HNodes, n': HNodes, rows: Rows, sibs: Sibs, owner: map<nat, nat>, x: nat, y: nat)
    requires ListsOf(n, sibs) && Placed(rows, sibs, owner) && x in sibs && y in sibs && y != x && |n'| == |n|
    requires forall i :: 0 <= i < |n| && i in rows && i in owner && owner[i] != x ==>
      n'[i].sibling == n[i].sibling && (i !in sibs ==> n'[i] == n[i])
    ensures ListOf(n', y, sibs[y])
  {
    assert ListOf(n, y, sibs[y]) && ListPlaced(rows, owner, y, sibs[y]);
    forall i | 0 <= i < |sibs[y]|
      ensures ListAt(n', y, sibs[y], i)
    {
      assert ListAt(n, y, sibs[y], i);
      SiblingNotTop(rows, sibs, owner, y, i);
    }
  }

  lemma ListsCut(n: HNodes, n': HNodes, rows: Rows, sibs: Sibs, owner: map<nat, nat>, x: nat, j: nat)
    requires ListsOf(n, sibs) && Placed(rows, sibs, owner) && x in sibs && j < |sibs[x]|
    requires CutListWrites(n, n', x, sibs[x], j)
    ensures ListsOf(n', sibs[x := Cut(sibs[x], j)])
  {
    var s := sibs[x];
    assert ListOf(n, x, s) && ListPlaced(rows, owner, x, s);
    ListCut(n, n', x, s, j);
    forall y | y in sibs && y != x
      ensures ListOf(n', y, sibs[y])
    {
      OtherList(n, n', rows, sibs, owner, x, y);
    }
  }

  // ----- a new first sibling

  ghost predicate PushListWrites(n: HNodes, n': HNodes, x: nat, s: seq<nat>, Z: nat) {
    && |n'| == |n| && x < |n| && Z < |n| && InRange(s, |n|)
    && n'[x] == n[x].(sibling := Z)
    && n'[Z].next == Head(s) && n'[Z].prev == 0 && n'[Z].sibling == x
    && (s != [] ==> n'[s[0]] == n[s[0]].(prev := Z, sibling := MSB))
    && (forall i :: 0 <= i < |n| && i != x && i != Z && (s != [] ==> i != s[0]) ==> n'[i] == n[i])
  }

  lemma ListPushed(n: HNodes, n': HNodes, x: nat, s: seq<nat>, Z: nat)
    requires ListOf(n, x, s) && NoDup(s) && x !in s && Z !in s && Z != x && 0 < Z && PushListWrites(n, n', x, s, Z)
    ensures ListOf(n', x, [Z] + s)
  {
    var s' := [Z] + s;
    forall i | 0 <= i < |s'|
      ensures ListAt(n', x, s', i)
    {
      if i > 0 {
        assert s'[i] == s[i - 1] && ListAt(n, x, s, i - 1) && s[i - 1] in s;
        assert i > 1 ==> s[i - 1] != s[0];
      }
    }
  }

  lemma ListsPushed(n: HNodes, n': HNodes, rows: Rows, sibs: Sibs, owner: map<nat, nat>, x: nat, Z: nat)
    requires ListsOf(n, sibs) && Placed(rows, sibs, owner) && x in sibs && Z !in rows && 0 < Z
    requires PushListWrites(n, n', x, sibs[x], Z)
    ensures ListsOf(n', sibs[x := [Z] + sibs[x]])
  {
    var s := sibs[x];
    assert ListOf(n, x, s) && ListPlaced(rows, owner, x, s);
    ListPushed(n, n', x, s, Z);
    forall y | y in sibs && y != x
      ensures ListOf(n', y, sibs[y])
    {
      OtherList(n, n', rows, sibs, owner, x, y);
    }
  }

  /** List writes that keep next and prev of tops leave the chains alone. */
  lemma ChainsKept(slot: seq<nat>, n: HNodes, n': HNodes, chains: Chains, place: map<nat, nat>)
    requires SlotsLinked(slot, n, chains) && ChainsPlaced(chains, place) && |n'| == |n|
    requires forall i :: 0 <= i < |n| && i in place ==> n'[i].next == n[i].next && n'[i].prev == n[i].prev
    ensures SlotsLinked(slot, n', chains)
  {
    forall sl | 0 <= sl < |chains|
      ensures SlotLinked(slot, n', chains, sl)
    {
      assert SlotLinked(slot, n, chains, sl) && ChainPlaced(chains[sl], place, sl);
      forall k | 0 <= k < |chains[sl]|
        ensures ChainAt(n', sl, chains[sl], k)
      {
        assert ChainAt(n, sl, chains[sl], k);
      }
    }
  }

  // ----- the first sibling becomes the top

  /** The chain with its k-th top replaced. */
  function Swap(c: seq<nat>, k: nat, S: nat): seq<nat>
    requires k < |c|
  {
    c[k := S]
  }

  ghost predicate PromoteWrites(n: HNodes, n': HNodes, c: seq<nat>, k: nat, s: seq<nat>)
    requires k < |c| && s != []
  {
    var Z, S := c[k], s[0];
    && |n'| == |n| && InRange(c, |n|) && InRange(s, |n|)
    && n'[S] == n[S].(next := n[Z].next, prev := n[Z].prev, sibling := Head(s[1..]))
    && (|s| > 1 ==> n'[s[1]] == n[s[1]].(prev := 0, sibling := S))
    && (k + 1 < |c| ==> n'[c[k + 1]] == n[c[k + 1]].(prev := S))
    && (k > 0 ==> n'[c[k - 1]] == n[c[k - 1]].(next := S))
    && n'[Z] == n[Z].(next := 0, prev := 0, sibling := 0)
    && (forall i ::
          0 <= i < |n| && i != Z && i != S && (|s| > 1 ==> i != s[1]) && (k + 1 < |c| ==> i != c[k + 1])
          && (k > 0 ==> i != c[k - 1]) ==>
          n'[i] == n[i])
  }

  lemma ChainSwapped(n: HNodes, n': HNodes, sl: nat, c: seq<nat>, k: nat, s: seq<nat>)
    requires ChainLinked(n, sl, c) && NoDup(c) && k < |c| && s != [] && 0 < s[0] && PromoteWrites(n, n', c, k, s)
    requires forall r :: r in s ==> r !in c
    ensures ChainLinked(n', sl, Swap(c, k, s[0]))
  {
    var c' := Swap(c, k, s[0]);
    assert ChainAt(n, sl, c, k) && s[0] in s && (|s| > 1 ==> s[1] in s);
    forall i | 0 <= i < |c'|
      ensures ChainAt(n', sl, c', i)
    {
      assert ChainAt(n, sl, c, i) && c[i] in c;
    }
  }

  lemma SwapPlaced(chains: Chains, place: map<nat, nat>, sl: nat, k: nat, S: nat)
    requires ChainsPlaced(chains, place) && sl < |chains| && k < |chains[sl]| && S !in place && 0 < S < RID_LIMIT
    ensures ChainsPlaced(chains[sl := Swap(chains[sl], k, S)], (place - {chains[sl][k]})[S := sl])
  {
    var c := chains[sl];
    var c' := Swap(c, k, S);
    var chains', place' := chains[sl := c'], (place - {c[k]})[S := sl];
    assert ChainPlaced(c, place, sl);
    forall s | 0 <= s < |chains'|
      ensures ChainPlaced(chains'[s], place', s)
    {
      assert ChainPlaced(chains[s], place, s);
    }
    forall y | y in place'
      ensures TopPlaced(chains', place', y)
    {
      if y == S {
        assert c'[k] == S;
      } else {
        assert TopPlaced(chains, place, y);
        if place[y] == sl {
          var i :| 0 <= i < |c| && c[i] == y;
          assert c'[i] == y;
        }
      }
    }
  }

  lemma ChainsSwapped(slot: seq<nat>, n: HNodes, slot': seq<nat>, n': HNodes, chains: Chains, place: map<nat, nat>,
        sl: nat, k: nat, s: seq<nat>)
    requires SlotsLinked(slot, n, chains) && ChainsPlaced(chains, place) && sl < |chains| && k < |chains[sl]|
    requires s != [] && 0 < s[0] < RID_LIMIT && (forall r :: r in s ==> r !in place)
    requires PromoteWrites(n, n', chains[sl], k, s)
    requires slot' == if k == 0 then slot[sl := s[0]] else slot
    ensures var chains' := chains[sl := Swap(chains[sl], k, s[0])];
      && SlotsLinked(slot', n', chains') && ChainsPlaced(chains', (place - {chains[sl][k]})[s[0] := sl])
      && |Used(chains')| == |Used(chains)|
  {
    var c := chains[sl];
    var chains' := chains[sl := Swap(c, k, s[0])];
    ChainWords(slot, n, chains, place, sl, k);
    SwapPlaced(chains, place, sl, k, s[0]);
    UsedUpdate(chains, sl, Swap(c, k, s[0]));
    assert ChainPlaced(c, place, sl) && s[0] in s && (|s| > 1 ==> s[1] in s);
    assert SlotLinked(slot, n, chains, sl);
    ChainSwapped(n, n', sl, c, k, s);
    forall other | 0 <= other < |chains'|
      ensures SlotLinked(slot', n', chains', other)
    {
      if other != sl {
        OtherSlot(slot, n, slot', n', chains, chains', place, sl, other);
      }
    }
  }

  lemma ListsPromoted(n: HNodes, n': HNodes, rows: Rows, sibs: Sibs, owner: map<nat, nat>, c: seq<nat>, k: nat)
    requires ListsOf(n, sibs) && Placed(rows, sibs, owner) && k < |c| && c[k] in sibs && sibs[c[k]] != []
    requires NoDup(c) && (forall i :: 0 <= i < |c| ==> c[i] in sibs) && PromoteWrites(n, n', c, k, sibs[c[k]])
    ensures ListsOf(n', Promoted(sibs, c[k]))
  {
    var Z := c[k];
    var s := sibs[Z];
    assert ListOf(n, Z, s) && ListPlaced(rows, owner, Z, s);
    var s' := s[1..];
    assert ListAt(n, Z, s, 0);
    forall i | 0 <= i < |s'|
      ensures ListAt(n', s[0], s', i)
    {
      assert s'[i] == s[i + 1] && ListAt(n, Z, s, i + 1);
      SiblingNotTop(rows, sibs, owner, Z, i + 1);
    }
    SiblingNotTop(rows, sibs, owner, Z, 0);
    forall y | y in sibs && y != Z
      ensures ListOf(n', y, sibs[y])
    {
      PromoteOthers(n, n', rows, sibs, owner, c, k);
      OtherList(n, n', rows, sibs, owner, Z, y);
    }
  }

  lemma PromoteOthers(n: HNodes, n': HNodes, rows: Rows, sibs: Sibs, owner: map<nat, nat>, c: seq<nat>, k: nat)
    requires Placed(rows, sibs, owner) && k < |c| && c[k] in sibs && sibs[c[k]] != []
    requires (forall i :: 0 <= i < |c| ==> c[i] in sibs) && PromoteWrites(n, n', c, k, sibs[c[k]])
    ensures forall i :: 0 <= i < |n| && i in rows && i in owner && owner[i] != c[k] ==>
      n'[i].sibling == n[i].sibling && (i !in sibs ==> n'[i] == n[i])
  {
    assert ListPlaced(rows, owner, c[k], sibs[c[k]]);
  }
}
