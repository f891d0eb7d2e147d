/**
The duplicate search of a hash index, asked before an update writes a row. It walks the
chain of the key's slot to the first top with the key's hash word and looks no further: at
that top if it has the key, and then at any of its siblings that the connection sees.
*/
module HashDup {
  import opened RowWord
  import opened Keys
  import opened RowGroups
  import opened HashBits
  import opened HashLink
  import opened HashRows
  import opened HashIndex

  /** The first of these tops whose key hashes to h, 0 when none does. */
  ghost function FirstWith(c: seq<nat>, rows: Rows, hash: Key -> Word, h: Word): nat {
    if c == [] then 0
    else if c[0] in rows && hash(rows[c[0]]) == h then c[0]
    else FirstWith(c[1..], rows, hash, h)
  }

  /** The first of these row ids that is visible, 0 when none is. */
  ghost function FirstSeen(s: seq<nat>, visible: set<nat>): nat {
    if s == [] then 0 else if s[0] in visible then s[0] else FirstSeen(s[1..], visible)
  }

  /** What such a search looks at: the chains of tops, the keys of the rows, and the siblings. */
  datatype Shape = Shape(bits: nat, chains: Chains, rows: Rows, sibs: Sibs)

  ghost function ShapeOf(ix: HashIndex): Shape
    reads ix
  {
    Shape(ix.bits, ix.chains, ix.rows, ix.sibs)
  }

  /** The top that a search for key k stops at. */
  ghost function StopIn(s: Shape, hash: Key -> Word, k: Key): nat {
    var sl := LowBits(hash(k), s.bits);
    if sl < |s.chains| then FirstWith(s.chains[sl], s.rows, hash, hash(k)) else 0
  }

  ghost function StopsAt(ix: HashIndex, k: Key): nat
    reads ix
  {
    StopIn(ShapeOf(ix), ix.hash, k)
  }

  /** The row a search for key k answers with, 0 for none. */
  ghost function DuplicateIn(s: Shape, hash: Key -> Word, k: Key, visible: set<nat>): nat {
    var x := StopIn(s, hash, k);
    if x == 0 then 0
    else if x in s.rows && s.rows[x] == k && x in visible then x
    else if x in s.sibs then FirstSeen(s.sibs[x], visible) else 0
  }

  ghost function Duplicate(ix: HashIndex, k: Key, visible: set<nat>): nat
    reads ix
  {
    DuplicateIn(ShapeOf(ix), ix.hash, k, visible)
  }

  method QueryDup(ix: HashIndex, k: Key, visible: set<nat>) returns (rid: nat)
    requires ix.Valid()
    ensures rid == Duplicate(ix, k, visible)
  {
    var h := ix.hash(k);
    MaskKeepsLowBits(h, ix.bits);
    var sl := And(h, |ix.slot| - 1);
    ghost var c, j := ix.chains[sl], 0;
    SlotWords(ix.slot, ix.node, ix.chains, ix.place, sl);
    rid := ix.slot[sl];
    while rid > 0
      invariant 0 <= j <= |c| && rid == (if j < |c| then c[j] else 0) && (j < |c| ==> rid > 0)
      invariant FirstWith(c[j..], ix.rows, ix.hash, h) == FirstWith(c, ix.rows, ix.hash, h)
      decreases |c| - j
    {
      ix.ChainTop(sl, j);
      assert c[j..][0] == c[j] && c[j..][1..] == c[j + 1..];
      if ix.node[rid].hash == h {
        if ix.rows[rid] == k && rid in visible {
          return;
        }
        rid := SeenSibling(ix, rid, visible);
        return;
      }
      rid := ix.node[rid].next;
      j := j + 1;
    }
  }

  method SeenSibling(ix: HashIndex, top: nat, visible: set<nat>) returns (sid: nat)
    requires ix.Shaped() && top in ix.sibs
    ensures sid == FirstSeen(ix.sibs[top], visible)
  {
    ghost var j, s := 0, ix.sibs[top];
    TopWords(ix.node, ix.rows, ix.sibs, ix.owner, ix.place, ix.hash, ix.bits, top);
    assert s != [] ==> ListAt(ix.node, top, s, 0);
    sid := ix.node[top].sibling;
    while sid > 0
      invariant 0 <= j <= |s| && sid == (if j < |s| then s[j] else 0) && (j < |s| ==> sid > 0)
      invariant FirstSeen(s[j..], visible) == FirstSeen(s, visible)
      decreases |s| - j
    {
      assert s[j..][0] == s[j] && s[j..][1..] == s[j + 1..];
      assert ListAt(ix.node, top, s, j);
      assert j + 1 < |s| ==> ListAt(ix.node, top, s, j + 1);
      if sid in visible {
        return;
      }
      sid := ix.node[sid].next;
      j := j + 1;
    }
  }

  // ----- what the answer is worth

  lemma {:induction false} FirstWithIs(c: seq<nat>, rows: Rows, hash: Key -> Word, h: Word)
    requires forall i :: 0 <= i < |c| ==> c[i] > 0
    ensures var x := FirstWith(c, rows, hash, h);
      && (x == 0 <==> forall i :: 0 <= i < |c| ==> !(c[i] in rows && hash(rows[c[i]]) == h))
      && (x != 0 ==> x in c && x in rows && hash(rows[x]) == h)
  {
    if c != [] {
      FirstWithIs(c[1..], rows, hash, h);
      assert c == [c[0]] + c[1..];
      assert forall i :: 0 <= i < |c[1..]| ==> c[1..][i] == c[i + 1];
      assert forall i :: 1 <= i < |c| ==> c[i] == c[1..][i - 1];
    }
  }

  lemma {:induction false} FirstWithAt(c: seq<nat>, rows: Rows, hash: Key -> Word, h: Word) returns (i: nat)
    requires FirstWith(c, rows, hash, h) != 0
    ensures i < |c| && c[i] == FirstWith(c, rows, hash, h) && c[i] in rows && hash(rows[c[i]]) == h
    ensures forall j :: 0 <= j < i ==> !(c[j] in rows && hash(rows[c[j]]) == h)
  {
    i := 0;
    if !(c[0] in rows && hash(rows[c[0]]) == h) {
      i := FirstWithAt(c[1..], rows, hash, h);
      forall j | 0 <= j < i + 1
        ensures !(c[j] in rows && hash(rows[c[j]]) == h)
      {
        assert j > 0 ==> c[j] == c[1..][j - 1];
      }
      i := i + 1;
    }
  }

  lemma {:induction false} FirstSeenAt(s: seq<nat>, visible: set<nat>) returns (i: nat)
    requires FirstSeen(s, visible) != 0
    ensures i < |s| && s[i] == FirstSeen(s, visible) && s[i] in visible && forall j :: 0 <= j < i ==> s[j] !in visible
  {
    i := 0;
    if s[0] !in visible {
      i := FirstSeenAt(s[1..], visible);
      forall j | 0 <= j < i + 1
        ensures s[j] !in visible
      {
        assert j > 0 ==> s[j] == s[1..][j - 1];
      }
      i := i + 1;
    }
  }

  /** The search stops at the first top in the chain of the key's slot that has the key's hash word. */
  lemma StopsFirst(ix: HashIndex, k: Key) returns (sl: nat, i: nat)
    requires ix.Valid() && StopsAt(ix, k) != 0
    ensures sl == ix.hash(k) % |ix.slot| && sl < |ix.chains| && i < |ix.chains[sl]| &&
      ix.chains[sl][i] == StopsAt(ix, k)
    ensures forall j :: 0 <= j < i && ix.chains[sl][j] in ix.rows ==> ix.hash(ix.rows[ix.chains[sl][j]]) != ix.hash(k)
  {
    MaskKeepsLowBits(ix.hash(k), ix.bits);
    sl := LowBits(ix.hash(k), ix.bits);
    i := FirstWithAt(ix.chains[sl], ix.rows, ix.hash, ix.hash(k));
  }

  lemma {:induction false} FirstSeenIs(s: seq<nat>, visible: set<nat>)
    requires forall i :: 0 <= i < |s| ==> s[i] > 0
    ensures var x := FirstSeen(s, visible);
      && (x == 0 <==> forall r :: r in s ==> r !in visible)
      && (x != 0 ==> x in s && x in visible)
  {
    if s != [] {
      FirstSeenIs(s[1..], visible);
      assert s == [s[0]] + s[1..];
    }
  }

  /** The search stops at some top with the key's hash word, and goes through without stopping when there is none. */
  lemma StopIs(ix: HashIndex, k: Key)
    requires ix.Valid()
    ensures var x := StopsAt(ix, k);
      && (x != 0 ==> x in ix.sibs && x in ix.rows && ix.hash(ix.rows[x]) == ix.hash(k))
      && (x == 0 <==> forall r :: r in ix.rows ==> ix.hash(ix.rows[r]) != ix.hash(k))
      && (x != 0 ==> forall i :: 0 <= i < |ix.sibs[x]| ==> ix.sibs[x][i] > 0)
  {
    var h := ix.hash(k);
    MaskKeepsLowBits(h, ix.bits);
    var sl := LowBits(h, ix.bits);
    var c := ix.chains[sl];
    forall j | 0 <= j < |c|
      ensures c[j] > 0 && c[j] in ix.sibs && c[j] in ix.rows
    {
      ix.ChainTop(sl, j);
    }
    FirstWithIs(c, ix.rows, ix.hash, h);
    forall r | r in ix.rows && ix.hash(ix.rows[r]) == h
      ensures exists i :: 0 <= i < |c| && c[i] in ix.rows && ix.hash(ix.rows[c[i]]) == h
    {
      HashInSlot(ix, r);
    }
    var x := StopsAt(ix, k);
    if x != 0 {
      SiblingsIndexed(ix, x);
    }
  }

  /** The top of a row stands in the chain of the slot that the row's key hashes to. */
  lemma HashInSlot(ix: HashIndex, r: nat)
    requires ix.Valid() && r in ix.rows
    ensures var sl := LowBits(ix.hash(ix.rows[r]), ix.bits);
      sl < |ix.chains| && exists i ::
        0 <= i < |ix.chains[sl]| && ix.chains[sl][i] in ix.rows && ix.rows[ix.chains[sl][i]] == ix.rows[r]
  {
    assert RowPlaced(ix.rows, ix.sibs, ix.owner, r);
    var x := ix.owner[r];
    TopWords(ix.node, ix.rows, ix.sibs, ix.owner, ix.place, ix.hash, ix.bits, x);
    assert TopPlaced(ix.chains, ix.place, x) && HashSlots.InSlot(ix.node, ix.place, ix.bits, x);
    var i :| 0 <= i < |ix.chains[ix.place[x]]| && ix.chains[ix.place[x]][i] == x;
  }

  lemma SiblingsIndexed(ix: HashIndex, x: nat)
    requires ix.Valid() && x in ix.sibs
    ensures x in ix.rows && forall i :: 0 <= i < |ix.sibs[x]| ==> ix.sibs[x][i] > 0 && ix.sibs[x][i] in ix.rows
  {
    TopWords(ix.node, ix.rows, ix.sibs, ix.owner, ix.place, ix.hash, ix.bits, x);
  }

  /** Whatever it answers is a row the connection sees whose key has the same hash word. */
  lemma DuplicateHashed(ix: HashIndex, k: Key, visible: set<nat>)
    requires ix.Valid()
    ensures var d := Duplicate(ix, k, visible);
      d != 0 ==>
        d in visible && d in ix.rows && StopsAt(ix, k) in ix.rows && ix.rows[d] == ix.rows[StopsAt(ix, k)]
        && ix.hash(ix.rows[d]) == ix.hash(k)
  {
    StopIs(ix, k);
    var x := StopsAt(ix, k);
    if x != 0 {
      FirstSeenIs(ix.sibs[x], visible);
      ix.RowsOfKey(x);
    }
  }

  /** The search tells whether a key is visible. */
  ghost predicate Right(ix: HashIndex, k: Key, visible: set<nat>)
    reads ix
  {
    Duplicate(ix, k, visible) != 0 <==> KeySeen(ix.rows, k, visible)
  }

  /**
  The search is right, whatever is visible, exactly when it stops at a row with the key or
  does not stop, or else no row has the key and the row it stops at has no siblings.
  */
  lemma RightWhen(ix: HashIndex, k: Key)
    requires ix.Valid()
    ensures var x := StopsAt(ix, k);
      (forall visible :: Right(ix, k, visible)) <==>
        x == 0 || (x in ix.rows && x in ix.sibs
          && (ix.rows[x] == k || (ix.sibs[x] == [] && forall r :: r in ix.rows ==> ix.rows[r] != k)))
  {
    var x := StopsAt(ix, k);
    StopIs(ix, k);
    if x == 0 || ix.rows[x] == k || (ix.sibs[x] == [] && forall r :: r in ix.rows ==> ix.rows[r] != k) {
      forall visible
        ensures Right(ix, k, visible)
      {
        RightHere(ix, k, visible);
      }
    } else if ix.sibs[x] != [] {
      WrongRow(ix, k);
    } else {
      var r :| r in ix.rows && ix.rows[r] == k;
      Missed(ix, k, r);
    }
  }

  lemma RightHere(ix: HashIndex, k: Key, visible: set<nat>)
    requires ix.Valid()
    requires var x := StopsAt(ix, k);
      x != 0 && x in ix.rows && x in ix.sibs && ix.rows[x] != k ==>
      ix.sibs[x] == [] && forall r :: r in ix.rows ==> ix.rows[r] != k
    ensures Right(ix, k, visible)
  {
    var x := StopsAt(ix, k);
    StopIs(ix, k);
    if x != 0 {
      FirstSeenIs(ix.sibs[x], visible);
      ix.RowsOfKey(x);
      if ix.rows[x] == k && KeySeen(ix.rows, k, visible) {
        var r :| r in ix.rows && ix.rows[r] == k && r in visible;
        assert r == x || r in ix.sibs[x];
      }
    }
  }

  /** A sibling of another key is taken for a duplicate. */
  lemma WrongRow(ix: HashIndex, k: Key)
    requires ix.Valid() && StopsAt(ix, k) != 0
    requires var x := StopsAt(ix, k); x in ix.rows && x in ix.sibs && ix.rows[x] != k && ix.sibs[x] != []
    ensures !Right(ix, k, {ix.sibs[StopsAt(ix, k)][0]})
  {
    var x := StopsAt(ix, k);
    SiblingsIndexed(ix, x);
    ix.RowsOfKey(x);
    var s := ix.sibs[x][0];
    assert s in ix.sibs[x];
  }

  /** A row with the key behind a top of another key is overlooked. */
  lemma Missed(ix: HashIndex, k: Key, r: nat)
    requires ix.Valid() && r in ix.rows && ix.rows[r] == k && StopsAt(ix, k) != 0
    requires var x := StopsAt(ix, k); x in ix.rows && x in ix.sibs && ix.rows[x] != k && ix.sibs[x] == []
    ensures !Right(ix, k, {r})
  {
    assert KeySeen(ix.rows, k, {r});
  }

  /** No other key with the same hash word is in the index. */
  ghost predicate NoClash(rows: Rows, hash: Key -> Word, k: Key) {
    forall r :: r in rows && hash(rows[r]) == hash(k) ==> rows[r] == k
  }

  /** Without a clash of hash words the search finds a visible row with the key, or says that there is none. */
  lemma NoClashRight(ix: HashIndex, k: Key, visible: set<nat>)
    requires ix.Valid() && NoClash(ix.rows, ix.hash, k)
    ensures Right(ix, k, visible)
    ensures var d := Duplicate(ix, k, visible); d != 0 ==> d in visible && d in ix.rows && ix.rows[d] == k
  {
    StopIs(ix, k);
    RightHere(ix, k, visible);
    DuplicateHashed(ix, k, visible);
  }

  lemma SomeMember(s: seq<nat>)
    requires s != []
    ensures exists r :: r in s
  {
    assert s[0] in s;
  }

  /** Of two keys with one hash word, on rows that share their keys with no other, one is overlooked. */
  lemma OneOverlooked(ix: HashIndex, a: Key, b: Key, visible: set<nat>)
    requires ix.Valid() && a != b && ix.hash(a) == ix.hash(b)
    requires forall r, s :: r in ix.rows && s in ix.rows && ix.rows[r] == ix.rows[s] ==> r == s
    ensures Duplicate(ix, a, visible) == 0 || Duplicate(ix, b, visible) == 0
  {
    var x := StopsAt(ix, a);
    StopIs(ix, a);
    if x != 0 {
      ix.RowsOfKey(x);
      SiblingsIndexed(ix, x);
      TopWords(ix.node, ix.rows, ix.sibs, ix.owner, ix.place, ix.hash, ix.bits, x);
      if ix.sibs[x] != [] {
        SomeMember(ix.sibs[x]);
        assert false;
      }
    }
  }
}
