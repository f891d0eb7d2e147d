/**
Which slot a top stands in, and how that changes while the slots double.
*/
module HashSlots {
  import opened RowWord
  import opened HashBits
  import opened HashLink

  /** A top stands in the slot of its hash word's low bits. */
  ghost predicate InSlot(n: HNodes, place: map<nat, nat>, bits: nat, x: nat) {
    x in place && x < |n| && place[x] == LowBits(n[x].hash, bits)
  }

  ghost predicate InSlots(n: HNodes, place: map<nat, nat>, bits: nat) {
    forall x {:trigger InSlot(n, place, bits, x)} :: x in place ==> InSlot(n, place, bits, x)
  }

  // ----- moving tops between slots

  /** Tops of the slots below `s` have moved, the others stand where one bit less puts them. */
  ghost predicate MovedBelow(n: HNodes, place: map<nat, nat>, bits: nat, s: nat, x: nat) {
    && x in place && x < |n|
    && place[x] == if LowBits(n[x].hash, bits) < s then LowBits(n[x].hash, bits + 1) else LowBits(n[x].hash, bits)
  }

  /** The same, with the tops of slot `s` on the move. */
  ghost predicate Moving(n: HNodes, place: map<nat, nat>, bits: nat, s: nat, x: nat) {
    && x in place && x < |n|
    && var lo := LowBits(n[x].hash, bits);
      && (lo < s ==> place[x] == LowBits(n[x].hash, bits + 1))
      && (lo > s ==> place[x] == lo)
      && (lo == s ==> place[x] == s || place[x] == LowBits(n[x].hash, bits + 1))
  }

  ghost predicate AllMovedBelow(n: HNodes, place: map<nat, nat>, bits: nat, s: nat) {
    forall x {:trigger MovedBelow(n, place, bits, s, x)} :: x in place ==> MovedBelow(n, place, bits, s, x)
  }

  ghost predicate AllMoving(n: HNodes, place: map<nat, nat>, bits: nat, s: nat) {
    forall x {:trigger Moving(n, place, bits, s, x)} :: x in place ==> Moving(n, place, bits, s, x)
  }

  /** The first k tops of the slot belong there. */
  ghost predicate Settled(n: HNodes, c: seq<nat>, bits: nat, s: nat, k: nat) {
    k <= |c| && forall i :: 0 <= i < k ==> c[i] < |n| && LowBits(n[c[i]].hash, bits + 1) == s
  }

  lemma StartSlot(n: HNodes, place: map<nat, nat>, bits: nat, s: nat)
    requires AllMovedBelow(n, place, bits, s)
    ensures AllMoving(n, place, bits, s)
  {
    forall x | x in place
      ensures Moving(n, place, bits, s, x)
    {
      assert MovedBelow(n, place, bits, s, x);
    }
  }

  lemma EndSlot(n: HNodes, chains: Chains, place: map<nat, nat>, bits: nat, s: nat)
    requires AllMoving(n, place, bits, s) && ChainsPlaced(chains, place) && s < |chains|
    requires Settled(n, chains[s], bits, s, |chains[s]|)
    ensures AllMovedBelow(n, place, bits, s + 1)
  {
    forall x | x in place
      ensures MovedBelow(n, place, bits, s + 1, x)
    {
      assert Moving(n, place, bits, s, x) && TopPlaced(chains, place, x);
      if place[x] == s {
        var i :| 0 <= i < |chains[s]| && chains[s][i] == x;
      }
    }
  }

  /** A top found in the slot being walked goes to that slot or up by the old slot count. */
  lemma WhereTo(n: HNodes, chains: Chains, place: map<nat, nat>, bits: nat, s: nat, k: nat)
    requires AllMoving(n, place, bits, s) && ChainsPlaced(chains, place) && s < Pow2(bits) && s < |chains| &&
      k < |chains[s]|
    ensures var x := chains[s][k];
      x < |n| && LowBits(n[x].hash, bits) == s && LowBits(n[x].hash, bits + 1) in {s, s + Pow2(bits)}
  {
    var x := chains[s][k];
    ChainMember(chains, place, s, k);
    assert Moving(n, place, bits, s, x);
    OneBitMore(n[x].hash, bits);
  }

  /** The mask sends a top to the slot its hash word's low bits name. */
  lemma WhereNow(n: HNodes, chains: Chains, place: map<nat, nat>, bits: nat, s: nat, k: nat, newSlot: nat)
    requires AllMoving(n, place, bits, s) && ChainsPlaced(chains, place) && s < Pow2(bits) && s < |chains| &&
      k < |chains[s]|
    requires Settled(n, chains[s], bits, s, k) && chains[s][k] < |n|
    requires Pow2(bits + 1) > 0 && newSlot == And(n[chains[s][k]].hash, Pow2(bits + 1) - 1)
    ensures newSlot < Pow2(bits + 1) && newSlot == LowBits(n[chains[s][k]].hash, bits + 1)
    ensures LowBits(n[chains[s][k]].hash, bits) == s
    ensures newSlot == s ==> Settled(n, chains[s], bits, s, k + 1)
  {
    WhereTo(n, chains, place, bits, s, k);
    MaskKeepsLowBits(n[chains[s][k]].hash, bits + 1);
  }

  lemma MovingKept(n: HNodes, n': HNodes, place: map<nat, nat>, place': map<nat, nat>, bits: nat, s: nat, x: nat,
        tops: set<nat>)
    requires AllMoving(n, place, bits, s) && ChainsOnly(n, n', tops) && x in place && x < |n|
    requires place' == place[x := LowBits(n[x].hash, bits + 1)] && LowBits(n[x].hash, bits) == s
    ensures AllMoving(n', place', bits, s)
  {
    forall y | y in place'
      ensures Moving(n', place', bits, s, y)
    {
      assert Moving(n, place, bits, s, y);
    }
  }

  lemma ChainsOnlyTransitive(n0: HNodes, n1: HNodes, n2: HNodes, tops: set<nat>)
    requires ChainsOnly(n0, n1, tops) && ChainsOnly(n1, n2, tops)
    ensures ChainsOnly(n0, n2, tops)
  {
  }

  lemma StartMoving(n: HNodes, place: map<nat, nat>, bits: nat)
    requires InSlots(n, place, bits)
    ensures AllMovedBelow(n, place, bits, 0)
  {
    forall x | x in place
      ensures MovedBelow(n, place, bits, 0, x)
    {
      assert InSlot(n, place, bits, x);
    }
  }

  lemma DoneMoving(n: HNodes, place: map<nat, nat>, bits: nat, s: nat)
    requires AllMovedBelow(n, place, bits, s) && s == Pow2(bits)
    ensures InSlots(n, place, bits + 1)
  {
    forall x | x in place
      ensures InSlot(n, place, bits + 1, x)
    {
      assert MovedBelow(n, place, bits, s, x);
      MaskKeepsLowBits(n[x].hash, bits);
    }
  }
}
