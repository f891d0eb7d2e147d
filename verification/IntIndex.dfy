/**
A hash index on integer columns: the words it stores and the words a query looks for are
those of the two hashing loops. A key is what comparisons read of the columns.
*/
module IntIndex {
  import opened RowWord
  import opened Keys
  import opened HashLink
  import opened HashRows
  import opened HashIndex
  import opened KeyHash

  ghost predicate HashesBy(ix: HashIndex, cols: seq<Column>) { forall k: Key :: ix.hash(k) == Stored(cols, k) }

  method NewIndex(unique: bool, cols: seq<Column>, nodes: HNodes, slotBits: nat) returns (ix: HashIndex)
    requires Pow2(slotBits) <= 4 * RID_LIMIT && |nodes| > 0 && Cleared(nodes, map[])
    ensures fresh(ix) && ix.Valid() && ix.rows == map[] && ix.unique == unique && ix.node == nodes && HashesBy(ix, cols)
  {
    ix := new HashIndex(unique, k => Stored(cols, k), nodes, slotBits);
  }

  /** The rows that read as the values, when both hash to one word. */
  method QueryValues(ix: HashIndex, ghost cols: seq<Column>, vals: seq<Val>) returns (rids: seq<nat>)
    requires ix.Valid() && HashesBy(ix, cols)
    ensures RowGroups.NoDup(rids)
    ensures forall r :: r in rids <==>
      r in ix.rows && ix.rows[r] == Numbers(vals) && Stored(cols, Numbers(vals)) == Sought(vals)
  {
    var hashsum := ValHash(vals);
    WordsKept([], [], vals);
    rids := ix.Query(Numbers(vals), hashsum % W32);
  }

  /** Rows are found by signed values unless a narrow column is negative, in every index of such columns. */
  lemma FindsKey(cols: seq<Column>, vals: seq<Val>)
    requires |cols| == |vals| && forall i :: 0 <= i < |vals| ==> cols[i].Fits(vals[i].ival) && vals[i].typ == Signed
    requires forall i :: 0 <= i < |vals| ==> cols[i].Range() >= W32 || vals[i].ival >= 0
    ensures Stored(cols, Numbers(vals)) == Sought(vals)
  {
    forall i | 0 <= i < |vals|
      ensures SameBits(cols[i], vals[i])
    {
      SameBitsWhen(cols[i], vals[i]);
    }
    OneHash(cols, vals);
  }

  /** A row that holds v is found by a value exactly when it reads as the value and both hash alike. */
  method AddAndQuery(c: Column, v: int, val: Val, nodes: HNodes, slotBits: nat) returns (rids: seq<nat>)
    requires c.Holds(v) && Pow2(slotBits) <= 4 * RID_LIMIT && |nodes| > 1 && Cleared(nodes, map[])
    ensures RowGroups.NoDup(rids) && forall r :: r in rids <==> r == 1 && Found(c, v, val)
  {
    var ix := NewIndex(false, [c], nodes, slotBits);
    var rc := ix.Add(1, [c.Read(v)], {}, true);
    OneColumn(c, val);
    assert Numbers([val]) == [val.ival];
    rids := QueryValues(ix, [c], [val]);
  }

  /** A row with -1 in a TINYINT column is in the index, and a query for -1 does not find it. */
  method NegativeMissed() returns (rids: seq<nat>)
    ensures forall r :: r !in rids
  {
    FoundByLiteral(TinyInt, -1);
    rids := AddAndQuery(TinyInt, -1, Literal(TinyInt, -1), seq(9, i => ZERO_NODE), 3);
  }

  /** A row with 5 in an INT UNSIGNED column is found by a 5 that is bound, and not by one that is written. */
  method UnsignedFound() returns (bound: seq<nat>, written: seq<nat>)
    ensures 1 in bound && forall r :: r !in written
  {
    FoundByInt64(UInt, 5);
    bound := AddAndQuery(UInt, 5, Bound(5), seq(9, i => ZERO_NODE), 3);
    FoundByLiteral(UInt, 5);
    written := AddAndQuery(UInt, 5, Literal(UInt, 5), seq(9, i => ZERO_NODE), 3);
  }
}
