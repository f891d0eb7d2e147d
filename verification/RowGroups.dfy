/**
The rows of an index, grouped by key. Every group has one row id that stands for it (the
top) and a list of the others (its siblings); `owner` names the top of every row id.
Both index kinds keep their rows this way; this module does not know how either stores it.
*/
module RowGroups {
  import opened Keys

  type Rows = map<nat, Key>
  type Sibs = map<nat, seq<nat>>

  /** Some row with key k is visible. */
  ghost predicate KeySeen(rows: Rows, k: Key, visible: set<nat>) {
    exists r :: r in rows && rows[r] == k && r in visible
  }

  /** How adding a row ends. */
  datatype Status = Ok | Exists

  function Head(s: seq<nat>): nat { if s == [] then 0 else s[0] }

  function Last(s: seq<nat>): nat { if s == [] then 0 else s[|s| - 1] }

  ghost predicate NoDup(s: seq<nat>) { forall i, j :: 0 <= i < j < |s| ==> s[i] != s[j] }

  ghost predicate InRange(s: seq<nat>, len: nat) { forall i :: 0 <= i < |s| ==> s[i] < len }

  ghost predicate ListPlaced(rows: Rows, owner: map<nat, nat>, x: nat, s: seq<nat>) {
    && x in rows && x in owner && owner[x] == x && NoDup(s)
    && forall i :: 0 <= i < |s| ==> s[i] in rows && s[i] != x && s[i] in owner && owner[s[i]] == x
  }

  ghost predicate RowPlaced(rows: Rows, sibs: Sibs, owner: map<nat, nat>, r: nat) {
    && r in rows && r in owner && owner[r] in sibs && owner[r] in rows
    && rows[r] == rows[owner[r]] && (r == owner[r] || r in sibs[owner[r]])
  }

  /** Every row id is in exactly one place: a tree node, or one position of one list. */
  ghost predicate Placed(rows: Rows, sibs: Sibs, owner: map<nat, nat>) {
    && (forall x {:trigger ListPlaced(rows, owner, x, sibs[x])} :: x in sibs ==> ListPlaced(rows, owner, x, sibs[x]))
    && (forall r {:trigger RowPlaced(rows, sibs, owner, r)} :: r in rows ==> RowPlaced(rows, sibs, owner, r))
  }

  // ----- rows coming

  lemma SiblingAddedPlaced(rows: Rows, sibs: Sibs, owner: map<nat, nat>, x: nat, Z: nat)
    requires Placed(rows, sibs, owner) && x in sibs && x in rows && Z !in rows
    ensures Placed(rows[Z := rows[x]], sibs[x := [Z] + sibs[x]], owner[Z := x])
  {
    var s, s' := sibs[x], [Z] + sibs[x];
    assert forall i :: 0 <= i < |s'| ==> s'[i] == if i == 0 then Z else s[i - 1];
    assert forall r :: r in s ==> r in s';
    assert Z in s';
    var rows', sibs', owner' := rows[Z := rows[x]], sibs[x := s'], owner[Z := x];
    assert ListPlaced(rows, owner, x, s);
    forall y | y in sibs'
      ensures ListPlaced(rows', owner', y, sibs'[y])
    {
      assert ListPlaced(rows, owner, y, sibs[y]);
    }
    forall r | r in rows'
      ensures RowPlaced(rows', sibs', owner', r)
    {
      assert r != Z ==> RowPlaced(rows, sibs, owner, r);
    }
  }

  lemma LeafPlaced(rows: Rows, sibs: Sibs, owner: map<nat, nat>, Z: nat, k: Key)
    requires Placed(rows, sibs, owner) && Z !in rows
    ensures Placed(rows[Z := k], sibs[Z := []], owner[Z := Z])
  {
    var rows', sibs', owner' := rows[Z := k], sibs[Z := []], owner[Z := Z];
    forall y | y in sibs'
      ensures ListPlaced(rows', owner', y, sibs'[y])
    {
      assert y != Z ==> ListPlaced(rows, owner, y, sibs[y]);
    }
    forall r | r in rows'
      ensures RowPlaced(rows', sibs', owner', r)
    {
      assert r != Z ==> RowPlaced(rows, sibs, owner, r);
    }
  }

  // ----- rows going

  function Cut(s: seq<nat>, j: nat): seq<nat>
    requires j < |s|
  {
    s[..j] + s[j + 1..]
  }

  lemma SiblingNotTop(rows: Rows, sibs: Sibs, owner: map<nat, nat>, x: nat, j: nat)
    requires Placed(rows, sibs, owner) && x in sibs && j < |sibs[x]|
    ensures sibs[x][j] !in sibs
  {
    assert ListPlaced(rows, owner, x, sibs[x]);
    forall y | y in sibs
      ensures y != sibs[x][j]
    {
      assert ListPlaced(rows, owner, y, sibs[y]);
    }
  }

  lemma CutPlaced(rows: Rows, sibs: Sibs, owner: map<nat, nat>, x: nat, j: nat)
    requires Placed(rows, sibs, owner) && x in sibs && j < |sibs[x]|
    ensures Placed(rows - {sibs[x][j]}, sibs[x := Cut(sibs[x], j)], owner - {sibs[x][j]})
    ensures sibs[x][j] !in sibs
  {
    var s := sibs[x];
    var Z, s' := s[j], Cut(s, j);
    var rows', sibs', owner' := rows - {Z}, sibs[x := s'], owner - {Z};
    assert ListPlaced(rows, owner, x, s);
    assert forall i :: 0 <= i < |s'| ==> s'[i] == s[if i < j then i else i + 1] && s'[i] != Z;
    SiblingNotTop(rows, sibs, owner, x, j);
    forall y | y in sibs'
      ensures ListPlaced(rows', owner', y, sibs'[y])
    {
      assert ListPlaced(rows, owner, y, sibs[y]);
      if y != x {
        assert forall i :: 0 <= i < |sibs[y]| ==> owner[sibs[y][i]] == y;
      }
    }
    forall r | r in rows'
      ensures RowPlaced(rows', sibs', owner', r)
    {
      assert RowPlaced(rows, sibs, owner, r);
      if r in s {
        var i :| 0 <= i < |s| && s[i] == r;
        assert s'[if i < j then i else i - 1] == r;
      }
    }
  }

  lemma CutCounts(rows: Rows, sibs: Sibs, x: nat, j: nat)
    requires x in sibs && j < |sibs[x]| && sibs[x][j] in rows
    ensures |rows - {sibs[x][j]}| == |rows| - 1 && |sibs[x := Cut(sibs[x], j)]| == |sibs|
  {
    assert (rows - {sibs[x][j]}).Keys == rows.Keys - {sibs[x][j]};
    assert sibs[x := Cut(sibs[x], j)].Keys == sibs.Keys;
  }

  /** Z's sibling list goes over to its first row id. */
  function Promoted(sibs: Sibs, Z: nat): Sibs
    requires Z in sibs && sibs[Z] != []
  {
    (sibs - {Z})[sibs[Z][0] := sibs[Z][1..]]
  }

  function PromotedOwner(owner: map<nat, nat>, Z: nat, S: nat): map<nat, nat> {
    map r | r in owner && r != Z :: if owner[r] == Z then S else owner[r]
  }

  lemma PromotedCount(rows: Rows, sibs: Sibs, owner: map<nat, nat>, Z: nat)
    requires Placed(rows, sibs, owner) && Z in sibs && sibs[Z] != []
    ensures |Promoted(sibs, Z)| == |sibs|
  {
    SiblingNotTop(rows, sibs, owner, Z, 0);
    assert Promoted(sibs, Z).Keys == sibs.Keys - {Z} + {sibs[Z][0]};
  }

  lemma PromotedPlaced(rows: Rows, sibs: Sibs, owner: map<nat, nat>, Z: nat)
    requires Placed(rows, sibs, owner) && Z in sibs && sibs[Z] != []
    ensures Placed(rows - {Z}, Promoted(sibs, Z), PromotedOwner(owner, Z, sibs[Z][0]))
  {
    var s := sibs[Z];
    var S := s[0];
    var rows', sibs', owner' := rows - {Z}, Promoted(sibs, Z), PromotedOwner(owner, Z, S);
    assert ListPlaced(rows, owner, Z, s);
    SiblingNotTop(rows, sibs, owner, Z, 0);
    forall y | y in sibs'
      ensures ListPlaced(rows', owner', y, sibs'[y])
    {
      if y != S {
        assert ListPlaced(rows, owner, y, sibs[y]);
        assert forall i :: 0 <= i < |sibs[y]| ==> owner[sibs[y][i]] == y;
      }
    }
    forall r | r in rows'
      ensures RowPlaced(rows', sibs', owner', r)
    {
      assert RowPlaced(rows, sibs, owner, r);
      assert RowPlaced(rows, sibs, owner, S);
      if r in s && r != S {
        var i :| 0 <= i < |s| && s[i] == r;
        assert s[1..][i - 1] == r;
      }
    }
  }

  /** Ownership tells siblings of other lists and tree nodes from the list at hand. */
  lemma OwnedApart(rows: Rows, sibs: Sibs, owner: map<nat, nat>, x: nat, r: nat)
    requires Placed(rows, sibs, owner) && x in sibs && r in rows
    ensures r in owner && (owner[r] != x ==> r !in sibs[x] && r != x)
    ensures r in sibs ==> owner[r] == r
  {
    assert RowPlaced(rows, sibs, owner, r);
    assert ListPlaced(rows, owner, x, sibs[x]);
    if r in sibs {
      assert ListPlaced(rows, owner, r, sibs[r]);
    }
  }

  lemma GonePlaced(rows: Rows, sibs: Sibs, owner: map<nat, nat>, Z: nat)
    requires Placed(rows, sibs, owner) && Z in sibs && sibs[Z] == []
    ensures Placed(rows - {Z}, sibs - {Z}, owner - {Z})
  {
    var rows', sibs', owner' := rows - {Z}, sibs - {Z}, owner - {Z};
    assert ListPlaced(rows, owner, Z, []);
    forall y | y in sibs'
      ensures ListPlaced(rows', owner', y, sibs'[y])
    {
      assert ListPlaced(rows, owner, y, sibs[y]);
      forall i | 0 <= i < |sibs[y]|
        ensures sibs[y][i] != Z
      {
        SiblingNotTop(rows, sibs, owner, y, i);
      }
    }
    forall r | r in rows'
      ensures RowPlaced(rows', sibs', owner', r)
    {
      assert RowPlaced(rows, sibs, owner, r);
    }
  }

  // ----- counting

  ghost function Elements(s: seq<nat>): (ids: set<nat>)
    ensures forall r :: r in ids <==> r in s
  {
    if s == [] then {} else Elements(s[1..]) + {s[0]}
  }

  lemma {:induction false} ElementsCount(s: seq<nat>)
    requires NoDup(s)
    ensures |Elements(s)| == |s|
  {
    if s != [] {
      var t := s[1..];
      assert forall i :: 0 <= i < |t| ==> t[i] == s[i + 1] && t[i] != s[0];
      assert Elements(s) == Elements(t) + {s[0]} && s[0] !in Elements(t);
      ElementsCount(t);
    }
  }

  lemma {:induction false} DistinctKeys(rows: Rows, s: set<nat>)
    requires s <= rows.Keys && forall x, y :: x in s && y in s && x != y ==> rows[x] != rows[y]
    ensures |set x | x in s :: rows[x]| == |s|
  {
    var ks := set x | x in s :: rows[x];
    if s != {} {
      var z :| z in s;
      var s' := s - {z};
      DistinctKeys(rows, s');
      assert ks == (set x | x in s' :: rows[x]) + {rows[z]};
    }
  }
}
