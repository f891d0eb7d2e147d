/**
WHERE filters over integer columns, and choosing an index for the filters joined by
AND. An index serves when every one of its columns has an equality; what the index does not
cover is left for checking row by row.
*/
module Filters {
  import opened KeyHash
  import opened Keys

  const HALF: int := 0x8000_0000_0000_0000

  /** A 64-bit signed value. */
  type Long = x: int | -0x8000_0000_0000_0000 <= x < 0x8000_0000_0000_0000

  datatype Op = Eq | Ne | Ge | Gt | Le | Lt

  /** A filter on a column, which may be unsigned, with a value that has a type of its own. */
  datatype Filter = Filter(col: nat, unsigned: bool, op: Op, typ: ValType, val: Long) {
    function Value(): Val { Val(typ, val) }
  }

  type Values = seq<Long>

  /** 64-bit wrap-around. */
  function Wrap64(d: int): Long { (d + HALF) % (2 * HALF) - HALF }

  /** A filter looks at the sign of a 64-bit difference, and is false unless column and value are both signed. */
  predicate Holds(f: Filter, v: Long) {
    !f.unsigned && f.typ == Signed && CmpHolds(f.op, Wrap64(v - f.val))
  }

  predicate CmpHolds(op: Op, cmp: Long) {
    match op
    case Eq => cmp == 0
    case Ne => cmp != 0
    case Ge => cmp >= 0
    case Gt => cmp > 0
    case Le => cmp <= 0
    case Lt => cmp < 0
  }

  /**
  On signed columns equalities are exact, and an order comparison says the opposite of what
  it means exactly when the difference does not fit. On an unsigned column, or with a value
  of an unsigned type, no filter ever holds.
  */
  lemma {:induction false} HoldsMeans(f: Filter, v: Long)
    ensures f.unsigned || f.typ != Signed ==> !Holds(f, v)
    ensures !f.unsigned && f.typ == Signed ==>
      var fits := -0x8000_0000_0000_0000 <= v - f.val < 0x8000_0000_0000_0000;
      && (f.op == Eq ==> (Holds(f, v) <==> v == f.val))
      && (f.op == Ne ==> (Holds(f, v) <==> v != f.val))
      && (f.op == Ge ==> (Holds(f, v) <==> if fits then v >= f.val else v < f.val))
      && (f.op == Gt ==> (Holds(f, v) <==> if fits then v > f.val else v < f.val))
      && (f.op == Le ==> (Holds(f, v) <==> if fits then v <= f.val else v > f.val))
      && (f.op == Lt ==> (Holds(f, v) <==> if fits then v < f.val else v > f.val))
  {
    var d := v - f.val;
    if -HALF <= d < HALF {
      assert Wrap64(d) == d;
    } else if d >= HALF {
      assert Wrap64(d) == d - 2 * HALF;
    } else {
      assert Wrap64(d) == d + 2 * HALF;
    }
  }

  ghost predicate ColsOk(fs: seq<Filter>, types: seq<Column>) {
    forall i :: 0 <= i < |fs| ==> fs[i].col < |types| && fs[i].unsigned == types[fs[i].col].Unsigned()
  }

  ghost predicate AllHold(fs: seq<Filter>, row: Values) {
    forall i :: 0 <= i < |fs| ==> fs[i].col < |row| && Holds(fs[i], row[fs[i].col])
  }

  method RowAndMatch(row: Values, fs: seq<Filter>) returns (match_: bool)
    requires forall i :: 0 <= i < |fs| ==> fs[i].col < |row|
    ensures match_ <==> forall i :: 0 <= i < |fs| ==> Holds(fs[i], row[fs[i].col])
    ensures match_ <==> AllHold(fs, row)
  {
    for i := 0 to |fs|
      invariant forall j :: 0 <= j < i ==> Holds(fs[j], row[fs[j].col])
    {
      if !Holds(fs[i], row[fs[i].col]) {
        return false;
      }
    }
    return true;
  }

  // ----- choosing an index

  /** The columns of an index, all different. */
  ghost predicate Distinct(cols: seq<nat>) { forall i, j :: 0 <= i < j < |cols| ==> cols[i] != cols[j] }

  ghost predicate HasEq(fs: seq<Filter>, col: nat) { exists i :: 0 <= i < |fs| && fs[i].col == col && fs[i].op == Eq }

  ghost predicate Serves(cols: seq<nat>, fs: seq<Filter>) {
    |fs| >= |cols| && forall j :: 0 <= j < |cols| ==> HasEq(fs, cols[j])
  }

  /** The key columns of a row. */
  function KeyOf(cols: seq<nat>, row: Values): (k: Key)
    requires forall j :: 0 <= j < |cols| ==> cols[j] < |row|
    ensures |k| == |cols| && forall j :: 0 <= j < |k| ==> k[j] == row[cols[j]]
  {
    seq(|cols|, j requires 0 <= j < |cols| => row[cols[j]] as int)
  }

  /** The filters on other columns, in order. */
  function Others(cols: seq<nat>, fs: seq<Filter>): seq<Filter> {
    if fs == [] then []
    else if fs[|fs| - 1].col in cols then Others(cols, fs[..|fs| - 1])
    else Others(cols, fs[..|fs| - 1]) + [fs[|fs| - 1]]
  }

  /** The value of the last filter on a column. */
  ghost predicate LastOn(fs: seq<Filter>, col: nat, v: Val) {
    exists i :: 0 <= i < |fs| && fs[i].col == col && fs[i].Value() == v && forall j :: i < j < |fs| ==> fs[j].col != col
  }

  /** The columns with an equality. */
  method EqColumns(fs: seq<Filter>) returns (bmp: set<nat>)
    ensures forall c :: c in bmp <==> HasEq(fs, c)
  {
    bmp := {};
    for i := 0 to |fs|
      invariant forall c :: c in bmp <==> HasEq(fs[..i], c)
    {
      assert fs[..i + 1] == fs[..i] + [fs[i]];
      EqMore(fs[..i], fs[i]);
      if fs[i].op == Eq {
        bmp := bmp + {fs[i].col};
      }
    }
    assert fs[..|fs|] == fs;
  }

  lemma {:induction false} EqMore(fs: seq<Filter>, f: Filter)
    ensures forall c :: HasEq(fs + [f], c) <==> HasEq(fs, c) || (f.op == Eq && f.col == c)
  {
    var gs := fs + [f];
    forall c
      ensures HasEq(gs, c) <==> HasEq(fs, c) || (f.op == Eq && f.col == c)
    {
      if HasEq(fs, c) {
        var i :| 0 <= i < |fs| && fs[i].col == c && fs[i].op == Eq;
        assert gs[i] == fs[i];
      }
      if f.op == Eq && f.col == c {
        assert gs[|fs|] == f;
      }
    }
  }

  /** Takes the first index that serves; says what key to look for and what is left to check. */
  method FindIdx(indexes: seq<seq<nat>>, fs: seq<Filter>, bmp: set<nat>)
    returns (found: bool, which: nat, vals: seq<Val>, flts: seq<Filter>)
    requires forall i :: 0 <= i < |indexes| ==> Distinct(indexes[i])
    requires forall c :: c in bmp <==> HasEq(fs, c)
    ensures found <==> exists i :: 0 <= i < |indexes| && Serves(indexes[i], fs)
    ensures found ==>
      which < |indexes| && Serves(indexes[which], fs) && forall i :: 0 <= i < which ==> !Serves(indexes[i], fs)
    ensures found ==> Taken(indexes[which], fs, vals, flts)
  {
    found, which, vals, flts := false, 0, [], [];
    for i := 0 to |indexes|
      invariant forall j :: 0 <= j < i ==> !Serves(indexes[j], fs)
    {
      var cols := indexes[i];
      if |fs| >= |cols| {
        var fid := 0;
        while fid < |cols| && cols[fid] in bmp
          invariant 0 <= fid <= |cols| && forall j :: 0 <= j < fid ==> HasEq(fs, cols[j])
        {
          fid := fid + 1;
        }
        if fid == |cols| {
          vals, flts := Split(cols, fs);
          return true, i, vals, flts;
        }
      }
    }
  }

  /** The key has the last value on each column, and the filters left are those on others. */
  ghost predicate Taken(cols: seq<nat>, fs: seq<Filter>, vals: seq<Val>, flts: seq<Filter>) {
    && |vals| == |cols| && (forall j :: 0 <= j < |cols| ==> LastOn(fs, cols[j], vals[j]))
    && flts == Others(cols, fs)
  }

  /** Where a column is in an index, |cols| when it is not there. */
  method IdxFid(cols: seq<nat>, col: nat) returns (fid: nat)
    ensures fid <= |cols| && (fid < |cols| <==> col in cols) && (fid < |cols| ==> cols[fid] == col)
  {
    fid := 0;
    while fid < |cols| && cols[fid] != col
      invariant fid <= |cols| && forall j :: 0 <= j < fid ==> cols[j] != col
    {
      fid := fid + 1;
    }
  }

  method Split(cols: seq<nat>, fs: seq<Filter>) returns (vals: seq<Val>, flts: seq<Filter>)
    requires Distinct(cols) && forall j :: 0 <= j < |cols| ==> HasEq(fs, cols[j])
    ensures Taken(cols, fs, vals, flts)
  {
    vals, flts := seq(|cols|, j => Val(Signed, 0)), [];
    for i := 0 to |fs|
      invariant |vals| == |cols| && flts == Others(cols, fs[..i])
      invariant forall j :: 0 <= j < |cols| ==> LastOn(fs[..i], cols[j], vals[j]) || NoneOn(fs[..i], cols[j])
    {
      ghost var before, vals0 := fs[..i], vals;
      assert fs[..i + 1] == before + [fs[i]];
      var fid := IdxFid(cols, fs[i].col);
      if fid < |cols| {
        vals := vals[fid := fs[i].Value()];
      } else {
        flts := flts + [fs[i]];
      }
      forall j | 0 <= j < |cols|
        ensures LastOn(fs[..i + 1], cols[j], vals[j]) || NoneOn(fs[..i + 1], cols[j])
      {
        LastMore(before, fs[i], cols[j], vals0[j]);
      }
    }
    assert fs[..|fs|] == fs;
  }

  ghost predicate NoneOn(fs: seq<Filter>, col: nat) { forall i :: 0 <= i < |fs| ==> fs[i].col != col }

  lemma {:induction false} LastMore(fs: seq<Filter>, f: Filter, col: nat, v: Val)
    ensures f.col == col ==> LastOn(fs + [f], col, f.Value())
    ensures f.col != col && LastOn(fs, col, v) ==> LastOn(fs + [f], col, v)
    ensures f.col != col && NoneOn(fs, col) ==> NoneOn(fs + [f], col)
  {
    var gs := fs + [f];
    if f.col == col {
      assert gs[|fs|] == f;
    } else if LastOn(fs, col, v) {
      var i :| 0 <= i < |fs| && fs[i].col == col && fs[i].Value() == v && forall j :: i < j < |fs| ==> fs[j].col != col;
      assert gs[i] == fs[i];
    }
  }

  // ----- what the index route answers

  /** A row the index route finds: its key is the one looked for and the rest holds. */
  ghost predicate Routed(cols: seq<nat>, vals: seq<Val>, flts: seq<Filter>, row: Values) {
    (forall j :: 0 <= j < |cols| ==> cols[j] < |row|) && KeyOf(cols, row) == Numbers(vals) && AllHold(flts, row)
  }

  /** Every filter on an index column holds of the value looked for there. */
  ghost predicate Consistent(cols: seq<nat>, fs: seq<Filter>, vals: seq<Val>)
    requires |vals| == |cols|
  {
    forall i, j :: 0 <= i < |fs| && 0 <= j < |cols| && fs[i].col == cols[j] ==>
      InLong(vals[j].ival) && Holds(fs[i], vals[j].ival)
  }

  ghost predicate InLong(v: int) { -HALF <= v < HALF }

  lemma {:induction false} OthersAre(cols: seq<nat>, fs: seq<Filter>)
    ensures forall f :: f in Others(cols, fs) <==> f in fs && f.col !in cols
  {
    if fs != [] {
      var gs := fs[..|fs| - 1];
      OthersAre(cols, gs);
      assert fs == gs + [fs[|fs| - 1]];
    }
  }

  lemma {:induction false} AllHoldIn(fs: seq<Filter>, row: Values)
    ensures AllHold(fs, row) <==> forall f :: f in fs ==> f.col < |row| && Holds(f, row[f.col])
  {
    if AllHold(fs, row) {
      forall f | f in fs
        ensures f.col < |row| && Holds(f, row[f.col])
      {
        var i :| 0 <= i < |fs| && fs[i] == f;
      }
    } else {
      var i :| 0 <= i < |fs| && !(fs[i].col < |row| && Holds(fs[i], row[fs[i].col]));
      assert fs[i] in fs;
    }
  }

  /** With consistent filters the index route finds exactly the rows all filters hold of. */
  lemma {:induction false} RouteIsScan(cols: seq<nat>, fs: seq<Filter>, vals: seq<Val>, flts: seq<Filter>, row: Values)
    requires Serves(cols, fs) && Taken(cols, fs, vals, flts) && Consistent(cols, fs, vals)
    requires forall j :: 0 <= j < |cols| ==> cols[j] < |row|
    ensures Routed(cols, vals, flts, row) <==> AllHold(fs, row)
  {
    OthersAre(cols, fs);
    AllHoldIn(flts, row);
    AllHoldIn(fs, row);
    if Routed(cols, vals, flts, row) {
      forall f | f in fs
        ensures f.col < |row| && Holds(f, row[f.col])
      {
        if f.col in cols {
          var i :| 0 <= i < |fs| && fs[i] == f;
          var j :| 0 <= j < |cols| && cols[j] == f.col;
          assert KeyOf(cols, row)[j] == vals[j].ival;
        }
      }
    }
    if AllHold(fs, row) {
      forall j | 0 <= j < |cols|
        ensures row[cols[j]] == vals[j].ival
      {
        assert HasEq(fs, cols[j]);
        var i :| 0 <= i < |fs| && fs[i].col == cols[j] && fs[i].op == Eq;
        HoldsMeans(fs[i], row[cols[j]]);
        HoldsMeans(fs[i], vals[j].ival);
      }
    }
  }

  /** No later filter is on the same column. */
  ghost predicate IsLast(fs: seq<Filter>, l: nat) { l < |fs| && forall m :: l < m < |fs| ==> fs[m].col != fs[l].col }

  /** On every index column the value of the last filter satisfies all of them. */
  ghost predicate LastAgrees(cols: seq<nat>, fs: seq<Filter>) {
    forall i: nat, l: nat :: i < |fs| && IsLast(fs, l) && fs[i].col == fs[l].col && fs[l].col in cols ==>
      Holds(fs[i], fs[l].val)
  }

  lemma {:induction false} OneLast(fs: seq<Filter>, col: nat, v: Val, w: Val)
    requires LastOn(fs, col, v) && LastOn(fs, col, w)
    ensures v == w
  {
  }

  /** Consistency is a matter of the filters alone. */
  lemma {:induction false} LastIsConsistent(cols: seq<nat>, fs: seq<Filter>, vals: seq<Val>, flts: seq<Filter>)
    requires Taken(cols, fs, vals, flts)
    ensures Consistent(cols, fs, vals) <==> LastAgrees(cols, fs)
  {
    if LastAgrees(cols, fs) {
      forall i, j | 0 <= i < |fs| && 0 <= j < |cols| && fs[i].col == cols[j]
        ensures InLong(vals[j].ival) && Holds(fs[i], vals[j].ival)
      {
        assert LastOn(fs, cols[j], vals[j]);
        var l :| 0 <= l < |fs| && fs[l].col == cols[j] && fs[l].Value() == vals[j] &&
          forall m :: l < m < |fs| ==> fs[m].col != cols[j];
        assert IsLast(fs, l) && cols[j] in cols;
      }
    }
    if Consistent(cols, fs, vals) {
      forall i: nat, l: nat | i < |fs| && IsLast(fs, l) && fs[i].col == fs[l].col && fs[l].col in cols
        ensures Holds(fs[i], fs[l].val)
      {
        var j :| 0 <= j < |cols| && cols[j] == fs[l].col;
        assert LastOn(fs, cols[j], vals[j]) && LastOn(fs, cols[j], fs[l].Value());
        OneLast(fs, cols[j], vals[j], fs[l].Value());
      }
    }
  }

  /** Each index column is filtered once: what the parser's callers are expected to write. */
  ghost predicate Once(cols: seq<nat>, fs: seq<Filter>) {
    forall i, j :: 0 <= i < j < |fs| && fs[i].col == fs[j].col ==> fs[i].col !in cols
  }

  /** Filtering each index column once is enough, when values and columns compare at all. */
  lemma {:induction false} OnceAgrees(cols: seq<nat>, fs: seq<Filter>)
    requires Serves(cols, fs) && Once(cols, fs)
    ensures LastAgrees(cols, fs) <==>
      forall i :: 0 <= i < |fs| && fs[i].col in cols ==> !fs[i].unsigned && fs[i].typ == Signed
  {
    forall i: nat, l: nat | i < |fs| && IsLast(fs, l) && fs[i].col == fs[l].col && fs[l].col in cols
      ensures i == l && (Holds(fs[i], fs[l].val) <==> !fs[i].unsigned && fs[i].typ == Signed)
    {
      var j :| 0 <= j < |cols| && cols[j] == fs[l].col;
      assert HasEq(fs, cols[j]);
      var e :| 0 <= e < |fs| && fs[e].col == cols[j] && fs[e].op == Eq;
      assert e == i == l;
      HoldsMeans(fs[i], fs[l].val);
    }
    forall i: nat | i < |fs| && fs[i].col in cols
      ensures IsLast(fs, i)
    {
    }
  }

  lemma {:induction false} OnceIsConsistent(cols: seq<nat>, fs: seq<Filter>, vals: seq<Val>, flts: seq<Filter>)
    requires Serves(cols, fs) && Taken(cols, fs, vals, flts) && Once(cols, fs)
    ensures Consistent(cols, fs, vals) <==>
      forall i :: 0 <= i < |fs| && fs[i].col in cols ==> !fs[i].unsigned && fs[i].typ == Signed
  {
    OnceAgrees(cols, fs);
    LastIsConsistent(cols, fs, vals, flts);
  }

  // ----- when some row passes the filters left

  /** Rows that their columns can hold, as comparisons read them. */
  ghost predicate Fitting(types: seq<Column>, row: Values) {
    |row| == |types| && forall c :: 0 <= c < |row| ==> types[c].Fits(row[c])
  }

  /** Values that the index columns can hold. */
  ghost predicate ValsFit(cols: seq<nat>, types: seq<Column>, vals: seq<Val>) {
    && |vals| == |cols|
    && forall j :: 0 <= j < |cols| ==> cols[j] < |types| && InLong(vals[j].ival) && types[cols[j]].Fits(vals[j].ival)
  }

  /** Puts values into a row. */
  lemma {:induction false} RowWithKey(cols: seq<nat>, types: seq<Column>, vals: seq<Val>, row: Values, n: nat)
    returns (row': Values)
    requires Distinct(cols) && n <= |cols| && ValsFit(cols, types, vals) && Fitting(types, row)
    ensures Fitting(types, row') && (forall j :: 0 <= j < n ==> row'[cols[j]] == vals[j].ival)
    ensures forall c :: 0 <= c < |row| && c !in cols ==> row'[c] == row[c]
  {
    if n == 0 {
      row' := row;
    } else {
      row' := RowWithKey(cols, types, vals, row, n - 1);
      row' := row'[cols[n - 1] := vals[n - 1].ival];
    }
  }

  /** A row that passes the filters left passes them with any values on the index columns. */
  lemma {:induction false} WithKey(cols: seq<nat>, types: seq<Column>, fs: seq<Filter>, vals: seq<Val>, row: Values)
    returns (row': Values)
    requires Distinct(cols) && ValsFit(cols, types, vals) && Fitting(types, row) && AllHold(Others(cols, fs), row)
    ensures Fitting(types, row') && AllHold(Others(cols, fs), row')
    ensures (forall j :: 0 <= j < |cols| ==> cols[j] < |row'|) && KeyOf(cols, row') == Numbers(vals)
  {
    row' := RowWithKey(cols, types, vals, row, |cols|);
    var flts := Others(cols, fs);
    OthersAre(cols, fs);
    AllHoldIn(flts, row);
    AllHoldIn(flts, row');
    assert KeyOf(cols, row') == Numbers(vals);
  }

  /**
  And only with consistent filters: when the columns can hold the values looked for, and some
  row passes the filters left, the route and the filters tell some row apart unless they are
  consistent.
  */
  lemma {:induction false} OnlyConsistent(cols: seq<nat>, types: seq<Column>, fs: seq<Filter>, vals: seq<Val>,
        flts: seq<Filter>, row: Values)
    requires Distinct(cols) && Serves(cols, fs) && Taken(cols, fs, vals, flts) && ValsFit(cols, types, vals)
    requires Fitting(types, row) && AllHold(flts, row)
    requires forall r: Values :: Fitting(types, r) ==> (Routed(cols, vals, flts, r) <==> AllHold(fs, r))
    ensures Consistent(cols, fs, vals)
  {
    var r := WithKey(cols, types, fs, vals, row);
    assert Routed(cols, vals, flts, r);
    assert AllHold(fs, r);
    forall i, j | 0 <= i < |fs| && 0 <= j < |cols| && fs[i].col == cols[j]
      ensures InLong(vals[j].ival) && Holds(fs[i], vals[j].ival)
    {
      assert KeyOf(cols, r)[j] == Numbers(vals)[j];
    }
  }

  /** The filters on every index column are met by the value of one of their equalities, which the column can hold. */
  ghost predicate EqAgrees(cols: seq<nat>, types: seq<Column>, fs: seq<Filter>) {
    forall j :: 0 <= j < |cols| ==> cols[j] < |types| && exists e :: EqMeets(fs, types[cols[j]], cols[j], e)
  }

  ghost predicate EqMeets(fs: seq<Filter>, typ: Column, col: nat, e: int) {
    && 0 <= e < |fs| && fs[e].col == col && fs[e].op == Eq && typ.Fits(fs[e].val)
    && forall i :: 0 <= i < |fs| && fs[i].col == col ==> Holds(fs[i], fs[e].val)
  }

  /** Some row that the columns can hold has all filters hold exactly when they agree so, and the rest can hold. */
  lemma {:induction false} SomeRow(cols: seq<nat>, types: seq<Column>, fs: seq<Filter>, row: Values)
    requires Distinct(cols) && Serves(cols, fs) && (forall j :: 0 <= j < |cols| ==> cols[j] < |types|)
    requires Fitting(types, row) && AllHold(Others(cols, fs), row)
    ensures (exists r: Values :: Fitting(types, r) && AllHold(fs, r)) <==> EqAgrees(cols, types, fs)
  {
    if EqAgrees(cols, types, fs) {
      var r := MeetingRow(cols, types, fs, row);
      assert Fitting(types, r) && AllHold(fs, r);
    } else {
      forall r: Values | Fitting(types, r)
        ensures !AllHold(fs, r)
      {
        HeldMeets(cols, types, fs, r);
      }
    }
  }

  lemma {:induction false} MeetingRow(cols: seq<nat>, types: seq<Column>, fs: seq<Filter>, row: Values)
    returns (r: Values)
    requires Distinct(cols) && EqAgrees(cols, types, fs) && Fitting(types, row) && AllHold(Others(cols, fs), row)
    ensures Fitting(types, r) && AllHold(fs, r)
  {
    var vals := EqVals(cols, types, fs);
    r := WithKey(cols, types, fs, vals, row);
    AllMet(cols, types, fs, vals, r);
  }

  lemma {:induction false} HeldMeets(cols: seq<nat>, types: seq<Column>, fs: seq<Filter>, r: Values)
    requires Serves(cols, fs) && (forall j :: 0 <= j < |cols| ==> cols[j] < |types|) && Fitting(types, r)
    ensures AllHold(fs, r) ==> EqAgrees(cols, types, fs)
  {
    if AllHold(fs, r) {
      forall j | 0 <= j < |cols|
        ensures exists e :: EqMeets(fs, types[cols[j]], cols[j], e)
      {
        HeldEq(fs, types, cols[j], r);
      }
    }
  }

  lemma {:induction false} HeldEq(fs: seq<Filter>, types: seq<Column>, col: nat, r: Values)
    requires HasEq(fs, col) && col < |types| && Fitting(types, r) && AllHold(fs, r)
    ensures exists e :: EqMeets(fs, types[col], col, e)
  {
    var e :| 0 <= e < |fs| && fs[e].col == col && fs[e].op == Eq;
    HoldsMeans(fs[e], r[col]);
    assert EqMeets(fs, types[col], col, e);
  }

  ghost predicate ValMeets(cols: seq<nat>, types: seq<Column>, fs: seq<Filter>, j: nat, v: Val)
    requires j < |cols| && cols[j] < |types|
  {
    exists e :: EqMeets(fs, types[cols[j]], cols[j], e) && v == fs[e].Value()
  }

  lemma {:induction false} EqVals(cols: seq<nat>, types: seq<Column>, fs: seq<Filter>) returns (vals: seq<Val>)
    requires EqAgrees(cols, types, fs)
    ensures ValsFit(cols, types, vals) && forall j :: 0 <= j < |cols| ==> ValMeets(cols, types, fs, j, vals[j])
  {
    vals := [];
    for n := 0 to |cols|
      invariant |vals| == n && forall j :: 0 <= j < n ==> ValMeets(cols, types, fs, j, vals[j])
    {
      var e :| EqMeets(fs, types[cols[n]], cols[n], e);
      vals := vals + [fs[e].Value()];
      assert ValMeets(cols, types, fs, n, vals[n]);
    }
  }

  lemma {:induction false} AllMet(cols: seq<nat>, types: seq<Column>, fs: seq<Filter>, vals: seq<Val>, r: Values)
    requires ValsFit(cols, types, vals) && forall j :: 0 <= j < |cols| ==> ValMeets(cols, types, fs, j, vals[j])
    requires (forall j :: 0 <= j < |cols| ==> cols[j] < |r|) && KeyOf(cols, r) == Numbers(vals)
    requires AllHold(Others(cols, fs), r)
    ensures AllHold(fs, r)
  {
    OthersAre(cols, fs);
    AllHoldIn(Others(cols, fs), r);
    AllHoldIn(fs, r);
    forall f | f in fs
      ensures f.col < |r| && Holds(f, r[f.col])
    {
      if f.col in cols {
        var i :| 0 <= i < |fs| && fs[i] == f;
        var j: nat :| j < |cols| && cols[j] == f.col;
        assert KeyOf(cols, r)[j] == Numbers(vals)[j] && ValMeets(cols, types, fs, j, vals[j]);
      }
    }
  }

  /** Two equalities on one index column: the route looks for the last value, and no row has both. */
  lemma TwoEqualities() returns (fs: seq<Filter>, row: Values)
    ensures Serves([0], fs) && Taken([0], fs, [Val(Signed, 2)], [])
    ensures Routed([0], [Val(Signed, 2)], [], row) && !AllHold(fs, row)
  {
    fs, row := [Filter(0, false, Eq, Signed, 1), Filter(0, false, Eq, Signed, 2)], [2];
    assert fs[0].col == 0 && fs[1].Value() == Val(Signed, 2);
    assert LastOn(fs, 0, Val(Signed, 2));
    assert HasEq(fs, 0);
    assert fs[..1] == [fs[0]] && [fs[0]][..0] == [];
    assert !Holds(fs[0], row[0]);
    assert Numbers([Val(Signed, 2)]) == [2];
  }
}
