/**
Answering a WHERE of ANDs joined by OR over integer columns. When every branch has an
index that serves it, each index is asked in turn and a bitmap drops rows seen before;
otherwise every row is looked at.
*/
module OrQuery {
  import opened RowGroups
  import opened Bitmap
  import opened Filters
  import opened IntIndex
  import HI = HashIndex
  import KH = KeyHash

  type RowValues = map<nat, Values>

  /** The index taken for one branch, the values to look for, and the filters left. */
  datatype Plan = Plan(which: nat, vals: seq<KH.Val>, flts: seq<Filter>)

  /** Rows found so far; with a bitmap, each at most once. */
  class RowSet {
    var list: seq<nat>
    var bmp: XdbBmp?

    ghost predicate Valid()
      reads this, bmp
    {
      NoDup(list) && (bmp != null ==> bmp.Valid() && forall r: nat :: r in bmp.members <==> r in list)
    }

    constructor (dedup: bool)
      ensures Valid() && list == [] && (bmp != null <==> dedup) && (bmp != null ==> fresh(bmp))
    {
      list, bmp := [], null;
      new;
      if dedup {
        bmp := new XdbBmp();
      }
    }

    method Add(rid: nat)
      requires Valid() && rid < LIMIT && (bmp == null ==> rid !in list)
      modifies this`list, bmp
      ensures Valid() && forall r: nat :: r in list <==> r in old(list) || r == rid
    {
      if bmp != null {
        var has := bmp.Get(rid);
        if has {
          return;
        }
        bmp.Set(rid);
      }
      list := list + [rid];
    }
  }

  /** Rows that their columns can hold. */
  ghost predicate TableOk(table: RowValues, types: seq<KH.Column>) {
    forall r :: r in table ==> r < LIMIT && Fitting(types, table[r])
  }

  ghost predicate ColsWithin(cols: seq<nat>, width: nat) {
    Distinct(cols) && forall j :: 0 <= j < |cols| ==> cols[j] < width
  }

  ghost predicate IndexesRow(rows: Rows, table: RowValues, cols: seq<nat>, r: nat) {
    && (r in rows <==> r in table)
    && (r in rows ==> (forall j :: 0 <= j < |cols| ==> cols[j] < |table[r]|) && rows[r] == KeyOf(cols, table[r]))
  }

  ghost predicate IndexesTable(rows: Rows, table: RowValues, cols: seq<nat>) {
    forall r {:trigger IndexesRow(rows, table, cols, r)} :: IndexesRow(rows, table, cols, r)
  }

  /** The column types of an index. */
  ghost function TypesOf(cols: seq<nat>, types: seq<KH.Column>): (ts: seq<KH.Column>)
    ensures |ts| == |cols| && forall j :: 0 <= j < |cols| && cols[j] < |types| ==> ts[j] == types[cols[j]]
  {
    seq(|cols|, j requires 0 <= j < |cols| => if cols[j] < |types| then types[cols[j]] else KH.BigInt)
  }

  /** The index holds the key columns of the rows, and hashes them as their types say. */
  ghost predicate IndexOk(index: HI.HashIndex, table: RowValues, cols: seq<nat>, types: seq<KH.Column>)
    reads index
  {
    index.Valid() && IndexesTable(index.rows, table, cols) && HashesBy(index, TypesOf(cols, types))
  }

  /** The values, and a row that reads as they do, hash alike. */
  ghost predicate SameHash(cols: seq<nat>, types: seq<KH.Column>, vals: seq<KH.Val>) {
    KH.Stored(TypesOf(cols, types), KH.Numbers(vals)) == KH.Sought(vals)
  }

  /** Asks an index for a plan's values, and adds the visible rows that pass the filters left. */
  method IdxQuery(index: HI.HashIndex, plan: Plan, table: RowValues, visible: set<nat>, rowSet: RowSet,
      ghost cols: seq<nat>, ghost types: seq<KH.Column>)
    requires IndexOk(index, table, cols, types) && TableOk(table, types)
    requires rowSet.Valid() && (rowSet.bmp == null ==> rowSet.list == []) && ColsOk(plan.flts, types)
    modifies rowSet`list, rowSet.bmp
    ensures rowSet.Valid()
    ensures forall r: nat :: r in rowSet.list <==>
      r in old(rowSet.list)
      || (r in table && r in visible && SameHash(cols, types, plan.vals) &&
        Routed(cols, plan.vals, plan.flts, table[r]))
  {
    var rids := QueryValues(index, TypesOf(cols, types), plan.vals);
    RoutedRids(index.rows, table, cols, plan, rids, SameHash(cols, types, plan.vals));
    AddRows(rids, plan, table, visible, rowSet, types);
  }

  lemma {:induction false} RoutedRids(rows: Rows, table: RowValues, cols: seq<nat>, plan: Plan, rids: seq<nat>,
        same: bool)
    requires IndexesTable(rows, table, cols)
    requires forall r :: r in rids <==> r in rows && rows[r] == KH.Numbers(plan.vals) && same
    ensures forall r :: r in rids ==> r in table
    ensures forall r: nat :: r in table ==>
      (same && Routed(cols, plan.vals, plan.flts, table[r]) <==> r in rids && AllHold(plan.flts, table[r]))
  {
    forall r: nat
      ensures r in rids ==> r in table
      ensures r in table ==> (same && Routed(cols, plan.vals, plan.flts, table[r]) <==>
        r in rids && AllHold(plan.flts, table[r]))
    {
      assert IndexesRow(rows, table, cols, r);
    }
  }

  method AddRows(rids: seq<nat>, plan: Plan, table: RowValues, visible: set<nat>, rowSet: RowSet,
        ghost types: seq<KH.Column>)
    requires NoDup(rids) && (forall r :: r in rids ==> r in table) && TableOk(table, types) && ColsOk(plan.flts, types)
    requires rowSet.Valid() && (rowSet.bmp == null ==> rowSet.list == [])
    modifies rowSet`list, rowSet.bmp
    ensures rowSet.Valid()
    ensures forall r: nat :: r in rowSet.list <==>
      r in old(rowSet.list) || (r in rids && r in visible && AllHold(plan.flts, table[r]))
  {
    for i := 0 to |rids|
      invariant rowSet.Valid()
      invariant forall r: nat :: r in rowSet.list <==>
        r in old(rowSet.list) || (r in rids[..i] && r in visible && AllHold(plan.flts, table[r]))
    {
      var rid := rids[i];
      assert rid in rids && rid !in rids[..i] && rids[..i + 1] == rids[..i] + [rid];
      if rid in visible {
        var good := plan.flts == [];
        if !good {
          good := RowAndMatch(table[rid], plan.flts);
        }
        if good {
          rowSet.Add(rid);
        }
      }
    }
    assert rids[..|rids|] == rids;
  }

  // ----- planning

  ghost predicate Served(idxCols: seq<seq<nat>>, fs: seq<Filter>) {
    exists i :: 0 <= i < |idxCols| && Serves(idxCols[i], fs)
  }

  /** Picks an index for every branch, or gives up. */
  method ParseWhere(idxCols: seq<seq<nat>>, branches: seq<seq<Filter>>) returns (useIdx: bool, plans: seq<Plan>)
    requires forall i :: 0 <= i < |idxCols| ==> Distinct(idxCols[i])
    ensures useIdx <==> forall b :: 0 <= b < |branches| ==> Served(idxCols, branches[b])
    ensures useIdx ==> |plans| == |branches| && forall b :: 0 <= b < |plans| ==> PlanFor(idxCols, branches[b], plans[b])
  {
    useIdx, plans := true, [];
    for b := 0 to |branches|
      invariant useIdx <==> forall c :: 0 <= c < b ==> Served(idxCols, branches[c])
      invariant useIdx ==> |plans| == b && forall c :: 0 <= c < b ==> PlanFor(idxCols, branches[c], plans[c])
    {
      if useIdx {
        var bmp := EqColumns(branches[b]);
        var which, vals, flts;
        useIdx, which, vals, flts := FindIdx(idxCols, branches[b], bmp);
        plans := plans + [Plan(which, vals, flts)];
      }
    }
  }

  /** The index taken for a branch: the first one that serves it. */
  ghost predicate First(idxCols: seq<seq<nat>>, fs: seq<Filter>, i: nat) {
    i < |idxCols| && Serves(idxCols[i], fs) && forall j :: 0 <= j < i ==> !Serves(idxCols[j], fs)
  }

  ghost predicate PlanFor(idxCols: seq<seq<nat>>, fs: seq<Filter>, plan: Plan) {
    First(idxCols, fs, plan.which) && Taken(idxCols[plan.which], fs, plan.vals, plan.flts)
  }

  // ----- answering

  /** The rows a WHERE asks for; all rows when there is none. */
  ghost predicate Wanted(branches: seq<seq<Filter>>, row: Values) {
    branches == [] || exists b :: 0 <= b < |branches| && AllHold(branches[b], row)
  }

  /** Every row up to the last id, checked branch by branch. */
  method FullScan(branches: seq<seq<Filter>>, table: RowValues, visible: set<nat>, maxRid: nat,
        ghost types: seq<KH.Column>)
    returns (rids: seq<nat>)
    requires TableOk(table, types) && forall b :: 0 <= b < |branches| ==> ColsOk(branches[b], types)
    requires forall r :: r in visible ==> r in table && 1 <= r <= maxRid
    ensures NoDup(rids) && forall r: nat :: r in rids <==> r in visible && Wanted(branches, table[r])
  {
    rids := [];
    for r := 1 to maxRid + 1
      invariant NoDup(rids) && forall x: nat :: x in rids <==> x in visible && x < r && Wanted(branches, table[x])
    {
      if r in visible {
        var good := AnyMatch(branches, table[r], types);
        if good {
          rids := rids + [r];
        }
      }
    }
  }

  method AnyMatch(branches: seq<seq<Filter>>, row: Values, ghost types: seq<KH.Column>) returns (good: bool)
    requires |row| == |types| && forall b :: 0 <= b < |branches| ==> ColsOk(branches[b], types)
    ensures good <==> Wanted(branches, row)
    ensures good <==> branches == [] || exists b :: 0 <= b < |branches| && AllHold(branches[b], row)
  {
    if branches == [] {
      return true;
    }
    for b := 0 to |branches|
      invariant forall c :: 0 <= c < b ==> !AllHold(branches[c], row)
    {
      var m := RowAndMatch(row, branches[b]);
      if m {
        return true;
      }
    }
    return false;
  }

  lemma {:induction false} PlanFilters(cols: seq<nat>, fs: seq<Filter>, flts: seq<Filter>, types: seq<KH.Column>)
    requires ColsOk(fs, types) && flts == Others(cols, fs)
    ensures ColsOk(flts, types)
  {
    OthersAre(cols, fs);
    forall i | 0 <= i < |flts|
      ensures flts[i].col < |types| && flts[i].unsigned == types[flts[i].col].Unsigned()
    {
      assert flts[i] in flts;
    }
  }

  /** Asks the index of every branch; a bitmap keeps rows from coming twice when there are several. */
  method IndexQuery(indexes: seq<HI.HashIndex>, plans: seq<Plan>, table: RowValues, visible: set<nat>,
        ghost types: seq<KH.Column>, ghost idxCols: seq<seq<nat>>, ghost branches: seq<seq<Filter>>)
    returns (rids: seq<nat>)
    requires |indexes| == |idxCols| && |plans| == |branches| && TableOk(table, types)
    requires forall i :: 0 <= i < |indexes| ==> IndexOk(indexes[i], table, idxCols[i], types)
    requires forall b :: 0 <= b < |branches| ==> ColsOk(branches[b], types) && PlanFor(idxCols, branches[b], plans[b])
    ensures NoDup(rids)
    ensures forall r: nat :: r in rids <==>
      r in table && r in visible && AnyRouted(idxCols, types, plans, table[r], |plans|)
  {
    var rowSet := new RowSet(|plans| > 1);
    for b := 0 to |plans|
      invariant rowSet.Valid() && fresh(rowSet) && (rowSet.bmp != null ==> fresh(rowSet.bmp)) &&
        (rowSet.bmp != null <==> |plans| > 1)
      invariant b == 0 ==> rowSet.list == []
      invariant forall r: nat :: r in rowSet.list <==>
        r in table && r in visible && AnyRouted(idxCols, types, plans, table[r], b)
    {
      var plan := plans[b];
      assert PlanFor(idxCols, branches[b], plan);
      PlanFilters(idxCols[plan.which], branches[b], plan.flts, types);
      IdxQuery(indexes[plan.which], plan, table, visible, rowSet, idxCols[plan.which], types);
      OneMoreRouted(idxCols, types, plans, table, b);
    }
    rids := rowSet.list;
  }

  ghost predicate PlanRouted(idxCols: seq<seq<nat>>, types: seq<KH.Column>, plan: Plan, row: Values) {
    && plan.which < |idxCols| && SameHash(idxCols[plan.which], types, plan.vals)
    && Routed(idxCols[plan.which], plan.vals, plan.flts, row)
  }

  ghost predicate AnyRouted(idxCols: seq<seq<nat>>, types: seq<KH.Column>, plans: seq<Plan>, row: Values, n: nat)
    requires n <= |plans|
  {
    exists b :: 0 <= b < n && PlanRouted(idxCols, types, plans[b], row)
  }

  lemma {:induction false} OneMoreRouted(idxCols: seq<seq<nat>>, types: seq<KH.Column>, plans: seq<Plan>,
        table: RowValues, b: nat)
    requires b < |plans| && plans[b].which < |idxCols|
    ensures forall r: nat :: r in table ==>
      (AnyRouted(idxCols, types, plans, table[r], b + 1) <==>
        AnyRouted(idxCols, types, plans, table[r], b) || PlanRouted(idxCols, types, plans[b], table[r]))
  {
    forall r: nat | r in table
      ensures AnyRouted(idxCols, types, plans, table[r], b + 1) <==>
        AnyRouted(idxCols, types, plans, table[r], b) || PlanRouted(idxCols, types, plans[b], table[r])
    {
    }
  }

  // ----- what the index route answers, said of the filters alone

  /** The row has the last filter's value on every index column, hashed as a row is, and the other filters hold. */
  ghost predicate Reached(cols: seq<nat>, types: seq<KH.Column>, fs: seq<Filter>, row: Values) {
    exists vals: seq<KH.Val> :: LastVals(cols, fs, vals) && SameHash(cols, types, vals) &&
      Routed(cols, vals, Others(cols, fs), row)
  }

  ghost predicate LastVals(cols: seq<nat>, fs: seq<Filter>, vals: seq<KH.Val>) {
    |vals| == |cols| && forall j :: 0 <= j < |cols| ==> LastOn(fs, cols[j], vals[j])
  }

  ghost predicate BranchReached(idxCols: seq<seq<nat>>, types: seq<KH.Column>, fs: seq<Filter>, row: Values) {
    exists i: nat :: First(idxCols, fs, i) && Reached(idxCols[i], types, fs, row)
  }

  lemma {:induction false} RoutedIsReached(cols: seq<nat>, types: seq<KH.Column>, fs: seq<Filter>, vals: seq<KH.Val>,
        flts: seq<Filter>, row: Values)
    requires Taken(cols, fs, vals, flts)
    ensures SameHash(cols, types, vals) && Routed(cols, vals, flts, row) <==> Reached(cols, types, fs, row)
  {
    assert LastVals(cols, fs, vals);
    if Reached(cols, types, fs, row) {
      var ws: seq<KH.Val> :| LastVals(cols, fs, ws) && SameHash(cols, types, ws) &&
        Routed(cols, ws, Others(cols, fs), row);
      forall j | 0 <= j < |cols|
        ensures ws[j] == vals[j]
      {
        OneLast(fs, cols[j], ws[j], vals[j]);
      }
      assert ws == vals;
    }
  }

  lemma {:induction false} PlanIsBranch(idxCols: seq<seq<nat>>, types: seq<KH.Column>, fs: seq<Filter>, plan: Plan,
        row: Values)
    requires PlanFor(idxCols, fs, plan) && forall i :: 0 <= i < |idxCols| ==> ColsWithin(idxCols[i], |row|)
    ensures PlanRouted(idxCols, types, plan, row) <==> BranchReached(idxCols, types, fs, row)
  {
    RoutedIsReached(idxCols[plan.which], types, fs, plan.vals, plan.flts, row);
    if BranchReached(idxCols, types, fs, row) {
      var i: nat :| First(idxCols, fs, i) && Reached(idxCols[i], types, fs, row);
      OneFirst(idxCols, fs, i, plan.which);
    }
  }

  lemma {:induction false} OneFirst(idxCols: seq<seq<nat>>, fs: seq<Filter>, i: nat, j: nat)
    requires First(idxCols, fs, i) && First(idxCols, fs, j)
    ensures i == j
  {
  }

  // ----- when that is what the filters ask for

  /** The index route gives what a branch asks for, whatever rows the columns can hold. */
  ghost predicate RightFor(idxCols: seq<seq<nat>>, types: seq<KH.Column>, fs: seq<Filter>) {
    forall r: Values :: Fitting(types, r) ==> (BranchReached(idxCols, types, fs, r) <==> AllHold(fs, r))
  }

  /** The last value on every index column hashes as a row with that value does. */
  ghost predicate HashSound(cols: seq<nat>, types: seq<KH.Column>, fs: seq<Filter>) {
    forall l: nat :: IsLast(fs, l) && fs[l].col in cols && fs[l].col < |types| ==>
      KH.SameBits(types[fs[l].col], fs[l].Value())
  }

  /** With columns of 32 or 64 bits and signed values it always does. */
  lemma {:induction false} WideSound(cols: seq<nat>, types: seq<KH.Column>, fs: seq<Filter>)
    requires forall j :: 0 <= j < |cols| && cols[j] < |types| ==> types[cols[j]].Range() >= KH.W32
    requires forall i :: 0 <= i < |fs| && fs[i].col in cols ==> fs[i].typ == KH.Signed
    ensures HashSound(cols, types, fs)
  {
    forall l: nat | IsLast(fs, l) && fs[l].col in cols && fs[l].col < |types|
      ensures KH.SameBits(types[fs[l].col], fs[l].Value())
    {
      KH.WideSame(types[fs[l].col], fs[l].Value());
    }
  }

  /** A branch can be answered by its first index: the last filters agree with the others, and hash as rows do. */
  ghost predicate BranchSound(idxCols: seq<seq<nat>>, types: seq<KH.Column>, fs: seq<Filter>) {
    forall i: nat :: First(idxCols, fs, i) ==> LastAgrees(idxCols[i], fs) && HashSound(idxCols[i], types, fs)
  }

  lemma {:induction false} SoundHash(cols: seq<nat>, types: seq<KH.Column>, fs: seq<Filter>, vals: seq<KH.Val>,
        flts: seq<Filter>)
    requires Taken(cols, fs, vals, flts) && ColsWithin(cols, |types|) && HashSound(cols, types, fs)
    ensures SameHash(cols, types, vals)
  {
    forall j | 0 <= j < |vals|
      ensures KH.SameBits(TypesOf(cols, types)[j], vals[j])
    {
      assert LastOn(fs, cols[j], vals[j]);
      var l :| 0 <= l < |fs| && fs[l].col == cols[j] && fs[l].Value() == vals[j] &&
        forall m :: l < m < |fs| ==> fs[m].col != cols[j];
      assert IsLast(fs, l) && cols[j] in cols;
    }
    KH.OneHash(TypesOf(cols, types), vals);
  }

  /** A branch and the plan made for it. */
  ghost predicate Planned(idxCols: seq<seq<nat>>, types: seq<KH.Column>, fs: seq<Filter>, plan: Plan) {
    PlanFor(idxCols, fs, plan) && forall i :: 0 <= i < |idxCols| ==> ColsWithin(idxCols[i], |types|)
  }

  /** A sound branch reaches exactly the rows all its filters hold of. */
  lemma {:induction false} SoundIsScan(idxCols: seq<seq<nat>>, types: seq<KH.Column>, fs: seq<Filter>, plan: Plan,
        row: Values)
    requires Planned(idxCols, types, fs, plan) && BranchSound(idxCols, types, fs) && |types| == |row|
    ensures BranchReached(idxCols, types, fs, row) <==> AllHold(fs, row)
  {
    var cols := idxCols[plan.which];
    PlanIsBranch(idxCols, types, fs, plan, row);
    SoundHash(cols, types, fs, plan.vals, plan.flts);
    LastIsConsistent(cols, fs, plan.vals, plan.flts);
    RouteIsScan(cols, fs, plan.vals, plan.flts, row);
  }

  lemma {:induction false} SoundIsRight(idxCols: seq<seq<nat>>, types: seq<KH.Column>, fs: seq<Filter>, plan: Plan)
    requires Planned(idxCols, types, fs, plan) && BranchSound(idxCols, types, fs)
    ensures RightFor(idxCols, types, fs)
  {
    forall r: Values | Fitting(types, r)
      ensures BranchReached(idxCols, types, fs, r) <==> AllHold(fs, r)
    {
      SoundIsScan(idxCols, types, fs, plan, r);
    }
  }

  /** Values that some row of the index can have, and that hash as such a row does. */
  ghost predicate Reachable(idxCols: seq<seq<nat>>, types: seq<KH.Column>, plan: Plan)
    requires plan.which < |idxCols|
  {
    var cols := idxCols[plan.which];
    ValsFit(cols, types, plan.vals) && SameHash(cols, types, plan.vals)
  }

  /** A branch that can reach rows is right exactly when its last filters agree with the others. */
  lemma {:induction false} OnlyAgreeing(idxCols: seq<seq<nat>>, types: seq<KH.Column>, fs: seq<Filter>, plan: Plan,
        row: Values)
    requires Planned(idxCols, types, fs, plan) && Reachable(idxCols, types, plan)
    requires Fitting(types, row) && AllHold(plan.flts, row)
    ensures RightFor(idxCols, types, fs) <==> LastAgrees(idxCols[plan.which], fs)
  {
    var cols := idxCols[plan.which];
    LastIsConsistent(cols, fs, plan.vals, plan.flts);
    forall r: Values | Fitting(types, r)
      ensures BranchReached(idxCols, types, fs, r) <==> Routed(cols, plan.vals, plan.flts, r)
      ensures LastAgrees(cols, fs) ==> (Routed(cols, plan.vals, plan.flts, r) <==> AllHold(fs, r))
    {
      PlanIsBranch(idxCols, types, fs, plan, r);
      if LastAgrees(cols, fs) {
        RouteIsScan(cols, fs, plan.vals, plan.flts, r);
      }
    }
    if RightFor(idxCols, types, fs) {
      OnlyConsistent(cols, types, fs, plan.vals, plan.flts, row);
    }
  }

  /**
  One that can reach none is right exactly when some index column has no equality whose value
  the column can hold and meets all filters on it: then no row is asked for.
  */
  lemma {:induction false} OnlyUnasked(idxCols: seq<seq<nat>>, types: seq<KH.Column>, fs: seq<Filter>, plan: Plan,
        row: Values)
    requires Planned(idxCols, types, fs, plan) && !Reachable(idxCols, types, plan)
    requires Fitting(types, row) && AllHold(plan.flts, row)
    ensures RightFor(idxCols, types, fs) <==> !EqAgrees(idxCols[plan.which], types, fs)
  {
    forall r: Values | Fitting(types, r)
      ensures !BranchReached(idxCols, types, fs, r)
    {
      PlanIsBranch(idxCols, types, fs, plan, r);
      NotRouted(idxCols[plan.which], types, plan, r);
    }
    SomeRow(idxCols[plan.which], types, fs, row);
  }

  lemma {:induction false} NotRouted(cols: seq<nat>, types: seq<KH.Column>, plan: Plan, r: Values)
    requires Fitting(types, r) && |plan.vals| == |cols|
    ensures Routed(cols, plan.vals, plan.flts, r) ==> ValsFit(cols, types, plan.vals)
  {
    if Routed(cols, plan.vals, plan.flts, r) {
      forall j | 0 <= j < |cols|
        ensures InLong(plan.vals[j].ival) && types[cols[j]].Fits(plan.vals[j].ival)
      {
        assert KeyOf(cols, r)[j] == KH.Numbers(plan.vals)[j] == r[cols[j]];
      }
    }
  }

  /** When no row passes the filters left it is right. */
  lemma {:induction false} NoneLeft(idxCols: seq<seq<nat>>, types: seq<KH.Column>, fs: seq<Filter>, plan: Plan)
    requires Planned(idxCols, types, fs, plan) && forall r: Values :: Fitting(types, r) ==> !AllHold(plan.flts, r)
    ensures RightFor(idxCols, types, fs)
  {
    forall r: Values | Fitting(types, r)
      ensures !BranchReached(idxCols, types, fs, r) && !AllHold(fs, r)
    {
      PlanIsBranch(idxCols, types, fs, plan, r);
      OthersAre(idxCols[plan.which], fs);
      AllHoldIn(plan.flts, r);
      AllHoldIn(fs, r);
    }
  }

  /** So for every branch: whether its index route is right of all rows that the columns can hold. */
  lemma {:induction false} RightExactly(idxCols: seq<seq<nat>>, types: seq<KH.Column>, fs: seq<Filter>, plan: Plan)
    requires Planned(idxCols, types, fs, plan)
    ensures RightFor(idxCols, types, fs) <==>
      ((exists row: Values :: Fitting(types, row) && AllHold(plan.flts, row)) ==>
        if Reachable(idxCols, types, plan) then LastAgrees(idxCols[plan.which], fs)
        else !EqAgrees(idxCols[plan.which], types, fs))
  {
    if row: Values :| Fitting(types, row) && AllHold(plan.flts, row) {
      if Reachable(idxCols, types, plan) {
        OnlyAgreeing(idxCols, types, fs, plan, row);
      } else {
        OnlyUnasked(idxCols, types, fs, plan, row);
      }
    } else {
      NoneLeft(idxCols, types, fs, plan);
    }
  }

  /** With filters that agree, and values that the columns can hold, it is right exactly when they hash as rows do. */
  lemma {:induction false} OnlyHashed(idxCols: seq<seq<nat>>, types: seq<KH.Column>, fs: seq<Filter>, plan: Plan,
        row: Values)
    requires Planned(idxCols, types, fs, plan) && LastAgrees(idxCols[plan.which], fs)
    requires ValsFit(idxCols[plan.which], types, plan.vals) && Fitting(types, row) && AllHold(plan.flts, row)
    ensures RightFor(idxCols, types, fs) <==> SameHash(idxCols[plan.which], types, plan.vals)
  {
    var cols := idxCols[plan.which];
    if SameHash(cols, types, plan.vals) {
      OnlyAgreeing(idxCols, types, fs, plan, row);
    } else {
      OnlyUnasked(idxCols, types, fs, plan, row);
      AgreeingMet(cols, types, fs, plan.vals, plan.flts);
    }
  }

  lemma {:induction false} AgreeingMet(cols: seq<nat>, types: seq<KH.Column>, fs: seq<Filter>, vals: seq<KH.Val>,
        flts: seq<Filter>)
    requires Serves(cols, fs) && Taken(cols, fs, vals, flts) && LastAgrees(cols, fs) && ValsFit(cols, types, vals)
    ensures EqAgrees(cols, types, fs)
  {
    LastIsConsistent(cols, fs, vals, flts);
    forall j | 0 <= j < |cols|
      ensures cols[j] < |types| && exists e :: EqMeets(fs, types[cols[j]], cols[j], e)
    {
      assert HasEq(fs, cols[j]);
      var e :| 0 <= e < |fs| && fs[e].col == cols[j] && fs[e].op == Eq;
      HoldsMeans(fs[e], vals[j].ival);
      assert fs[e].val == vals[j].ival;
      assert EqMeets(fs, types[cols[j]], cols[j], e);
    }
  }

  /** An INT UNSIGNED column bound to 5: the route finds the row, and the filter does not hold of it. */
  lemma {:induction false} BoundUnsigned() returns (fs: seq<Filter>, row: Values)
    ensures Fitting([KH.UInt], row) && BranchReached([[0]], [KH.UInt], fs, row) && !AllHold(fs, row)
  {
    fs, row := [Filter(0, true, Eq, KH.Signed, 5)], [5];
    var vals := [KH.Bound(5)];
    assert fs[0].Value() == vals[0] && LastOn(fs, 0, vals[0]) && HasEq(fs, 0);
    assert fs[..0] == [] && Others([0], fs) == [];
    assert First([[0]], fs, 0) && LastVals([0], fs, vals);
    KH.WideSame(KH.UInt, vals[0]);
    KH.OneColumn(KH.UInt, vals[0]);
    assert TypesOf([0], [KH.UInt]) == [KH.UInt] && KH.Numbers(vals) == [5] == KeyOf([0], row);
    assert Reached([0], [KH.UInt], fs, row);
    assert !Holds(fs[0], row[0]);
  }

  lemma {:induction false} AnyBranch(idxCols: seq<seq<nat>>, types: seq<KH.Column>, plans: seq<Plan>,
        branches: seq<seq<Filter>>, row: Values)
    requires |plans| == |branches| && forall b :: 0 <= b < |branches| ==> PlanFor(idxCols, branches[b], plans[b])
    requires Fitting(types, row) && forall i :: 0 <= i < |idxCols| ==> ColsWithin(idxCols[i], |row|)
    ensures AnyRouted(idxCols, types, plans, row, |plans|) <==> AnyReached(idxCols, types, branches, row)
    ensures branches != [] && (forall b :: 0 <= b < |branches| ==> RightFor(idxCols, types, branches[b])) ==>
      (AnyReached(idxCols, types, branches, row) <==> Wanted(branches, row))
  {
    forall b | 0 <= b < |branches|
      ensures PlanRouted(idxCols, types, plans[b], row) <==> BranchReached(idxCols, types, branches[b], row)
    {
      assert PlanFor(idxCols, branches[b], plans[b]);
      PlanIsBranch(idxCols, types, branches[b], plans[b], row);
    }
  }

  lemma {:induction false} AllSound(idxCols: seq<seq<nat>>, types: seq<KH.Column>, plans: seq<Plan>,
        branches: seq<seq<Filter>>)
    requires |plans| == |branches| && forall b :: 0 <= b < |branches| ==> PlanFor(idxCols, branches[b], plans[b])
    requires forall i :: 0 <= i < |idxCols| ==> ColsWithin(idxCols[i], |types|)
    ensures forall b :: 0 <= b < |branches| && BranchSound(idxCols, types, branches[b]) ==>
      RightFor(idxCols, types, branches[b])
  {
    forall b | 0 <= b < |branches| && BranchSound(idxCols, types, branches[b])
      ensures RightFor(idxCols, types, branches[b])
    {
      SoundIsRight(idxCols, types, branches[b], plans[b]);
    }
  }

  ghost predicate AnyReached(idxCols: seq<seq<nat>>, types: seq<KH.Column>, branches: seq<seq<Filter>>, row: Values) {
    exists b :: 0 <= b < |branches| && BranchReached(idxCols, types, branches[b], row)
  }

  /** Whether the query goes through indexes. */
  ghost predicate UsesIndexes(idxCols: seq<seq<nat>>, branches: seq<seq<Filter>>) {
    branches != [] && forall b :: 0 <= b < |branches| ==> Served(idxCols, branches[b])
  }

  /**
  The rows of a WHERE, through indexes or by a full scan, each once. By a full scan they are
  the visible rows that some branch holds of; through indexes too when every branch is right,
  or sound, for the first index that serves it.
  */
  method SqlQuery(indexes: seq<HI.HashIndex>, idxCols: seq<seq<nat>>, ghost types: seq<KH.Column>,
        branches: seq<seq<Filter>>, table: RowValues, visible: set<nat>, maxRid: nat)
    returns (rids: seq<nat>)
    requires |indexes| == |idxCols| && TableOk(table, types)
    requires forall i :: 0 <= i < |indexes| ==>
      IndexOk(indexes[i], table, idxCols[i], types) && ColsWithin(idxCols[i], |types|)
    requires forall b :: 0 <= b < |branches| ==> ColsOk(branches[b], types)
    requires forall r :: r in visible ==> r in table && 1 <= r <= maxRid
    ensures NoDup(rids) && forall r: nat :: r in rids ==> r in visible
    ensures UsesIndexes(idxCols, branches) ==>
      forall r: nat :: r in rids <==> r in visible && AnyReached(idxCols, types, branches, table[r])
    ensures (UsesIndexes(idxCols, branches) ==>
      forall b :: 0 <= b < |branches| ==> RightFor(idxCols, types, branches[b])) ==>
      forall r: nat :: r in rids <==> r in visible && Wanted(branches, table[r])
    ensures (UsesIndexes(idxCols, branches) ==>
      forall b :: 0 <= b < |branches| ==> BranchSound(idxCols, types, branches[b])) ==>
      forall r: nat :: r in rids <==> r in visible && Wanted(branches, table[r])
  {
    if branches != [] {
      var useIdx, plans := ParseWhere(idxCols, branches);
      if useIdx {
        rids := IndexQuery(indexes, plans, table, visible, types, idxCols, branches);
        AllSound(idxCols, types, plans, branches);
        forall r: nat | r in table
          ensures AnyRouted(idxCols, types, plans, table[r], |plans|) <==>
            AnyReached(idxCols, types, branches, table[r])
          ensures (forall b :: 0 <= b < |branches| ==> RightFor(idxCols, types, branches[b])) ==>
            (AnyReached(idxCols, types, branches, table[r]) <==> Wanted(branches, table[r]))
        {
          AnyBranch(idxCols, types, plans, branches, table[r]);
        }
        return;
      }
    }
    rids := FullScan(branches, table, visible, maxRid, types);
  }
}
