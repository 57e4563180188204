/** The flow engine of directed percolation: `FlowFrom` floods the flow grid in
    place from one site, `DirFlow` floods it from every site of the top row of a
    fresh all-zero grid, and `Percolates` looks for fluid in its last row.

    The site-vacancy grid is only read, so it is the value `sites`; the flow
    grid is written cell by cell, so it is an `array2<int>` whose cells hold
    `1` once full. */
module DirectPerc {
  import opened Lattice

  /** The cells of an `m` by `n` grid. */
  function Cells(m: int, n: int): set<Cell> {
    set a, b | 0 <= a < m && 0 <= b < n :: (a, b)
  }

  /** The cells of the flow grid that hold `1`. */
  ghost function Filled(full: array2<int>): set<Cell>
    reads full
  {
    set x | x in Cells(full.Length0, full.Length1) && full[x.0, x.1] == 1
  }

  /** A cell is in `Filled` exactly when it lies in the grid and holds `1`. */
  lemma FilledCells(full: array2<int>)
    ensures forall a, b :: (a, b) in Filled(full) <==>
      0 <= a < full.Length0 && 0 <= b < full.Length1 && full[a, b] == 1
  {
  }

  /** Floods `full` from site (i, j): every site that fluid entering there can
      reach through vacant sites that are not yet full becomes `1`, and every
      other cell keeps its value. A call outside the grid, on a blocked site or
      on a full one changes nothing. */
  method FlowFrom(sites: Grid, full: array2<int>, i: int, j: int)
    requires IsSquare(sites)
    requires full.Length0 == |sites| && full.Length1 == |sites|
    modifies full
    ensures forall a, b :: 0 <= a < full.Length0 && 0 <= b < full.Length1 ==>
      (full[a, b] == 1 || full[a, b] == old(full[a, b]))
    ensures FloodedFrom(sites, old(Filled(full)), Filled(full), (i, j))
    ensures !Open(sites, old(Filled(full)), (i, j)) ==> unchanged(full)
    decreases Unfilled(sites, Filled(full))
  {
    var n := |sites|;
    if i < n && j < n && i >= 0 && j >= 0 && sites[i][j] == 1 && full[i, j] != 1 {
      ghost var c := (i, j);
      ghost var f0 := Filled(full);
      full[i, j] := 1;
      ghost var f1 := Filled(full);
      assert f1 == f0 + {c};
      UnfilledShrinks(sites, f0, f1, c);
      FlowFrom(sites, full, i + 1, j);
      ghost var f2 := Filled(full);
      assert f1 <= f2;
      UnfilledShrinks(sites, f0, f2, c);
      FlowFrom(sites, full, i, j + 1);
      ghost var f3 := Filled(full);
      assert f2 <= f3;
      UnfilledShrinks(sites, f0, f3, c);
      FlowFrom(sites, full, i, j - 1);
      FloodComposesDownRightLeft(sites, f0, f1, f2, f3, Filled(full), i, j);
    } else {
      FloodFromShutSite(sites, Filled(full), (i, j));
    }
  }

  /** A fresh flow grid of the same shape as `sites` whose full cells are
      exactly the sites reached from the top row: the flood from every top-row
      site of an all-zero grid. */
  method DirFlow(sites: Grid) returns (full: array2<int>)
    requires IsSquare(sites)
    ensures fresh(full)
    ensures full.Length0 == |sites| && full.Length1 == |sites|
    ensures forall a, b :: 0 <= a < full.Length0 && 0 <= b < full.Length1 ==>
      (full[a, b] == 0 || full[a, b] == 1)
    ensures forall a, b :: 0 <= a < full.Length0 && 0 <= b < full.Length1 ==>
      (full[a, b] == 1 <==> Reachable(sites, (a, b)))
    ensures forall a, b :: 0 <= a < full.Length0 && 0 <= b < full.Length1 && full[a, b] == 1 ==>
      sites[a][b] == 1
  {
    var n := |sites|;
    full := new int[n, n]((a, b) => 0);
    FilledCells(full);
    assert Filled(full) == {};
    for s := 0 to n
      invariant forall a, b :: 0 <= a < n && 0 <= b < n ==> (full[a, b] == 0 || full[a, b] == 1)
      invariant FloodedTopPrefix(sites, Filled(full), s)
    {
      ghost var before := Filled(full);
      FlowFrom(sites, full, 0, s);
      FloodTopStep(sites, before, Filled(full), s);
    }
    FloodedTopIsReach(sites, Filled(full));
    FilledCells(full);
    forall a, b | 0 <= a < n && 0 <= b < n && full[a, b] == 1
      ensures sites[a][b] == 1
    {
      ReachableIsVacant(sites, (a, b));
    }
  }

  /** Sum of the first `k` cells of row `r`. A non-zero sum needs a non-zero
      cell; on cells of zeros and ones it counts the ones, so it lies between
      0 and `k`. */
  function RowSum(flow: array2<int>, r: int, k: int): (sum: int)
    reads flow
    requires 0 <= r < flow.Length0 && 0 <= k <= flow.Length1
    ensures sum != 0 ==> exists c: Cell :: c.0 == r && 0 <= c.1 < k && flow[c.0, c.1] != 0
    ensures (forall b :: 0 <= b < k ==> 0 <= flow[r, b] <= 1) ==> 0 <= sum <= k
  {
    if k == 0 then 0
    else
      var last: Cell := (r, k - 1);
      assert flow[last.0, last.1] == flow[r, k - 1];
      RowSum(flow, r, k - 1) + flow[r, k - 1]
  }

  /** The flow grid percolates when its last row sums to more than zero; fluid
      must then stand in some cell of that row. */
  function Percolates(flow: array2<int>): (percolating: bool)
    reads flow
    requires flow.Length0 >= 1
    ensures percolating ==>
      exists c: Cell :: c.0 == flow.Length0 - 1 && 0 <= c.1 < flow.Length1 && flow[c.0, c.1] != 0
  {
    RowSum(flow, flow.Length0 - 1, flow.Length1) > 0
  }

  /** Over non-negative cells, a row sums to more than zero exactly when one of
      its cells is non-zero. */
  lemma {:induction false} RowSumPositive(flow: array2<int>, r: int, k: int)
    requires 0 <= r < flow.Length0 && 0 <= k <= flow.Length1
    requires forall b :: 0 <= b < k ==> flow[r, b] >= 0
    ensures RowSum(flow, r, k) >= 0
    ensures RowSum(flow, r, k) > 0 <==> exists b :: 0 <= b < k && flow[r, b] != 0
  {
    if k > 0 {
      RowSumPositive(flow, r, k - 1);
    }
  }

  /** On a flow grid of zeros and ones, percolation means a full cell in the last row. */
  lemma PercolatesIffLastRowFull(flow: array2<int>)
    requires flow.Length0 >= 1
    requires forall a, b :: 0 <= a < flow.Length0 && 0 <= b < flow.Length1 ==>
      (flow[a, b] == 0 || flow[a, b] == 1)
    ensures Percolates(flow) <==>
      exists c: Cell :: c.0 == flow.Length0 - 1 && 0 <= c.1 < flow.Length1 && flow[c.0, c.1] == 1
  {
    var r := flow.Length0 - 1;
    RowSumPositive(flow, r, flow.Length1);
    if Percolates(flow) {
      var b :| 0 <= b < flow.Length1 && flow[r, b] != 0;
      var c: Cell := (r, b);
      assert flow[c.0, c.1] == 1;
    }
    if exists c: Cell :: c.0 == r && 0 <= c.1 < flow.Length1 && flow[c.0, c.1] == 1 {
      var c: Cell :| c.0 == r && 0 <= c.1 < flow.Length1 && flow[c.0, c.1] == 1;
      assert flow[r, c.1] != 0;
    }
  }

  /** On the flow grid `DirFlow` gives, `Percolates` decides whether fluid from
      the top row reaches the bottom row. */
  lemma PercolatesIffBottomReached(sites: Grid, flow: array2<int>)
    requires IsSquare(sites) && |sites| >= 1
    requires flow.Length0 == |sites| && flow.Length1 == |sites|
    requires forall a, b :: 0 <= a < flow.Length0 && 0 <= b < flow.Length1 ==>
      (flow[a, b] == 0 || flow[a, b] == 1)
    requires forall a, b :: 0 <= a < flow.Length0 && 0 <= b < flow.Length1 ==>
      (flow[a, b] == 1 <==> Reachable(sites, (a, b)))
    ensures Percolates(flow) <==> Percolating(sites)
  {
    var n := |sites|;
    PercolatesIffLastRowFull(flow);
    if Percolating(sites) {
      var c: Cell :| c.0 == n - 1 && 0 <= c.1 < n && Reachable(sites, c);
      assert flow[n - 1, c.1] == 1;
    }
    if Percolates(flow) {
      var c: Cell :| c.0 == n - 1 && 0 <= c.1 < n && flow[c.0, c.1] == 1;
      assert Reachable(sites, c);
    }
  }

  /** One trial: flood the grid from its top row, then ask whether fluid came
      out at the bottom. */
  method PercolationTrial(sites: Grid) returns (percolated: bool)
    requires IsSquare(sites) && |sites| >= 1
    ensures percolated <==> Percolating(sites)
  {
    var flow := DirFlow(sites);
    PercolatesIffBottomReached(sites, flow);
    percolated := Percolates(flow);
  }
}
