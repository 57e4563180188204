/** Particular lattices: the fully vacant and fully blocked grids that the
    sweep meets at vacancy probability 1 and 0, and small literal grids. */
module Scenarios {
  import opened Lattice

  /** The `n` by `n` grid with every site vacant. */
  function AllVacant(n: nat): (g: Grid)
    ensures |g| == n && IsSquare(g)
    ensures forall x :: InBounds(n, x) ==> Vacant(g, x)
  {
    seq(n, _ => seq(n, _ => 1))
  }

  /** The `n` by `n` grid with every site blocked. */
  function AllBlocked(n: nat): (g: Grid)
    ensures |g| == n && IsSquare(g)
    ensures forall x :: !Vacant(g, x)
  {
    seq(n, _ => seq(n, _ => 0))
  }

  /** In a fully vacant grid fluid reaches every site, straight down its column. */
  lemma FullyVacantReachesAll(n: nat, x: Cell)
    requires InBounds(n, x)
    ensures Reachable(AllVacant(n), x)
  {
    var g := AllVacant(n);
    var p: seq<Cell> := seq(x.0 + 1, k => (k, x.1));
    assert forall k :: 0 <= k < |p| ==> InBounds(n, p[k]);
    assert IsOpenPath(g, {}, p);
  }

  /** A fully vacant grid of side at least one percolates. */
  lemma FullyVacantPercolates(n: nat)
    requires n >= 1
    ensures Percolating(AllVacant(n))
  {
    FullyVacantReachesAll(n, (n - 1, 0));
  }

  /** A fully blocked grid reaches nothing, so it never percolates. */
  lemma FullyBlockedNeverPercolates(n: nat)
    ensures !Percolating(AllBlocked(n))
  {
  }

  /** The all-vacant 3 by 3 grid percolates down its first column. */
  lemma VacantThreeByThreePercolates()
    ensures Percolating([[1, 1, 1], [1, 1, 1], [1, 1, 1]])
  {
    var g := [[1, 1, 1], [1, 1, 1], [1, 1, 1]];
    var column: seq<Cell> := [(0, 0), (1, 0), (2, 0)];
    assert IsOpenPath(g, {}, column);
    assert Reachable(g, (2, 0));
  }

  /** A single vacant site is both the top and the bottom row, so it percolates. */
  lemma SingleVacantSitePercolates()
    ensures Percolating([[1]])
  {
    var g := [[1]];
    assert IsOpenPath(g, {}, [(0, 0)]);
    assert Reachable(g, (0, 0));
  }

  /** With its middle row blocked, the 3 by 3 grid does not percolate. */
  lemma BlockedMiddleRowStopsPercolation()
    ensures !Percolating([[1, 1, 1], [0, 0, 0], [1, 1, 1]])
  {
    var g := [[1, 1, 1], [0, 0, 0], [1, 1, 1]];
    forall c: Cell | c.0 == 2 && Reachable(g, c)
      ensures false
    {
      BlockedRowIsBarrier(g, 1, c);
    }
  }

  /** A grid in which the site (1, 2) is vacant and touches the reached site
      (2, 2) below it, but can only be entered by climbing. */
  function Hook(): Grid {
    [[1, 0, 0], [1, 0, 1], [1, 1, 1]]
  }

  /** No walk from the top row of `Hook()` ends at (1, 2): its three possible
      predecessors (0, 2), (1, 1) and (1, 3) are blocked or outside. */
  lemma {:induction false} HookWalksAvoidRightNotch(p: seq<Cell>)
    requires IsOpenPath(Hook(), {}, p) && p[0].0 == 0
    ensures p[|p| - 1] != (1, 2)
  {
    if |p| > 1 {
      var prev := p[|p| - 2];
      assert Open(Hook(), {}, prev);
      assert Step(prev, p[|p| - 1]);
    }
  }

  /** Fluid reaches (2, 2) of `Hook()` along the left column and the bottom row. */
  lemma HookCornerReached()
    ensures Reachable(Hook(), (2, 2))
  {
    var g := Hook();
    assert g[0][0] == g[1][0] == g[2][0] == g[2][1] == g[2][2] == 1;
    FlowsStart(g, {}, (0, 0));
    FlowsAppend(g, {}, (0, 0), (0, 0), (1, 0));
    FlowsAppend(g, {}, (0, 0), (1, 0), (2, 0));
    FlowsAppend(g, {}, (0, 0), (2, 0), (2, 1));
    FlowsAppend(g, {}, (0, 0), (2, 1), (2, 2));
    FlowFromTopReaches(g, {}, 0, (2, 2));
  }

  /** The vacant site (1, 2) of `Hook()`, right above the reached corner, stays empty. */
  lemma NoUpwardFlow()
    ensures Vacant(Hook(), (1, 2))
    ensures !Reachable(Hook(), (1, 2))
  {
    forall p: seq<Cell> | IsOpenPath(Hook(), {}, p) && p[0].0 == 0
      ensures p[|p| - 1] != (1, 2)
    {
      HookWalksAvoidRightNotch(p);
    }
  }
}
