# Directed percolation: the flow engine

This project models the flow engine of a directed-percolation simulator on a
square lattice. The input is a site-vacancy grid: `1` marks a vacant site, any
other value a blocked one. Fluid is injected at every site of the top row. It
moves one site at a time down, right or left through vacant sites, and never up.
The engine has three parts:

- `flow_from` floods the flow grid in place from one site.
- `dir_flow` builds an all-zero flow grid and floods it from every top-row site.
- `percolates` reports whether fluid reached the last row.

The model has three modules:

- `Lattice` (lattice.dfy) states the meaning on values. A cell is a
  `(row, column)` pair, and a set of cells stands for the full sites. An *open
  path* is a walk of down/right/left moves through vacant sites that are not yet
  full. `Flows(g, full, c, d)` says an open path leads from `c` to `d`.
  `Reachable(g, d)` says an open path leads from a top-row site to `d` on an
  empty flow grid. `Percolating(g)` says some last-row site is reachable.
  `FloodedFrom(g, before, after, c)` is the effect of one flood: `after` is
  `before` plus every site that flows from `c`.
- `DirectPerc` (directperc.dfy) is the engine itself. The flow grid is an
  `array2<int>` that `FlowFrom` writes cell by cell, through recursion, exactly
  as the source does. The site grid is only ever read, so it is the value
  `sites: seq<seq<int>>`. `Filled(full)` is the set of cells holding `1`.
- `Scenarios` (scenarios.dfy) covers the fully vacant and fully blocked grids and
  a few small literal grids.

What is proved:

- `FlowFrom` only ever writes `1`s, and its new full set is exactly the old one
  plus the flood from `(i, j)`. Together these two facts fix every cell of the
  new grid. Cells holding `1` stay `1` (monotonicity). A call outside the grid,
  on a blocked site or on a full site changes nothing.
- `FlowFrom` terminates because the set of vacant, unfilled sites shrinks
  strictly at each recursive call.
- The result of `DirFlow` has the shape of `sites` and holds only `0`s and `1`s.
  Its full cells are exactly the reachable sites, so every full cell is vacant.
  Its postcondition fixes the result from `sites` alone, so two runs on the same
  grid give the same flow grid. `FloodComposes` holds for the three neighbour
  floods taken in any order, and a flood has one outcome (`FloodIsUnique`), so
  `FloodOrderIrrelevant` shows that the order of the three recursive calls does
  not change the final grid.
- `Percolates` on that grid holds exactly when a last-row site is reachable.

## Model

| member | source | states |
|---|---|---|
| DirectPerc.FlowFrom | directperc.py:72-86 | The call only writes `1`s, and the new full set is the old full set plus every site that an open path (vacant, not yet `1`, moves down/right/left) leads to from `(i, j)`. If `(i, j)` is outside the grid, blocked or already `1`, the grid is unchanged. Termination is by the set of vacant unfilled sites. |
| DirectPerc.DirFlow | directperc.py:56-69 | Returns a fresh `n` by `n` grid of `0`s and `1`s. A cell is `1` exactly when its site is reachable from a vacant top-row site by down/right/left moves through vacant sites, and every `1` cell is vacant in `sites`. |
| DirectPerc.RowSum | directperc.py:97 | The sum of the first `k` cells of a row of the flow grid. A non-zero sum means some of those cells is non-zero, and on a row of `0`s and `1`s the sum lies between `0` and `k`. |
| DirectPerc.Percolates | directperc.py:90-98 | The test `percolates` makes: the last row sums to more than `0`. It requires at least one row, since the source raises on an empty grid. A `true` answer means some last-row cell is non-zero. `PercolatesIffLastRowFull` and `PercolatesIffBottomReached` give its full meaning. |
| DirectPerc.PercolatesIffLastRowFull | directperc.py:90-98 | On a grid of `0`s and `1`s, the last row summing to more than zero means some last-row cell is `1`, and the converse holds too. |
| DirectPerc.RowSumPositive | directperc.py:97 | Over non-negative cells, a row's sum is non-negative, and it is positive exactly when some cell is non-zero. |
| DirectPerc.PercolatesIffBottomReached | directperc.py:90-98 | On the grid `DirFlow` returns, `Percolates` holds exactly when some last-row site is reachable from the top row. |
| DirectPerc.PercolationTrial | directperc.py:154-156 | Flooding a grid and then checking its last row gives `true` exactly when the grid percolates. |
| Lattice.FloodComposes | directperc.py:81-86 | Marking an open site `c` and then flooding from its lower, right and left neighbours in turn, taken in any order, is one flood from `c`. |
| Lattice.FloodComposesDownRightLeft | directperc.py:81-86 | The same composition in the source's order, down, right, left: marking `(i, j)` and flooding from `(i+1, j)`, `(i, j+1)` and `(i, j-1)` is one flood from `(i, j)`. `FlowFrom` uses this form. |
| Lattice.FloodIsUnique | directperc.py:72-86 | Two full sets that are both the flood from the same start against the same full set are equal. |
| Lattice.FloodOrderIrrelevant | directperc.py:84-86 | Two runs that mark `c` and then flood from its three neighbours, in any two orders, end with the same full set. |
| Lattice.FloodFromShutSite | directperc.py:78-81 | A flood that starts outside the grid, on a blocked site or on a full site adds nothing. |
| Lattice.UnfilledShrinks | directperc.py:81-82 | Filling a vacant unfilled site strictly shrinks the set of vacant unfilled sites. |
| Lattice.FloodFillsStart | directperc.py:81-82 | After a flood from a vacant site, that site is full. |
| Lattice.FloodIsClosed | directperc.py:84-86 | Every site a flood fills has its vacant lower, right and left neighbours full afterwards. |
| Lattice.FilledAlongPath | directperc.py:84-86 | If newly full sites are closed under the moves, then along a path of sites that were open, a full first site means a full last site. |
| Lattice.FlowsPrepend | directperc.py:82-86 | An open site followed by one move into a flow that was computed against a larger full set gives a flow against the smaller set. |
| Lattice.FlowsAppend | directperc.py:84-86 | A flow extended by one move into an open site is still a flow. |
| Lattice.FlowsStart | directperc.py:81-82 | An open site flows into itself. |
| Lattice.FloodKeepsClosed | directperc.py:66-67 | A flood keeps a full set closed under the moves. |
| Lattice.FloodTopStep | directperc.py:66-67 | Flooding from the next top-row site keeps every full site reachable and closed, and leaves that site full if it is vacant. |
| Lattice.FloodedTopIsReach | directperc.py:63-67 | Once every top-row site has been flooded from, starting from an empty grid, the full sites are exactly the reachable sites. |
| Lattice.ClosedCoversReachable | directperc.py:66-67 | A full set that is closed under the moves and holds every vacant top-row site holds every reachable site. |
| Lattice.FlowFromTopReaches | directperc.py:66-67 | A flow from a top-row site, against any full set, reaches its end from the top row. |
| Lattice.ReachableIsVacant | directperc.py:81-82 | A reachable site is vacant. |
| Lattice.PathNeverClimbs | directperc.py:83-86 | Along a path the row never decreases, and it grows by at most one per move. |
| Lattice.BlockedRowIsBarrier | directperc.py:83-86 | If a row has no vacant site, every reachable site lies above it. |
| Scenarios.AllVacant | directperc.py:107-112 | The grid `make_matrix` gives at `p = 1`, where every draw is below `p`: `n` rows of `n` sites, every site vacant. |
| Scenarios.AllBlocked | directperc.py:107-112 | The grid `make_matrix` gives at `p = 0`, where no draw is below `p`: `n` rows of `n` sites, no site vacant. |
| Scenarios.FullyVacantReachesAll | directperc.py:84 | In a fully vacant grid every site is reachable, straight down its column. |
| Scenarios.FullyVacantPercolates | directperc.py:110-112 | The all-vacant grid, which the generator gives at vacancy probability 1, percolates whenever it has at least one row. |
| Scenarios.FullyBlockedNeverPercolates | directperc.py:110-112 | The all-blocked grid, which the generator gives at vacancy probability 0, never percolates. |
| Scenarios.VacantThreeByThreePercolates | directperc.py:84 | The all-vacant 3 by 3 grid percolates. |
| Scenarios.SingleVacantSitePercolates | directperc.py:95-97 | The 1 by 1 grid `[[1]]` percolates, since its top row is its last row. |
| Scenarios.BlockedMiddleRowStopsPercolation | directperc.py:83-86 | `[[1,1,1],[0,0,0],[1,1,1]]` does not percolate. |
| Scenarios.HookCornerReached | directperc.py:84-86 | In `[[1,0,0],[1,0,1],[1,1,1]]` fluid reaches (2, 2) down the left column and along the bottom row. |
| Scenarios.HookWalksAvoidRightNotch | directperc.py:83-86 | In the same grid, no walk from the top row ends at (1, 2). |
| Scenarios.NoUpwardFlow | directperc.py:83-86 | Site (1, 2) of that grid is vacant but not reachable: reaching it would take a move up from (2, 2). |

## Left out

- `read_file` and `write_file` (directperc.py:12-53) do text-file I/O. They are not modelled. The generated grid is passed in directly as `sites`.
- `make_matrix` (directperc.py:101-114) draws random floats and compares them with `p`. Randomness and floating point are not modelled. Only its two deterministic extremes are: `AllVacant` for `p = 1` and `AllBlocked` for `p = 0`.
- `make_graph` (directperc.py:129-167) is a Monte Carlo sweep: random grids, `np.linspace`, the float ratio `perc/trials`, and plotting. Only one trial is modelled, as `PercolationTrial`.
- `perc_visual` (directperc.py:117-126) renders with matplotlib and is not modelled. main.py is demo glue with I/O and printing and is not modelled.
- The flow grid that `np.zeros` makes holds floats. The model uses `int`, since only the values `0` and `1` are ever stored in it.
- The bounds test (directperc.py:78) compares both coordinates with the number of rows, so the code assumes a square grid. `FlowFrom` and `DirFlow` therefore require a square `sites` and a flow grid of the same shape. Behaviour on non-square input is not modelled.
- `Percolates` requires at least one row. On an empty grid the source indexes row `-1` of an empty array, which raises an error.
- Python's recursion-depth limit is not modelled. On a large vacant region the source's recursion can exceed that limit. The model's recursion is unbounded.
- The source's `percolates` sums the last row and tests for a positive sum. The model does the same. Its equivalence with "some last-row cell is `1`" is proved only for grids of `0`s and `1`s, which is what `DirFlow` produces.
