/** The lattice side of directed percolation, stated on values.

    A site-vacancy grid is a square matrix of integers where `1` marks a vacant
    site and anything else a blocked one. Fluid enters at row 0 and moves one
    site at a time down, right or left, never up. A set of cells stands for the
    sites already full; the flood fill never enters a full site again. */
module Lattice {

  /** A site, as (row, column). */
  type Cell = (int, int)

  /** A site-vacancy grid, row-major. */
  type Grid = seq<seq<int>>

  predicate IsSquare(g: Grid) {
    forall r :: 0 <= r < |g| ==> |g[r]| == |g|
  }

  predicate InBounds(n: int, c: Cell) {
    0 <= c.0 < n && 0 <= c.1 < n
  }

  /** `c` lies inside the grid and the site there holds `1`. */
  predicate Vacant(g: Grid, c: Cell) {
    0 <= c.0 < |g| && 0 <= c.1 < |g[c.0]| && g[c.0][c.1] == 1
  }

  function Down(c: Cell): Cell { (c.0 + 1, c.1) }
  function Right(c: Cell): Cell { (c.0, c.1 + 1) }
  function Left(c: Cell): Cell { (c.0, c.1 - 1) }

  /** The three moves the flow may make; moving up is not one of them. */
  predicate Step(a: Cell, b: Cell) {
    b == Down(a) || b == Right(a) || b == Left(a)
  }

  /** A site the fill may still enter: vacant and not yet full. */
  predicate Open(g: Grid, full: set<Cell>, c: Cell) {
    Vacant(g, c) && c !in full
  }

  /** A non-empty walk of moves through open sites. */
  predicate IsOpenPath(g: Grid, full: set<Cell>, p: seq<Cell>) {
    && |p| > 0
    && (forall k :: 0 <= k < |p| ==> Open(g, full, p[k]))
    && (forall k :: 0 <= k < |p| - 1 ==> Step(p[k], p[k + 1]))
  }

  /** Fluid entering `c` can reach `d` without passing a full or blocked site. */
  ghost predicate Flows(g: Grid, full: set<Cell>, c: Cell, d: Cell) {
    exists p: seq<Cell> :: IsOpenPath(g, full, p) && p[0] == c && p[|p| - 1] == d
  }

  /** `d` is reached by fluid injected at the top row of an empty flow grid. */
  ghost predicate Reachable(g: Grid, d: Cell) {
    exists p: seq<Cell> :: IsOpenPath(g, {}, p) && p[0].0 == 0 && p[|p| - 1] == d
  }

  /** Some site of the bottom row is reached. */
  ghost predicate Percolating(g: Grid) {
    exists c: Cell :: c.0 == |g| - 1 && 0 <= c.1 < |g| && Reachable(g, c)
  }

  /** Every vacant neighbour that `c` can flow into is full. */
  predicate Closed(g: Grid, full: set<Cell>, c: Cell) {
    && (Vacant(g, Down(c)) ==> Down(c) in full)
    && (Vacant(g, Right(c)) ==> Right(c) in full)
    && (Vacant(g, Left(c)) ==> Left(c) in full)
  }

  /** Every site in `after` that was not already in `before` is closed in `after`. */
  ghost predicate NewlyClosed(g: Grid, before: set<Cell>, after: set<Cell>) {
    forall c :: c in after && c !in before ==> Closed(g, after, c)
  }

  /** `after` is `before` plus every site that fluid entering `c` reaches
      through sites open in `before`: the effect of one flood from `c`. */
  ghost predicate FloodedFrom(g: Grid, before: set<Cell>, after: set<Cell>, c: Cell) {
    forall x {:trigger x in after} :: x in after <==> x in before || Flows(g, before, c, x)
  }

  /** The vacant sites not yet full: the measure that a real visit shrinks. */
  function Unfilled(g: Grid, full: set<Cell>): set<Cell> {
    set a, b | 0 <= a < |g| && 0 <= b < |g[a]| && g[a][b] == 1 && (a, b) !in full :: (a, b)
  }

  /** An open site flows into itself. */
  lemma FlowsStart(g: Grid, full: set<Cell>, c: Cell)
    requires Open(g, full, c)
    ensures Flows(g, full, c, c)
  {
    assert IsOpenPath(g, full, [c]);
  }

  /** One move from an open site in front of a flow computed against a larger
      full set gives a flow against the smaller one. */
  lemma FlowsPrepend(g: Grid, before: set<Cell>, later: set<Cell>, c: Cell, d: Cell, x: Cell)
    requires before <= later
    requires Open(g, before, c) && Step(c, d)
    requires Flows(g, later, d, x)
    ensures Flows(g, before, c, x)
  {
    var p: seq<Cell> :| IsOpenPath(g, later, p) && p[0] == d && p[|p| - 1] == x;
    var q := [c] + p;
    assert forall k :: 0 < k < |q| ==> q[k] == p[k - 1];
    assert IsOpenPath(g, before, q);
  }

  /** A flow against any full set that starts at the top row is a reach. */
  lemma FlowFromTopReaches(g: Grid, full: set<Cell>, s: int, x: Cell)
    requires Flows(g, full, (0, s), x)
    ensures Reachable(g, x)
  {
  }

  /** A reached site is vacant. */
  lemma ReachableIsVacant(g: Grid, x: Cell)
    requires Reachable(g, x)
    ensures Vacant(g, x)
  {
  }

  /** If the sites that became full are closed, a path of sites that were open
      and whose first site is now full is full all along, to its end. */
  lemma {:induction false} FilledAlongPath(g: Grid, before: set<Cell>, after: set<Cell>, p: seq<Cell>)
    requires IsOpenPath(g, before, p)
    requires p[0] in after
    requires NewlyClosed(g, before, after)
    ensures p[|p| - 1] in after
  {
    if |p| > 1 {
      var q := p[..|p| - 1];
      assert IsOpenPath(g, before, q);
      FilledAlongPath(g, before, after, q);
      var prev := p[|p| - 2];
      assert prev == q[|q| - 1];
      assert Open(g, before, prev);
      assert Closed(g, after, prev);
      assert Step(prev, p[|p| - 1]);
      assert Open(g, before, p[|p| - 1]);
    }
  }

  /** A full set closed under the moves and holding every vacant top-row site
      holds every reached site. */
  lemma ClosedCoversReachable(g: Grid, full: set<Cell>, x: Cell)
    requires NewlyClosed(g, {}, full)
    requires forall s :: Vacant(g, (0, s)) ==> (0, s) in full
    requires Reachable(g, x)
    ensures x in full
  {
    var p: seq<Cell> :| IsOpenPath(g, {}, p) && p[0].0 == 0 && p[|p| - 1] == x;
    assert Vacant(g, (0, p[0].1));
    FilledAlongPath(g, {}, full, p);
  }

  /** Filling a vacant site strictly shrinks the set of unfilled sites. */
  lemma UnfilledShrinks(g: Grid, before: set<Cell>, later: set<Cell>, c: Cell)
    requires before <= later && c in later
    requires Open(g, before, c)
    ensures Unfilled(g, later) < Unfilled(g, before)
  {
    assert c in Unfilled(g, before);
    assert c !in Unfilled(g, later);
  }

  /** Flow never climbs: along a path each move keeps or lowers the row by one,
      so rows never decrease. */
  lemma {:induction false} PathNeverClimbs(g: Grid, full: set<Cell>, p: seq<Cell>, k: int, l: int)
    requires IsOpenPath(g, full, p)
    requires 0 <= k <= l < |p|
    ensures p[k].0 <= p[l].0 <= p[k].0 + (l - k)
  {
    if k < l {
      PathNeverClimbs(g, full, p, k, l - 1);
      assert Step(p[l - 1], p[l]);
    }
  }

  /** A row with no vacant site stops the flow: nothing at or under it is reached. */
  lemma {:induction false} BlockedRowIsBarrier(g: Grid, r: int, x: Cell)
    requires 0 <= r < |g|
    requires forall b :: !Vacant(g, (r, b))
    requires Reachable(g, x)
    ensures x.0 < r
  {
    var p: seq<Cell> :| IsOpenPath(g, {}, p) && p[0].0 == 0 && p[|p| - 1] == x;
    PathStaysAbove(g, p, r, |p|);
  }

  lemma {:induction false} PathStaysAbove(g: Grid, p: seq<Cell>, r: int, m: int)
    requires 0 <= r < |g|
    requires forall b :: !Vacant(g, (r, b))
    requires IsOpenPath(g, {}, p) && p[0].0 == 0
    requires 0 < m <= |p|
    ensures p[m - 1].0 < r
  {
    assert Open(g, {}, p[m - 1]);
    assert Vacant(g, (p[m - 1].0, p[m - 1].1));
    if m > 1 {
      PathStaysAbove(g, p, r, m - 1);
      assert Step(p[m - 2], p[m - 1]);
    }
  }

  /** One move at the end of a flow, into an open site, is still a flow. */
  lemma FlowsAppend(g: Grid, full: set<Cell>, c: Cell, x: Cell, y: Cell)
    requires Flows(g, full, c, x)
    requires Step(x, y) && Open(g, full, y)
    ensures Flows(g, full, c, y)
  {
    var p: seq<Cell> :| IsOpenPath(g, full, p) && p[0] == c && p[|p| - 1] == x;
    var q := p + [y];
    assert IsOpenPath(g, full, q);
  }

  /** A flood leaves the start full whenever it is vacant. */
  lemma FloodFillsStart(g: Grid, before: set<Cell>, after: set<Cell>, c: Cell)
    requires FloodedFrom(g, before, after, c)
    requires Vacant(g, c)
    ensures c in after
  {
    if c !in before {
      FlowsStart(g, before, c);
    }
  }

  /** Every site a flood fills is closed afterwards. */
  lemma FloodIsClosed(g: Grid, before: set<Cell>, after: set<Cell>, c: Cell)
    requires FloodedFrom(g, before, after, c)
    ensures NewlyClosed(g, before, after)
  {
    forall x | x in after && x !in before
      ensures Closed(g, after, x)
    {
      assert Flows(g, before, c, x);
      if Vacant(g, Down(x)) && Down(x) !in before {
        FlowsAppend(g, before, c, x, Down(x));
      }
      if Vacant(g, Right(x)) && Right(x) !in before {
        FlowsAppend(g, before, c, x, Right(x));
      }
      if Vacant(g, Left(x)) && Left(x) !in before {
        FlowsAppend(g, before, c, x, Left(x));
      }
    }
  }

  /** `u`, `v` and `w` are three different moves away from `c`: its lower,
      right and left neighbours in some order. */
  predicate Neighbours(c: Cell, u: Cell, v: Cell, w: Cell) {
    Step(c, u) && Step(c, v) && Step(c, w) && u != v && u != w && v != w
  }

  /** Three different moves from `c` are all three of its neighbours. */
  lemma NeighboursCover(c: Cell, u: Cell, v: Cell, w: Cell)
    requires Neighbours(c, u, v, w)
    ensures Down(c) in {u, v, w} && Right(c) in {u, v, w} && Left(c) in {u, v, w}
  {
  }

  /** Filling `c` and then flooding from its lower, right and left neighbours,
      taken in any order `u`, `v`, `w`, is one flood from `c`. */
  lemma FloodComposes(g: Grid, f0: set<Cell>, f1: set<Cell>, f2: set<Cell>, f3: set<Cell>, f4: set<Cell>,
                      c: Cell, u: Cell, v: Cell, w: Cell)
    requires Open(g, f0, c) && f1 == f0 + {c}
    requires Neighbours(c, u, v, w)
    requires FloodedFrom(g, f1, f2, u)
    requires FloodedFrom(g, f2, f3, v)
    requires FloodedFrom(g, f3, f4, w)
    ensures FloodedFrom(g, f0, f4, c)
  {
    assert f1 <= f2 <= f3 <= f4;
    NeighboursCover(c, u, v, w);
    forall x | x in f4 && x !in f0
      ensures Flows(g, f0, c, x)
    {
      if x == c {
        FlowsStart(g, f0, c);
      } else if x in f2 {
        FlowsPrepend(g, f0, f1, c, u, x);
      } else if x in f3 {
        FlowsPrepend(g, f0, f2, c, v, x);
      } else {
        FlowsPrepend(g, f0, f3, c, w, x);
      }
    }
    FloodIsClosed(g, f1, f2, u);
    FloodIsClosed(g, f2, f3, v);
    FloodIsClosed(g, f3, f4, w);
    if Vacant(g, u) { FloodFillsStart(g, f1, f2, u); }
    if Vacant(g, v) { FloodFillsStart(g, f2, f3, v); }
    if Vacant(g, w) { FloodFillsStart(g, f3, f4, w); }
    assert Closed(g, f4, c);
    assert NewlyClosed(g, f0, f4);
    forall x | Flows(g, f0, c, x)
      ensures x in f4
    {
      var p: seq<Cell> :| IsOpenPath(g, f0, p) && p[0] == c && p[|p| - 1] == x;
      FilledAlongPath(g, f0, f4, p);
    }
  }

  /** `FloodComposes` in the order `flow_from` recurses: down, right, left. */
  lemma FloodComposesDownRightLeft(g: Grid, f0: set<Cell>, f1: set<Cell>, f2: set<Cell>, f3: set<Cell>, f4: set<Cell>,
                                   i: int, j: int)
    requires Open(g, f0, (i, j)) && f1 == f0 + {(i, j)}
    requires FloodedFrom(g, f1, f2, (i + 1, j))
    requires FloodedFrom(g, f2, f3, (i, j + 1))
    requires FloodedFrom(g, f3, f4, (i, j - 1))
    ensures FloodedFrom(g, f0, f4, (i, j))
  {
    FloodComposes(g, f0, f1, f2, f3, f4, (i, j), (i + 1, j), (i, j + 1), (i, j - 1));
  }

  /** A flood from a given start against a given full set has one outcome, so
      with `FloodComposes` the order of the three neighbour floods does not
      change the final full set. */
  lemma FloodIsUnique(g: Grid, before: set<Cell>, after1: set<Cell>, after2: set<Cell>, c: Cell)
    requires FloodedFrom(g, before, after1, c)
    requires FloodedFrom(g, before, after2, c)
    ensures after1 == after2
  {
  }

  /** Two runs that fill `c` and then flood from its three neighbours in two
      different orders end with the same full set. */
  lemma FloodOrderIrrelevant(g: Grid, f0: set<Cell>, f1: set<Cell>, c: Cell,
                             u: Cell, v: Cell, w: Cell, f2: set<Cell>, f3: set<Cell>, f4: set<Cell>,
                             u': Cell, v': Cell, w': Cell, f2': set<Cell>, f3': set<Cell>, f4': set<Cell>)
    requires Open(g, f0, c) && f1 == f0 + {c}
    requires Neighbours(c, u, v, w)
    requires FloodedFrom(g, f1, f2, u) && FloodedFrom(g, f2, f3, v) && FloodedFrom(g, f3, f4, w)
    requires Neighbours(c, u', v', w')
    requires FloodedFrom(g, f1, f2', u') && FloodedFrom(g, f2', f3', v') && FloodedFrom(g, f3', f4', w')
    ensures f4 == f4'
  {
    FloodComposes(g, f0, f1, f2, f3, f4, c, u, v, w);
    FloodComposes(g, f0, f1, f2', f3', f4', c, u', v', w');
    FloodIsUnique(g, f0, f4, f4', c);
  }

  /** A flood that starts nowhere open adds nothing. */
  lemma FloodFromShutSite(g: Grid, full: set<Cell>, c: Cell)
    requires !Open(g, full, c)
    ensures FloodedFrom(g, full, full, c)
  {
  }

  /** Flooding keeps a full set closed under the moves. */
  lemma FloodKeepsClosed(g: Grid, before: set<Cell>, after: set<Cell>, c: Cell)
    requires NewlyClosed(g, {}, before)
    requires FloodedFrom(g, before, after, c)
    ensures NewlyClosed(g, {}, after)
  {
    FloodIsClosed(g, before, after, c);
    assert before <= after;
  }

  /** The state after flooding from the first `s` sites of the top row of an
      empty flow grid: every full site is reached, every full site is closed,
      and those top-row sites are full where vacant. */
  ghost predicate FloodedTopPrefix(g: Grid, full: set<Cell>, s: int) {
    && (forall x :: x in full ==> Reachable(g, x))
    && NewlyClosed(g, {}, full)
    && (forall t :: 0 <= t < s && Vacant(g, (0, t)) ==> (0, t) in full)
  }

  /** Flooding from the next top-row site extends the prefix by one. */
  lemma FloodTopStep(g: Grid, before: set<Cell>, after: set<Cell>, s: int)
    requires FloodedTopPrefix(g, before, s)
    requires FloodedFrom(g, before, after, (0, s))
    ensures FloodedTopPrefix(g, after, s + 1)
  {
    forall x | x in after && x !in before
      ensures Reachable(g, x)
    {
      FlowFromTopReaches(g, before, s, x);
    }
    FloodKeepsClosed(g, before, after, (0, s));
    if Vacant(g, (0, s)) {
      FloodFillsStart(g, before, after, (0, s));
    }
  }

  /** Once every top-row site has been flooded from, the full sites are
      exactly the reached ones. */
  lemma FloodedTopIsReach(g: Grid, full: set<Cell>)
    requires IsSquare(g)
    requires FloodedTopPrefix(g, full, |g|)
    ensures forall x :: x in full <==> Reachable(g, x)
  {
    forall x | Reachable(g, x)
      ensures x in full
    {
      ClosedCoversReachable(g, full, x);
    }
  }
}
