/**
 Neighbour counting. The program visits the nine offsets around a cell with
 two nested loops, skips the cell itself and every coordinate outside the
 grid, and adds up the stored values of the rest. There is no wrap-around:
 a coordinate past an edge contributes nothing.
 */
module Neighbours {
  import opened Grids

  /** The offsets in the order the two nested loops visit them: row offset
      outer, column offset inner, each running -1, 0, 1. */
  const Scan: seq<(int, int)> :=
    [(-1, -1), (-1, 0), (-1, 1), (0, -1), (0, 0), (0, 1), (1, -1), (1, 0), (1, 1)]

  /** The value at `(r, c)`, or 0 when `(r, c)` lies outside the grid. */
  function Clipped(g: Grid, r: int, c: int): (v: int)
    requires WellFormed(g)
    ensures v == 0 || v == 1
    ensures v == 1 <==> Alive(g, r, c)
  {
    if InBounds(g, r, c) then g.cells[r][c] else 0
  }

  /** What visiting offset `d` adds to the count of `(row, col)`. */
  function Contribution(g: Grid, row: int, col: int, d: (int, int)): (v: int)
    requires WellFormed(g)
    ensures v == 0 || v == 1
  {
    if d == (0, 0) then 0 else Clipped(g, row + d.0, col + d.1)
  }

  /** The running total after visiting the offsets `ds` in order. */
  function SumOver(g: Grid, row: int, col: int, ds: seq<(int, int)>): (s: int)
    requires WellFormed(g)
    ensures 0 <= s <= |ds|
    decreases |ds|
  {
    if ds == [] then 0
    else SumOver(g, row, col, ds[..|ds| - 1]) + Contribution(g, row, col, ds[|ds| - 1])
  }

  /** The number the program computes for `(row, col)`: the scan's total. The
      cell itself is skipped and every other offset adds at most 1, so the
      count never exceeds 8. */
  function NeighbourCount(g: Grid, row: int, col: int): (n: int)
    requires WellFormed(g)
    ensures 0 <= n <= 8
  {
    SumOverNine(g, row, col, Scan);
    SumOver(g, row, col, Scan)
  }

  /** The eight cells touching `(row, col)` horizontally, vertically or
      diagonally, whether or not they lie inside the grid. */
  function Adjacent(row: int, col: int): set<(int, int)> {
    {(row - 1, col - 1), (row - 1, col), (row - 1, col + 1),
     (row, col - 1),                     (row, col + 1),
     (row + 1, col - 1), (row + 1, col), (row + 1, col + 1)}
  }

  /** Reference definition: the live cells of the grid adjacent to `(row, col)`. */
  function LiveNeighbours(g: Grid, row: int, col: int): set<(int, int)> {
    set p | p in Adjacent(row, col) && Alive(g, p.0, p.1)
  }

  /** Visiting one more offset adds that offset's contribution. */
  lemma SumOverStep(g: Grid, row: int, col: int, ds: seq<(int, int)>, k: nat)
    requires WellFormed(g) && k < |ds|
    ensures SumOver(g, row, col, ds[..k + 1])
         == SumOver(g, row, col, ds[..k]) + Contribution(g, row, col, ds[k])
  {
    assert ds[..k + 1][..k] == ds[..k];
  }

  /** Nine visits add up the nine contributions, in any order. */
  lemma {:induction false} SumOverNine(g: Grid, row: int, col: int, ds: seq<(int, int)>)
    requires WellFormed(g) && |ds| == 9
    ensures SumOver(g, row, col, ds)
         == Contribution(g, row, col, ds[0]) + Contribution(g, row, col, ds[1])
          + Contribution(g, row, col, ds[2]) + Contribution(g, row, col, ds[3])
          + Contribution(g, row, col, ds[4]) + Contribution(g, row, col, ds[5])
          + Contribution(g, row, col, ds[6]) + Contribution(g, row, col, ds[7])
          + Contribution(g, row, col, ds[8])
  {
    assert ds[..0] == [];
    SumOverStep(g, row, col, ds, 0);
    SumOverStep(g, row, col, ds, 1);
    SumOverStep(g, row, col, ds, 2);
    SumOverStep(g, row, col, ds, 3);
    SumOverStep(g, row, col, ds, 4);
    SumOverStep(g, row, col, ds, 5);
    SumOverStep(g, row, col, ds, 6);
    SumOverStep(g, row, col, ds, 7);
    SumOverStep(g, row, col, ds, 8);
    assert ds[..9] == ds;
  }

  /** The count is the sum of the eight clipped neighbour values. */
  lemma {:induction false} NeighbourCountExpanded(g: Grid, row: int, col: int)
    requires WellFormed(g)
    ensures NeighbourCount(g, row, col)
         == Clipped(g, row - 1, col - 1) + Clipped(g, row - 1, col) + Clipped(g, row - 1, col + 1)
          + Clipped(g, row, col - 1) + Clipped(g, row, col + 1)
          + Clipped(g, row + 1, col - 1) + Clipped(g, row + 1, col) + Clipped(g, row + 1, col + 1)
  {
    SumOverNine(g, row, col, Scan);
  }

  /** The eight adjacent cells listed in the order the scan reaches them. */
  function Around(row: int, col: int): seq<(int, int)> {
    [(row - 1, col - 1), (row - 1, col), (row - 1, col + 1), (row, col - 1),
     (row, col + 1), (row + 1, col - 1), (row + 1, col), (row + 1, col + 1)]
  }

  function Indicator(b: bool): nat {
    if b then 1 else 0
  }

  /** How many of the cells `cs` are alive, counted one by one. */
  function LiveCount(g: Grid, cs: seq<(int, int)>): (n: nat)
    ensures n <= |cs|
    decreases |cs|
  {
    if cs == [] then 0
    else LiveCount(g, cs[..|cs| - 1]) + Indicator(Alive(g, cs[|cs| - 1].0, cs[|cs| - 1].1))
  }

  /** The live cells among `cs`. */
  function LiveAmong(g: Grid, cs: seq<(int, int)>): set<(int, int)> {
    set p | p in cs && Alive(g, p.0, p.1)
  }

  predicate Distinct(cs: seq<(int, int)>) {
    forall i, j :: 0 <= i < j < |cs| ==> cs[i] != cs[j]
  }

  /** Counting distinct cells one by one gives the size of the set of live ones. */
  lemma {:induction false} LiveCountIsSize(g: Grid, cs: seq<(int, int)>)
    requires Distinct(cs)
    ensures LiveCount(g, cs) == |LiveAmong(g, cs)|
    decreases |cs|
  {
    if cs != [] {
      var init, x := cs[..|cs| - 1], cs[|cs| - 1];
      assert cs == init + [x];
      assert Distinct(init) by {
        forall i, j | 0 <= i < j < |init|
          ensures init[i] != init[j]
        {
          assert cs[i] == init[i] && cs[j] == init[j];
        }
      }
      LiveCountIsSize(g, init);
      assert x !in init by {
        forall i | 0 <= i < |init|
          ensures init[i] != x
        {
          assert cs[i] == init[i];
        }
      }
      var extra := if Alive(g, x.0, x.1) then {x} else {};
      assert LiveAmong(g, cs) == LiveAmong(g, init) + extra by {
        forall p
          ensures p in LiveAmong(g, cs) <==> p in LiveAmong(g, init) + extra
        {
          assert p in cs <==> p in init || p == x;
        }
      }
    }
  }

  lemma LiveCountStep(g: Grid, cs: seq<(int, int)>, k: nat)
    requires k < |cs|
    ensures LiveCount(g, cs[..k + 1]) == LiveCount(g, cs[..k]) + Indicator(Alive(g, cs[k].0, cs[k].1))
  {
    assert cs[..k + 1][..k] == cs[..k];
  }

  lemma {:induction false} LiveCountAround(g: Grid, row: int, col: int)
    ensures LiveCount(g, Around(row, col))
         == Indicator(Alive(g, row - 1, col - 1)) + Indicator(Alive(g, row - 1, col))
          + Indicator(Alive(g, row - 1, col + 1)) + Indicator(Alive(g, row, col - 1))
          + Indicator(Alive(g, row, col + 1)) + Indicator(Alive(g, row + 1, col - 1))
          + Indicator(Alive(g, row + 1, col)) + Indicator(Alive(g, row + 1, col + 1))
  {
    var a := Around(row, col);
    assert a[..0] == [];
    LiveCountStep(g, a, 0);
    LiveCountStep(g, a, 1);
    LiveCountStep(g, a, 2);
    LiveCountStep(g, a, 3);
    LiveCountStep(g, a, 4);
    LiveCountStep(g, a, 5);
    LiveCountStep(g, a, 6);
    LiveCountStep(g, a, 7);
    assert a[..8] == a;
  }

  /** The listed neighbours are the adjacent cells, each once. */
  lemma AroundIsAdjacent(g: Grid, row: int, col: int)
    ensures Distinct(Around(row, col))
    ensures LiveAmong(g, Around(row, col)) == LiveNeighbours(g, row, col)
  {
    forall p
      ensures p in Around(row, col) <==> p in Adjacent(row, col)
    {
    }
  }

  /** The program's count is exactly the number of live neighbours. */
  lemma CountIsLiveNeighbours(g: Grid, row: int, col: int)
    requires WellFormed(g)
    ensures NeighbourCount(g, row, col) == |LiveNeighbours(g, row, col)|
  {
    NeighbourCountExpanded(g, row, col);
    LiveCountAround(g, row, col);
    AroundIsAdjacent(g, row, col);
    LiveCountIsSize(g, Around(row, col));
  }

  /** A corner cell has at most three neighbours inside the grid, so its count
      never exceeds 3. */
  lemma CornerCountAtMostThree(g: Grid, row: int, col: int)
    requires WellFormed(g) && InBounds(g, row, col)
    requires row == 0 || row == g.rows - 1
    requires col == 0 || col == g.cols - 1
    ensures NeighbourCount(g, row, col) <= 3
  {
    NeighbourCountExpanded(g, row, col);
  }

  /** The count of `(row, col)` reads only the cells at most one step away:
      two grids that agree there give the same count, whatever lies beyond
      (in particular, nothing on the opposite edge is seen). */
  lemma CountIsLocal(g: Grid, h: Grid, row: int, col: int)
    requires WellFormed(g) && WellFormed(h) && SameShape(g, h)
    requires forall r, c :: InBounds(g, r, c) && row - 1 <= r <= row + 1 && col - 1 <= c <= col + 1
               ==> g.cells[r][c] == h.cells[r][c]
    ensures NeighbourCount(g, row, col) == NeighbourCount(h, row, col)
  {
    NeighbourCountExpanded(g, row, col);
    NeighbourCountExpanded(h, row, col);
  }

  /** No wrap-around: on a grid at least three cells high or wide, the cell in
      the opposite corner is not a neighbour of `(0, 0)`, so flipping it leaves
      the count of `(0, 0)` unchanged. */
  lemma OppositeCornerNotSeen(g: Grid)
    requires WellFormed(g) && g.rows > 0 && g.cols > 0 && (g.rows >= 3 || g.cols >= 3)
    ensures NeighbourCount(Toggle(g, g.rows - 1, g.cols - 1), 0, 0) == NeighbourCount(g, 0, 0)
  {
    CountIsLocal(g, Toggle(g, g.rows - 1, g.cols - 1), 0, 0);
  }

  /** The running total after the first `k` offsets of the scan. */
  function Visited(g: Grid, row: int, col: int, k: nat): int
    requires WellFormed(g) && k <= |Scan|
  {
    SumOver(g, row, col, Scan[..k])
  }

  /** The scan reaches offset `(i, j)` at position `3 * (i + 1) + (j + 1)`, so
      visiting that offset adds its contribution to the running total. */
  lemma ScanVisit(g: Grid, row: int, col: int, i: int, j: int)
    requires WellFormed(g) && -1 <= i <= 1 && -1 <= j <= 1
    ensures var k := 3 * (i + 1) + (j + 1);
            Visited(g, row, col, k + 1) == Visited(g, row, col, k)
              + (if (i, j) == (0, 0) || !InBounds(g, row + i, col + j) then 0
                 else g.cells[row + i][col + j])
  {
    var k := 3 * (i + 1) + (j + 1);
    assert Scan[k] == (i, j);
    SumOverStep(g, row, col, Scan, k);
  }

  /** After all nine offsets the running total is the count. */
  lemma ScanComplete(g: Grid, row: int, col: int)
    requires WellFormed(g)
    ensures var n := Visited(g, row, col, 9);
            n == NeighbourCount(g, row, col) && n == |LiveNeighbours(g, row, col)| && 0 <= n <= 8
  {
    assert Scan[..9] == Scan;
    CountIsLiveNeighbours(g, row, col);
  }

  /** Loop-for-loop rendering of the program's counter. */
  method GetNumNeighbours(g: Grid, row: int, col: int) returns (n: int)
    requires WellFormed(g)
    ensures n == NeighbourCount(g, row, col)
    ensures n == |LiveNeighbours(g, row, col)|
    ensures 0 <= n <= 8
  {
    n := 0;
    for i := -1 to 2
      invariant n == Visited(g, row, col, 3 * (i + 1))
    {
      for j := -1 to 2
        invariant n == Visited(g, row, col, 3 * (i + 1) + (j + 1))
      {
        ScanVisit(g, row, col, i, j);
        if i == 0 && j == 0 {
          continue;
        }
        var neighbourRow := row + i;
        var neighbourCol := col + j;
        if neighbourRow < 0 || neighbourRow >= g.rows || neighbourCol < 0 || neighbourCol >= g.cols {
          continue;
        }
        n := n + g.cells[neighbourRow][neighbourCol];
      }
    }
    ScanComplete(g, row, col);
  }
}
