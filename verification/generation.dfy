/**
 One generation of the Game of Life. Every cell of the next grid is computed
 from the unchanged current grid (the program writes into a fresh grid and
 only reads the old one), by Conway's rule: a live cell survives with two or
 three live neighbours, a dead cell is born with exactly three, every other
 cell is dead in the next generation.
 */
module Generation {
  import opened Grids
  import opened Neighbours

  /** The program's case split for one cell, given its state and count. A live
      cell dies below 2 and above 3 and survives on 2 or 3; any other state is
      treated as dead and comes alive only on exactly 3. */
  function Rule(state: int, n: int): (next: int)
    ensures next == 0 || next == 1
    ensures next == 1 <==> n == 3 || (state == 1 && n == 2)
  {
    if state == 1 then
      if n < 2 then 0
      else if n == 2 || n == 3 then 1
      else 0
    else
      if n == 3 then 1 else 0
  }

  /** The next state of cell `(i, j)`: the rule applied to its state and its
      count, both read from the old grid. */
  function NextCell(g: Grid, i: int, j: int): (v: int)
    requires WellFormed(g) && InBounds(g, i, j)
    ensures v == 0 || v == 1
    ensures v == 1 <==> NeighbourCount(g, i, j) == 3
                        || (g.cells[i][j] == 1 && NeighbourCount(g, i, j) == 2)
  {
    Rule(g.cells[i][j], NeighbourCount(g, i, j))
  }

  /** The next generation. */
  function Step(g: Grid): (h: Grid)
    requires WellFormed(g)
    ensures WellFormed(h) && SameShape(g, h)
  {
    Grid(g.rows, g.cols,
         seq(g.rows, i requires 0 <= i < g.rows =>
           seq(g.cols, j requires 0 <= j < g.cols => NextCell(g, i, j))))
  }

  /** Each cell of the next generation is the rule applied to that cell's old
      state and its count in the old grid. */
  lemma StepCell(g: Grid, i: int, j: int)
    requires WellFormed(g) && InBounds(g, i, j)
    ensures Step(g).cells[i][j] == Rule(g.cells[i][j], NeighbourCount(g, i, j))
  {
  }

  /** Conway's rule holds at every cell: the next generation has a live cell
      exactly where a live cell had two or three live neighbours or a dead cell
      had exactly three. */
  lemma {:induction false} StepRule(g: Grid)
    requires WellFormed(g)
    ensures forall i, j :: InBounds(g, i, j) ==>
              (Step(g).cells[i][j] == 1 <==>
                 (g.cells[i][j] == 1 && 2 <= |LiveNeighbours(g, i, j)| <= 3)
                 || (g.cells[i][j] == 0 && |LiveNeighbours(g, i, j)| == 3))
  {
    forall i, j | InBounds(g, i, j)
      ensures Step(g).cells[i][j] == 1 <==>
                 (g.cells[i][j] == 1 && 2 <= |LiveNeighbours(g, i, j)| <= 3)
                 || (g.cells[i][j] == 0 && |LiveNeighbours(g, i, j)| == 3)
    {
      CountIsLiveNeighbours(g, i, j);
      StepCell(g, i, j);
    }
  }

  /** A cell of the next generation depends only on the old cells at most one
      step away from it, never on cells already computed in the same pass. */
  lemma StepIsLocal(g: Grid, h: Grid, i: int, j: int)
    requires WellFormed(g) && WellFormed(h) && SameShape(g, h) && InBounds(g, i, j)
    requires forall r, c :: InBounds(g, r, c) && i - 1 <= r <= i + 1 && j - 1 <= c <= j + 1
               ==> g.cells[r][c] == h.cells[r][c]
    ensures Step(g).cells[i][j] == Step(h).cells[i][j]
  {
    assert InBounds(g, i, j) && i - 1 <= i <= i + 1 && j - 1 <= j <= j + 1;
    CountIsLocal(g, h, i, j);
    StepCell(g, i, j);
    StepCell(h, i, j);
  }

  /** An all-dead grid stays all dead: no cell has a live neighbour. */
  lemma {:induction false} AllDeadIsStable(g: Grid)
    requires WellFormed(g) && AllDead(g)
    ensures Step(g) == g
  {
    var h := Step(g);
    forall i, j | InBounds(g, i, j)
      ensures h.cells[i][j] == g.cells[i][j]
    {
      NeighbourCountExpanded(g, i, j);
      StepCell(g, i, j);
    }
    Extensionality(h, g);
  }

  /** A reset grid is a fixed point of the step. */
  lemma ResetIsStable(g: Grid)
    ensures Step(Reset(g)) == Reset(g)
  {
    AllDeadIsStable(Reset(g));
  }

  /** The program's nested loops over a fresh all-dead grid, one cell at a time. */
  method UpdateGridState(g: Grid) returns (next: Grid)
    requires WellFormed(g)
    ensures next == Step(g)
  {
    var cells := Blank(g.rows, g.cols).cells;
    for i := 0 to g.rows
      invariant |cells| == g.rows
      invariant forall r :: 0 <= r < g.rows ==> |cells[r]| == g.cols
      invariant forall r, c :: 0 <= r < i && 0 <= c < g.cols ==> cells[r][c] == NextCell(g, r, c)
      invariant forall r, c :: i <= r < g.rows && 0 <= c < g.cols ==> cells[r][c] == 0
    {
      for j := 0 to g.cols
        invariant |cells| == g.rows
        invariant forall r :: 0 <= r < g.rows ==> |cells[r]| == g.cols
        invariant forall r, c :: 0 <= r < i && 0 <= c < g.cols ==> cells[r][c] == NextCell(g, r, c)
        invariant forall c :: 0 <= c < j ==> cells[i][c] == NextCell(g, i, c)
        invariant forall c :: j <= c < g.cols ==> cells[i][c] == 0
        invariant forall r, c :: i < r < g.rows && 0 <= c < g.cols ==> cells[r][c] == 0
      {
        var numNeighbours := GetNumNeighbours(g, i, j);
        if g.cells[i][j] == 1 {
          if numNeighbours < 2 {
            cells := cells[i := cells[i][j := 0]];
          } else if numNeighbours == 2 || numNeighbours == 3 {
            cells := cells[i := cells[i][j := 1]];
          } else if numNeighbours > 3 {
            cells := cells[i := cells[i][j := 0]];
          }
        } else {
          if numNeighbours == 3 {
            cells := cells[i := cells[i][j := 1]];
          } else {
            cells := cells[i := cells[i][j := 0]];
          }
        }
      }
    }
    next := Grid(g.rows, g.cols, cells);
    forall r, c | InBounds(g, r, c)
      ensures next.cells[r][c] == Step(g).cells[r][c]
    {
      StepCell(g, r, c);
    }
    Extensionality(next, Step(g));
  }

  /** Running the simulation for `k` generations. */
  function Run(g: Grid, k: nat): (h: Grid)
    requires WellFormed(g)
    ensures WellFormed(h) && SameShape(g, h)
    decreases k
  {
    if k == 0 then g else Run(Step(g), k - 1)
  }

  /** Running from the all-dead grid never produces a live cell. */
  lemma {:induction false} RunAllDead(g: Grid, k: nat)
    requires WellFormed(g) && AllDead(g)
    ensures Run(g, k) == g
    decreases k
  {
    if k > 0 {
      AllDeadIsStable(g);
      RunAllDead(g, k - 1);
    }
  }

  /** A grid that one step maps back to itself stays put for any run. */
  lemma {:induction false} RunStillLife(g: Grid, k: nat)
    requires WellFormed(g) && Step(g) == g
    ensures Run(g, k) == g
    decreases k
  {
    if k > 0 {
      RunStillLife(g, k - 1);
    }
  }

  /** A grid that two steps map back to itself recurs every two generations. */
  lemma {:induction false} RunPeriodTwo(g: Grid, k: nat)
    requires WellFormed(g) && Step(Step(g)) == g
    ensures Run(g, 2 * k) == g
    decreases k
  {
    if k > 0 {
      RunPeriodTwo(g, k - 1);
      assert Run(g, 2 * k) == Run(Step(Step(g)), 2 * (k - 1));
    }
  }
}
