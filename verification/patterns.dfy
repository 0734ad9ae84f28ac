/**
 Classic configurations on a bounded grid: a lone corner cell, the 2 x 2
 block and the 3-cell blinker. Each is placed on an otherwise dead grid of
 any size large enough to hold it.
 */
module Patterns {
  import opened Grids
  import opened Neighbours
  import opened Generation

  /** The grid of the given size whose live cells are exactly those of `live`
      that fall inside it. */
  function FromLive(rows: nat, cols: nat, live: set<(int, int)>): (g: Grid)
    ensures WellFormed(g) && g.rows == rows && g.cols == cols
    ensures forall r, c :: InBounds(g, r, c) ==> g.cells[r][c] == (if (r, c) in live then 1 else 0)
  {
    Grid(rows, cols, seq(rows, r => seq(cols, c => if (r, c) in live then 1 else 0)))
  }

  /** 1 when `(r, c)` is a cell of the `rows x cols` grid and in `live`, else 0. */
  function Occupied(rows: nat, cols: nat, live: set<(int, int)>, r: int, c: int): int {
    if 0 <= r < rows && 0 <= c < cols && (r, c) in live then 1 else 0
  }

  /** The live neighbours of `(i, j)` among `live`, clipped to the grid. */
  function LiveAroundIn(rows: nat, cols: nat, live: set<(int, int)>, i: int, j: int): int {
      Occupied(rows, cols, live, i - 1, j - 1) + Occupied(rows, cols, live, i - 1, j)
    + Occupied(rows, cols, live, i - 1, j + 1) + Occupied(rows, cols, live, i, j - 1)
    + Occupied(rows, cols, live, i, j + 1) + Occupied(rows, cols, live, i + 1, j - 1)
    + Occupied(rows, cols, live, i + 1, j) + Occupied(rows, cols, live, i + 1, j + 1)
  }

  /** The step on a grid built from a live set, cell by cell, in terms of that set. */
  lemma {:induction false} StepFromLiveCell(rows: nat, cols: nat, live: set<(int, int)>, i: int, j: int)
    requires 0 <= i < rows && 0 <= j < cols
    ensures Step(FromLive(rows, cols, live)).cells[i][j]
         == Rule(Occupied(rows, cols, live, i, j), LiveAroundIn(rows, cols, live, i, j))
  {
    var g := FromLive(rows, cols, live);
    forall r, c | i - 1 <= r <= i + 1 && j - 1 <= c <= j + 1
      ensures Clipped(g, r, c) == Occupied(rows, cols, live, r, c)
    {
    }
    NeighbourCountExpanded(g, i, j);
    StepCell(g, i, j);
  }

  /** When the rule maps `live` to `next` at every cell, one step maps the grid
      built from `live` to the grid built from `next`. */
  lemma {:induction false} StepFromLive(rows: nat, cols: nat, live: set<(int, int)>, next: set<(int, int)>)
    requires forall i, j :: 0 <= i < rows && 0 <= j < cols ==>
               Rule(Occupied(rows, cols, live, i, j), LiveAroundIn(rows, cols, live, i, j))
               == Occupied(rows, cols, next, i, j)
    ensures Step(FromLive(rows, cols, live)) == FromLive(rows, cols, next)
  {
    var g, h := Step(FromLive(rows, cols, live)), FromLive(rows, cols, next);
    forall i, j | InBounds(g, i, j)
      ensures g.cells[i][j] == h.cells[i][j]
    {
      StepFromLiveCell(rows, cols, live, i, j);
    }
    Extensionality(g, h);
  }

  /** A lone live cell in the corner has no live neighbour: the opposite corner
      is not adjacent to it, and nothing wraps around the edges. */
  lemma {:induction false} LoneCornerIsolated(rows: nat, cols: nat)
    requires rows > 0 && cols > 0
    ensures var g := FromLive(rows, cols, {(0, 0)});
            g.cells[0][0] == 1 && NeighbourCount(g, 0, 0) == 0
  {
    NeighbourCountExpanded(FromLive(rows, cols, {(0, 0)}), 0, 0);
  }

  /** The lone corner cell dies, and the grid is dead after one step. */
  lemma {:induction false} LoneCornerDies(rows: nat, cols: nat)
    requires rows > 0 && cols > 0
    ensures var g := FromLive(rows, cols, {(0, 0)});
            Step(g) == Reset(g)
  {
    var live: set<(int, int)> := {(0, 0)};
    forall i, j | 0 <= i < rows && 0 <= j < cols
      ensures Rule(Occupied(rows, cols, live, i, j), LiveAroundIn(rows, cols, live, i, j))
           == Occupied(rows, cols, {}, i, j)
    {
    }
    StepFromLive(rows, cols, live, {});
    AllDeadIsReset(FromLive(rows, cols, {}));
  }

  function Block(r: int, c: int): set<(int, int)> {
    {(r, c), (r, c + 1), (r + 1, c), (r + 1, c + 1)}
  }

  /** A 2 x 2 block anywhere inside the grid is a still life: each of its cells
      has three live neighbours, and no dead cell has exactly three. */
  lemma {:induction false} BlockIsStill(rows: nat, cols: nat, r: int, c: int)
    requires 0 <= r && r + 1 < rows && 0 <= c && c + 1 < cols
    ensures Step(FromLive(rows, cols, Block(r, c))) == FromLive(rows, cols, Block(r, c))
  {
    var b := Block(r, c);
    forall i, j | 0 <= i < rows && 0 <= j < cols
      ensures Rule(Occupied(rows, cols, b, i, j), LiveAroundIn(rows, cols, b, i, j))
           == Occupied(rows, cols, b, i, j)
    {
    }
    StepFromLive(rows, cols, b, b);
  }

  /** Three live cells in a row, centred on `(r, c)`. */
  function Horizontal(r: int, c: int): set<(int, int)> {
    {(r, c - 1), (r, c), (r, c + 1)}
  }

  /** Three live cells in a column, centred on `(r, c)`. */
  function Vertical(r: int, c: int): set<(int, int)> {
    {(r - 1, c), (r, c), (r + 1, c)}
  }

  /** Whether the blinker centred on `(r, c)` fits inside the grid in both phases. */
  predicate BlinkerFits(rows: nat, cols: nat, r: int, c: int) {
    1 <= r && r + 1 < rows && 1 <= c && c + 1 < cols
  }

  lemma {:induction false} HorizontalTurnsVertical(rows: nat, cols: nat, r: int, c: int)
    requires BlinkerFits(rows, cols, r, c)
    ensures Step(FromLive(rows, cols, Horizontal(r, c))) == FromLive(rows, cols, Vertical(r, c))
  {
    var h, v := Horizontal(r, c), Vertical(r, c);
    forall i, j | 0 <= i < rows && 0 <= j < cols
      ensures Rule(Occupied(rows, cols, h, i, j), LiveAroundIn(rows, cols, h, i, j))
           == Occupied(rows, cols, v, i, j)
    {
    }
    StepFromLive(rows, cols, h, v);
  }

  lemma {:induction false} VerticalTurnsHorizontal(rows: nat, cols: nat, r: int, c: int)
    requires BlinkerFits(rows, cols, r, c)
    ensures Step(FromLive(rows, cols, Vertical(r, c))) == FromLive(rows, cols, Horizontal(r, c))
  {
    var h, v := Horizontal(r, c), Vertical(r, c);
    forall i, j | 0 <= i < rows && 0 <= j < cols
      ensures Rule(Occupied(rows, cols, v, i, j), LiveAroundIn(rows, cols, v, i, j))
           == Occupied(rows, cols, h, i, j)
    {
    }
    StepFromLive(rows, cols, v, h);
  }

  /** Grids built from live sets that differ at some cell are different. */
  lemma FromLiveDiffers(rows: nat, cols: nat, a: set<(int, int)>, b: set<(int, int)>, r: int, c: int)
    requires 0 <= r < rows && 0 <= c < cols
    requires (r, c) !in a && (r, c) in b
    ensures FromLive(rows, cols, a) != FromLive(rows, cols, b)
  {
    var g, h := FromLive(rows, cols, a), FromLive(rows, cols, b);
    assert g.cells[r][c] == 0 && h.cells[r][c] == 1;
  }

  /** The two phases of the blinker are different grids. */
  lemma BlinkerPhasesDiffer(rows: nat, cols: nat, r: int, c: int)
    requires BlinkerFits(rows, cols, r, c)
    ensures FromLive(rows, cols, Horizontal(r, c)) != FromLive(rows, cols, Vertical(r, c))
  {
    FromLiveDiffers(rows, cols, Horizontal(r, c), Vertical(r, c), r - 1, c);
  }

  /** The blinker oscillates with period 2: horizontal, vertical, horizontal
      again, and so on for every even number of generations. */
  lemma BlinkerOscillates(rows: nat, cols: nat, r: int, c: int, k: nat)
    requires BlinkerFits(rows, cols, r, c)
    ensures var g := FromLive(rows, cols, Horizontal(r, c));
            Step(g) != g && Step(Step(g)) == g && Run(g, 2 * k) == g
  {
    BlinkerPhasesDiffer(rows, cols, r, c);
    HorizontalTurnsVertical(rows, cols, r, c);
    VerticalTurnsHorizontal(rows, cols, r, c);
    RunPeriodTwo(FromLive(rows, cols, Horizontal(r, c)), k);
  }
}
