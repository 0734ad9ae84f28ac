/**
 The grid state of the simulation: a rectangular array of cell states where
 0 means dead and 1 means alive, together with its dimensions. The program
 keeps these as the module-level `cells_states`, `rows` and `cols`; here they
 are one immutable value, and every edit produces a new grid.
 */
module Grids {

  datatype Grid = Grid(rows: nat, cols: nat, cells: seq<seq<int>>)

  /** `(r, c)` addresses a cell of `g`. */
  predicate InBounds(g: Grid, r: int, c: int) {
    0 <= r < g.rows && 0 <= c < g.cols
  }

  /** Exactly `rows` rows of exactly `cols` entries, every entry 0 or 1. */
  predicate WellFormed(g: Grid) {
    && |g.cells| == g.rows
    && (forall r :: 0 <= r < |g.cells| ==> |g.cells[r]| == g.cols)
    && (forall r, c :: 0 <= r < |g.cells| && 0 <= c < |g.cells[r]| ==>
          g.cells[r][c] == 0 || g.cells[r][c] == 1)
  }

  /** `(r, c)` is a cell of `g` and it is alive. */
  predicate Alive(g: Grid, r: int, c: int) {
    0 <= r < |g.cells| && 0 <= c < |g.cells[r]| && g.cells[r][c] == 1
  }

  predicate SameShape(g: Grid, h: Grid) {
    g.rows == h.rows && g.cols == h.cols
  }

  /** Every cell of `g` is dead. */
  predicate AllDead(g: Grid) {
    forall r, c :: 0 <= r < |g.cells| && 0 <= c < |g.cells[r]| ==> g.cells[r][c] == 0
  }

  /** Two well-formed grids of one shape that agree on every cell are the same grid. */
  lemma {:induction false} Extensionality(g: Grid, h: Grid)
    requires WellFormed(g) && WellFormed(h) && SameShape(g, h)
    requires forall r, c :: InBounds(g, r, c) ==> g.cells[r][c] == h.cells[r][c]
    ensures g == h
  {
    forall r | 0 <= r < g.rows
      ensures g.cells[r] == h.cells[r]
    {
      assert forall c :: 0 <= c < g.cols ==> g.cells[r][c] == h.cells[r][c] by {
        forall c | 0 <= c < g.cols
          ensures g.cells[r][c] == h.cells[r][c]
        {
          assert InBounds(g, r, c);
        }
      }
    }
  }

  /** The all-dead grid of the given dimensions; the program builds it as the
      blank next generation and as the state after a reset. */
  function Blank(rows: nat, cols: nat): (g: Grid)
    ensures WellFormed(g) && g.rows == rows && g.cols == cols
    ensures AllDead(g)
  {
    Grid(rows, cols, seq(rows, _ => seq(cols, _ => 0)))
  }

  /** The reset button: the grid is replaced by the all-dead grid of the same size. */
  function Reset(g: Grid): (z: Grid)
    ensures WellFormed(z) && SameShape(g, z) && AllDead(z)
  {
    Blank(g.rows, g.cols)
  }

  /** The all-dead grid of a shape is unique: a well-formed grid with no live
      cell is what a reset of it yields, so a reset changes nothing on it. */
  lemma {:induction false} AllDeadIsReset(g: Grid)
    requires WellFormed(g) && AllDead(g)
    ensures Reset(g) == g
  {
    var z := Reset(g);
    forall r, c | InBounds(g, r, c)
      ensures z.cells[r][c] == g.cells[r][c]
    {
    }
    Extensionality(z, g);
  }

  /** The state change of a click on cell `(r, c)`: a dead (black) cell becomes
      alive and any other becomes dead. Nothing else changes. */
  function Toggle(g: Grid, r: int, c: int): (t: Grid)
    requires WellFormed(g) && InBounds(g, r, c)
    ensures WellFormed(t) && SameShape(g, t)
    ensures t.cells[r][c] == 1 - g.cells[r][c]
    ensures forall r', c' :: InBounds(g, r', c') && (r', c') != (r, c) ==>
              t.cells[r'][c'] == g.cells[r'][c']
  {
    var flipped := if g.cells[r][c] == 0 then 1 else 0;
    g.(cells := g.cells[r := g.cells[r][c := flipped]])
  }

  /** Clicking the same cell twice restores the original grid. */
  lemma {:induction false} ToggleTwice(g: Grid, r: int, c: int)
    requires WellFormed(g) && InBounds(g, r, c)
    ensures Toggle(Toggle(g, r, c), r, c) == g
  {
    var t := Toggle(Toggle(g, r, c), r, c);
    forall r', c' | InBounds(g, r', c')
      ensures t.cells[r'][c'] == g.cells[r'][c']
    {
    }
    Extensionality(t, g);
  }
}
