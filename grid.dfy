/** The square grid of the Puzzle of Knowledge: a list of rows of words,
    with `"*"` marking an empty cell. */
module Grids {
  import opened WordGraph
  import opened Snail

  type Grid = seq<seq<Token>>

  /** The mark of an empty cell. */
  const Blank: Token := "*"

  ghost predicate Square(grid: Grid, n: nat) {
    |grid| == n && forall i :: 0 <= i < n ==> |grid[i]| == n
  }

  function At(grid: Grid, n: nat, x: Cell): Token
    requires Square(grid, n) && InGrid(n, x)
  {
    grid[x.0][x.1]
  }

  /** `[["*" for i in range(n)] for j in range(n)]`. */
  function BlankGrid(n: nat): (g: Grid)
    ensures Square(g, n)
    ensures forall x :: InGrid(n, x) ==> At(g, n, x) == Blank
  {
    seq(n, j => seq(n, i => Blank))
  }

  /** `puzzle[x.0][x.1] = t`. */
  function Place(grid: Grid, n: nat, x: Cell, t: Token): (g: Grid)
    requires Square(grid, n) && InGrid(n, x)
    ensures Square(g, n)
    ensures At(g, n, x) == t
    ensures forall y :: InGrid(n, y) && y != x ==> At(g, n, y) == At(grid, n, y)
  {
    grid[x.0 := grid[x.0][x.1 := t]]
  }

  /** No word stands in two cells. */
  ghost predicate Distinct(grid: Grid, n: nat)
    requires Square(grid, n)
  {
    forall x, y :: InGrid(n, x) && InGrid(n, y) && x != y && At(grid, n, x) != Blank ==> At(grid, n, x) != At(grid, n, y)
  }
}
