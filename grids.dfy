/** Two-dimensional grids of labels, and the link between a label array and its abstract value. */
module Grids {

  /** A pixel as its channel values; `np.array_equal` on two pixels is equality of these sequences. */
  type Pixel = seq<int>

  /** A label grid as a value: row `i`, column `j` is `g[i][j]`. */
  type Grid = seq<seq<int>>

  ghost predicate Shaped<T>(g: seq<seq<T>>, rows: nat, cols: nat) {
    |g| == rows && forall i :: 0 <= i < rows ==> |g[i]| == cols
  }

  /** `np.zeros((rows, cols))`. */
  function Zeros(rows: nat, cols: nat): (g: Grid)
    ensures Shaped(g, rows, cols)
    ensures forall i, j :: 0 <= i < rows && 0 <= j < cols ==> g[i][j] == 0
  {
    seq(rows, _ => seq(cols, _ => 0))
  }

  /** The grid after `label_map[x][y] = v`. */
  function SetCell(g: Grid, x: int, y: int, v: int): (r: Grid)
    requires 0 <= x < |g| && 0 <= y < |g[x]|
    ensures |r| == |g| && forall i :: 0 <= i < |g| ==> |r[i]| == |g[i]|
    ensures forall i, j :: 0 <= i < |g| && 0 <= j < |g[i]| ==> r[i][j] == if i == x && j == y then v else g[i][j]
  {
    g[x := g[x][y := v]]
  }

  /** The array `a` currently holds the grid `g`. */
  ghost predicate Holds(a: array2<int>, g: Grid)
    reads a
  {
    Shaped(g, a.Length0, a.Length1) &&
    forall i, j :: 0 <= i < a.Length0 && 0 <= j < a.Length1 ==> a[i, j] == g[i][j]
  }
}
