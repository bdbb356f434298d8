/**
 * `image_segmentation`: one raster pass that gives every non-background pixel a provisional label
 * and records a one-way edge in `connection` when a pixel meets a differently labelled neighbour.
 *
 * The pass is specified by functions over a value state (`VisitNeighbour`, `VisitFrom`, `Step`,
 * `ScanRow`, `ScanRows`, `Scan`); the method `ImageSegmentation` runs it on a label array and is
 * proved equal to `Scan`; the lemmas state what the pass guarantees.
 */
module Segmentation {
  import opened Seqs
  import opened Dicts
  import opened Grids

  /** The state the loops update: the label map, the connection dict and the `label` counter. */
  datatype ScanState = ScanState(grid: Grid, conn: Dict, nextLabel: int)

  /**
   * What holds between any two cells of the pass: labels issued so far are 1 .. nextLabel - 1, they
   * are the keys of `connection` in increasing insertion order, and every label in the grid or in
   * a list is one of them.
   */
  ghost predicate Inv(s: ScanState, rows: nat, cols: nat) {
    && Shaped(s.grid, rows, cols)
    && s.nextLabel >= 1
    && (forall i, j :: 0 <= i < rows && 0 <= j < cols ==> 0 <= s.grid[i][j] < s.nextLabel)
    && s.conn.Valid()
    && s.conn.order == Range(1, s.nextLabel)
    && (forall k :: k in s.conn.lists <==> 1 <= k < s.nextLabel)
    && (forall k, m :: k in s.conn.lists && m in s.conn.lists[k] ==> 1 <= m < s.nextLabel)
  }

  /** `label_map = np.zeros((rows, cols))`, `connection = {}`, `label = 1`. */
  function Init(rows: nat, cols: nat): (s: ScanState)
    ensures Inv(s, rows, cols)
  {
    ScanState(Zeros(rows, cols), Empty(), 1)
  }

  /** The neighbour list of the source, in its order: west, north-west, north, north again. */
  function Neighbours(x: int, y: int): seq<(int, int)> {
    [(x, y - 1), (x - 1, y - 1), (x - 1, y), (x - 1, y)]
  }

  /** Four positions, each before the cell in raster order; the north-east neighbour is not one of them. */
  lemma NeighboursPrecede(x: int, y: int)
    ensures |Neighbours(x, y)| == 4
    ensures forall k :: 0 <= k < 4 ==> LexLess(Neighbours(x, y)[k].0, Neighbours(x, y)[k].1, x, y)
    ensures (x - 1, y + 1) !in Neighbours(x, y)
  {
  }

  /** Python's tuple comparison `(a, b) < (c, d)`. */
  predicate LexLess(a: int, b: int, c: int, d: int) {
    a < c || (a == c && b < d)
  }

  /** The bounds guard `(i, j) < (0, 0) or (i, j) > (rows, cols)`. */
  predicate Skipped(i: int, j: int, rows: int, cols: int)
    // every row above the grid is skipped, and no position inside the grid is
    ensures i < 0 ==> Skipped(i, j, rows, cols)
    ensures 0 <= i < rows && 0 <= j < cols ==> !Skipped(i, j, rows, cols)
  {
    LexLess(i, j, 0, 0) || LexLess(rows, cols, i, j)
  }

  /** Python list indexing: a negative index counts from the end of the row. */
  function PyIndex(j: int, n: int): (r: int)
    // any index in -n..n-1 lands in the row; a non-negative one is kept
    ensures -n <= j < n ==> 0 <= r < n
    ensures j >= 0 ==> r == j
  {
    if j < 0 then j + n else j
  }

  /**
   * On the neighbours of a cell inside the grid the guard skips exactly the positions
   * lexicographically below (0, 0); its upper clause never fires; a position that passes is read
   * inside the grid, and column -1 (which passes whenever the row is at least 1) reads the last column.
   */
  lemma GuardOnNeighbours(rows: nat, cols: nat, x: int, y: int, k: int)
    requires 0 <= x < rows && 0 <= y < cols && 0 <= k < 4
    ensures var (i, j) := Neighbours(x, y)[k];
      && (Skipped(i, j, rows, cols) <==> i < 0 || (i == 0 && j < 0))
      && !LexLess(rows, cols, i, j)
      && (!Skipped(i, j, rows, cols) ==> 0 <= i < rows && 0 <= PyIndex(j, cols) < cols)
      && (j == -1 && i >= 1 ==> !Skipped(i, j, rows, cols) && PyIndex(j, cols) == cols - 1)
  {
  }

  /** One pass of the inner `for` loop on neighbour `k`: the new state, and whether it breaks. */
  function VisitNeighbour(s: ScanState, rows: nat, cols: nat, x: int, y: int, k: nat): (r: (ScanState, bool))
    requires Inv(s, rows, cols) && 0 <= x < rows && 0 <= y < cols && k < 4
    ensures Inv(r.0, rows, cols) && r.0.nextLabel == s.nextLabel && r.0.conn.order == s.conn.order
  {
    var (i, j) := Neighbours(x, y)[k];
    if Skipped(i, j, rows, cols) then (s, false)
    else
      var v := s.grid[i][PyIndex(j, cols)];
      var cur := s.grid[x][y];
      if v == 0 then (s, false)
      else if cur == 0 then (s.(grid := SetCell(s.grid, x, y, v)), false)
      else if cur != v then (s.(conn := s.conn.Append(v, cur)), true)
      else (s, false)
  }

  /** The inner `for` loop from neighbour `k` on: the final state and whether it ended by `break`. */
  function VisitFrom(s: ScanState, rows: nat, cols: nat, x: int, y: int, k: nat): (r: (ScanState, bool))
    requires Inv(s, rows, cols) && 0 <= x < rows && 0 <= y < cols && k <= 4
    decreases 4 - k
    ensures Inv(r.0, rows, cols) && r.0.nextLabel == s.nextLabel && r.0.conn.order == s.conn.order
    // only cell (x, y) is written
    ensures forall i, j :: 0 <= i < rows && 0 <= j < cols && (i != x || j != y) ==> r.0.grid[i][j] == s.grid[i][j]
    // a cell that already holds a label keeps it
    ensures s.grid[x][y] != 0 ==> r.0.grid[x][y] == s.grid[x][y]
    // a break appends exactly one edge, from another label to the cell's; otherwise nothing is appended
    // (`VisitFromEdge` says which label)
    ensures if r.1 then
              exists v :: v in s.conn.lists && v != 0 && v != r.0.grid[x][y] &&
                r.0.conn.lists == s.conn.lists[v := s.conn.lists[v] + [r.0.grid[x][y]]]
            else r.0.conn == s.conn
    ensures r.1 ==> r.0.grid[x][y] != 0
  {
    if k == 4 then (s, false)
    else
      var (s', stop) := VisitNeighbour(s, rows, cols, x, y, k);
      if stop then (s', true) else VisitFrom(s', rows, cols, x, y, k + 1)
  }

  /** The `else` clause of the inner loop: a fresh label, with an empty list in `connection`. */
  function Fresh(s: ScanState, rows: nat, cols: nat, x: int, y: int): (r: ScanState)
    requires Inv(s, rows, cols) && 0 <= x < rows && 0 <= y < cols
    ensures Inv(r, rows, cols)
  {
    assert Range(1, s.nextLabel + 1) == Range(1, s.nextLabel) + [s.nextLabel];
    ScanState(SetCell(s.grid, x, y, s.nextLabel), s.conn.Put(s.nextLabel, []), s.nextLabel + 1)
  }

  /** The body of the column loop for cell (x, y). */
  function Step(s: ScanState, image: seq<seq<Pixel>>, background: Pixel, rows: nat, cols: nat, x: int, y: int): (r: ScanState)
    requires Inv(s, rows, cols) && Shaped(image, rows, cols) && 0 <= x < rows && 0 <= y < cols
    ensures Inv(r, rows, cols)
    ensures s.nextLabel <= r.nextLabel <= s.nextLabel + 1
    ensures forall i, j :: 0 <= i < rows && 0 <= j < cols && (i != x || j != y) ==> r.grid[i][j] == s.grid[i][j]
    // starting from an unlabelled cell, the cell ends unlabelled exactly when it is background
    ensures s.grid[x][y] == 0 ==> (r.grid[x][y] == 0 <==> image[x][y] == background)
  {
    if image[x][y] == background then s
    else
      var (s', broke) := VisitFrom(s, rows, cols, x, y, 0);
      if !broke && s'.grid[x][y] == 0 then Fresh(s', rows, cols, x, y) else s'
  }

  /** Cells (x, 0) .. (x, y - 1) of row x. */
  function ScanRow(s: ScanState, image: seq<seq<Pixel>>, background: Pixel, rows: nat, cols: nat, x: int, y: int): (r: ScanState)
    requires Inv(s, rows, cols) && Shaped(image, rows, cols) && 0 <= x < rows && 0 <= y <= cols
    decreases y
    ensures Inv(r, rows, cols)
  {
    if y == 0 then s
    else Step(ScanRow(s, image, background, rows, cols, x, y - 1), image, background, rows, cols, x, y - 1)
  }

  /** Rows 0 .. x - 1. */
  function ScanRows(s: ScanState, image: seq<seq<Pixel>>, background: Pixel, rows: nat, cols: nat, x: int): (r: ScanState)
    requires Inv(s, rows, cols) && Shaped(image, rows, cols) && 0 <= x <= rows
    decreases x
    ensures Inv(r, rows, cols)
  {
    if x == 0 then s
    else ScanRow(ScanRows(s, image, background, rows, cols, x - 1), image, background, rows, cols, x - 1, cols)
  }

  /** The whole pass, from a zero label map and an empty dict. */
  function Scan(image: seq<seq<Pixel>>, background: Pixel, rows: nat, cols: nat): (r: ScanState)
    requires Shaped(image, rows, cols)
    ensures Inv(r, rows, cols)
  {
    ScanRows(Init(rows, cols), image, background, rows, cols, rows)
  }

  // ---------------------------------------------------------------------------------------------
  // What one cell does

  /** The label of the first neighbour, in list order, that passes the guard and is labelled; 0 if none. */
  function FirstLabelled(g: Grid, rows: nat, cols: nat, x: int, y: int, k: nat): int
    requires Shaped(g, rows, cols) && 0 <= x < rows && 0 <= y < cols && k <= 4
    decreases 4 - k
  {
    if k == 4 then 0
    else
      var (i, j) := Neighbours(x, y)[k];
      if !Skipped(i, j, rows, cols) && g[i][PyIndex(j, cols)] != 0 then g[i][PyIndex(j, cols)]
      else FirstLabelled(g, rows, cols, x, y, k + 1)
  }

  /** An unlabelled cell takes the label of the first labelled neighbour that the loop reaches. */
  lemma {:induction false} VisitFromCopies(s: ScanState, rows: nat, cols: nat, x: int, y: int, k: nat)
    requires Inv(s, rows, cols) && 0 <= x < rows && 0 <= y < cols && k <= 4
    requires s.grid[x][y] == 0
    decreases 4 - k
    ensures VisitFrom(s, rows, cols, x, y, k).0.grid[x][y] == FirstLabelled(s.grid, rows, cols, x, y, k)
  {
    if k < 4 {
      var (s', stop) := VisitNeighbour(s, rows, cols, x, y, k);
      if s' == s {
        VisitFromCopies(s, rows, cols, x, y, k + 1);
      }
    }
  }

  /**
   * A non-background cell copies the first labelled neighbour in the order west, north-west, north,
   * north; when there is none it takes the counter's value, the counter moves on, and the new key's
   * list is empty.
   */
  lemma StepLabel(s: ScanState, image: seq<seq<Pixel>>, background: Pixel, rows: nat, cols: nat, x: int, y: int)
    requires Inv(s, rows, cols) && Shaped(image, rows, cols) && 0 <= x < rows && 0 <= y < cols
    requires s.grid[x][y] == 0 && image[x][y] != background
    ensures var r := Step(s, image, background, rows, cols, x, y);
      var f := FirstLabelled(s.grid, rows, cols, x, y, 0);
      && r.grid[x][y] == (if f != 0 then f else s.nextLabel)
      && (r.nextLabel == s.nextLabel + 1 <==> f == 0)
      && (f == 0 ==> r.conn.order == s.conn.order + [s.nextLabel] && r.conn.lists[s.nextLabel] == [])
  {
    VisitFromCopies(s, rows, cols, x, y, 0);
  }

  /** What the loop sees at neighbour `k` of grid `g`: its label, or 0 when the guard skips it. */
  function Reading(g: Grid, rows: nat, cols: nat, x: int, y: int, k: nat): int
    requires Shaped(g, rows, cols) && 0 <= x < rows && 0 <= y < cols && k < 4
  {
    var (i, j) := Neighbours(x, y)[k];
    GuardOnNeighbours(rows, cols, x, y, k);
    if Skipped(i, j, rows, cols) then 0 else g[i][PyIndex(j, cols)]
  }

  /**
   * The label whose list the neighbour loop appends to, read off the grid `g` before the loop: the
   * first neighbour from `k` on that passes the guard, is labelled and differs from the label `f` the
   * cell holds by then. While `f` is 0 the first labelled neighbour is copied instead. 0 if none.
   */
  function FirstOther(g: Grid, rows: nat, cols: nat, x: int, y: int, k: nat, f: int): int
    requires Shaped(g, rows, cols) && 0 <= x < rows && 0 <= y < cols && k <= 4
    decreases 4 - k
  {
    if k == 4 then 0
    else
      var v := Reading(g, rows, cols, x, y, k);
      if v == 0 then FirstOther(g, rows, cols, x, y, k + 1, f)
      else if f == 0 then FirstOther(g, rows, cols, x, y, k + 1, v)
      else if v != f then v
      else FirstOther(g, rows, cols, x, y, k + 1, f)
  }

  /** One neighbour, in terms of what `g` shows there: nothing, a copy, or an edge and a `break`. */
  lemma NeighbourEdge(s: ScanState, g: Grid, rows: nat, cols: nat, x: int, y: int, k: nat)
    requires Inv(s, rows, cols) && 0 <= x < rows && 0 <= y < cols && k < 4
    requires AgreeExcept(s.grid, g, rows, cols, x, y) && (k >= 1 || s.grid[x][y] == g[x][y])
    ensures var v := Reading(g, rows, cols, x, y, k);
      var f := s.grid[x][y];
      var (s', stop) := VisitNeighbour(s, rows, cols, x, y, k);
      && (v == 0 || v == f ==> s' == s && !stop)
      && (v != 0 && f == 0 ==> s' == s.(grid := SetCell(s.grid, x, y, v)) && !stop)
      && (v != 0 && f != 0 && v != f ==> stop && v in s.conn.lists && s' == s.(conn := s.conn.Append(v, f)))
  {
    var (i, j) := Neighbours(x, y)[k];
    GuardOnNeighbours(rows, cols, x, y, k);
    if !Skipped(i, j, rows, cols) {
      assert g[i][PyIndex(j, cols)] == s.grid[i][PyIndex(j, cols)];
    }
  }

  /**
   * The loop breaks exactly when a labelled neighbour met after the copy carries another label, and
   * then that neighbour's list, and no other, gains the cell's label. `g` is the grid before the loop:
   * it agrees with the current one except at cell (x, y), which only neighbour 0 can read.
   */
  lemma {:induction false} VisitFromEdge(s: ScanState, g: Grid, rows: nat, cols: nat, x: int, y: int, k: nat)
    requires Inv(s, rows, cols) && 0 <= x < rows && 0 <= y < cols && k <= 4
    requires AgreeExcept(s.grid, g, rows, cols, x, y) && (k >= 1 || s.grid[x][y] == g[x][y])
    decreases 4 - k, 1
    ensures var (r, broke) := VisitFrom(s, rows, cols, x, y, k);
      var e := FirstOther(g, rows, cols, x, y, k, s.grid[x][y]);
      && (broke <==> e != 0)
      && (e != 0 ==> e in s.conn.lists && r.conn.lists == s.conn.lists[e := s.conn.lists[e] + [r.grid[x][y]]])
      && (e == 0 ==> r.conn == s.conn)
  {
    if k < 4 {
      NeighbourEdge(s, g, rows, cols, x, y, k);
      if !VisitNeighbour(s, rows, cols, x, y, k).1 {
        VisitOnEdge(s, g, rows, cols, x, y, k);
      }
    }
  }

  /** The step of `VisitFromEdge` past a neighbour that does not break the loop. */
  lemma {:induction false} VisitOnEdge(s: ScanState, g: Grid, rows: nat, cols: nat, x: int, y: int, k: nat)
    requires Inv(s, rows, cols) && 0 <= x < rows && 0 <= y < cols && k < 4
    requires AgreeExcept(s.grid, g, rows, cols, x, y) && (k >= 1 || s.grid[x][y] == g[x][y])
    requires !VisitNeighbour(s, rows, cols, x, y, k).1
    decreases 4 - k, 0
    ensures var (r, broke) := VisitFrom(s, rows, cols, x, y, k);
      var e := FirstOther(g, rows, cols, x, y, k, s.grid[x][y]);
      && (broke <==> e != 0)
      && (e != 0 ==> e in s.conn.lists && r.conn.lists == s.conn.lists[e := s.conn.lists[e] + [r.grid[x][y]]])
      && (e == 0 ==> r.conn == s.conn)
  {
    NeighbourEdge(s, g, rows, cols, x, y, k);
    var s' := VisitNeighbour(s, rows, cols, x, y, k).0;
    assert VisitFrom(s, rows, cols, x, y, k) == VisitFrom(s', rows, cols, x, y, k + 1);
    var f := s.grid[x][y];
    assert FirstOther(g, rows, cols, x, y, k, f) == FirstOther(g, rows, cols, x, y, k + 1, s'.grid[x][y]);
    VisitFromEdge(s', g, rows, cols, x, y, k + 1);
  }

  /**
   * What one non-background, unlabelled cell records in `connection`: with `f` its copied label
   * and `e` the first later neighbour carrying another label, the list of `e` gains `f`. With no such
   * neighbour nothing is appended, and with no labelled neighbour at all a fresh key with an empty
   * list is opened.
   */
  lemma StepRecordsEdge(s: ScanState, image: seq<seq<Pixel>>, background: Pixel, rows: nat, cols: nat, x: int, y: int)
    requires Inv(s, rows, cols) && Shaped(image, rows, cols) && 0 <= x < rows && 0 <= y < cols
    requires s.grid[x][y] == 0 && image[x][y] != background
    ensures var r := Step(s, image, background, rows, cols, x, y);
      var f := FirstLabelled(s.grid, rows, cols, x, y, 0);
      var e := FirstOther(s.grid, rows, cols, x, y, 0, 0);
      && (e != 0 ==> f != 0 && e != f && e in s.conn.lists && r.conn.lists == s.conn.lists[e := s.conn.lists[e] + [f]])
      && (e == 0 && f != 0 ==> r.conn == s.conn)
      && (f == 0 ==> e == 0 && r.conn == s.conn.Put(s.nextLabel, []))
  {
    VisitFromCopies(s, rows, cols, x, y, 0);
    VisitFromEdge(s, s.grid, rows, cols, x, y, 0);
  }

  /** The grids `g` and `h` differ at most in cell (p, q). */
  ghost predicate AgreeExcept(g: Grid, h: Grid, rows: nat, cols: nat, p: int, q: int) {
    Shaped(g, rows, cols) && Shaped(h, rows, cols) &&
    forall i, j :: 0 <= i < rows && 0 <= j < cols && (i != p || j != q) ==> g[i][j] == h[i][j]
  }

  lemma {:induction false} VisitFromIgnoresNorthEast(s: ScanState, t: ScanState, rows: nat, cols: nat, x: int, y: int, k: nat)
    requires Inv(s, rows, cols) && Inv(t, rows, cols) && 1 <= x < rows && 1 <= y && y + 1 < cols && k <= 4
    requires t.conn == s.conn && t.nextLabel == s.nextLabel
    requires AgreeExcept(s.grid, t.grid, rows, cols, x - 1, y + 1)
    decreases 4 - k
    ensures var (rs, bs) := VisitFrom(s, rows, cols, x, y, k);
      var (rt, bt) := VisitFrom(t, rows, cols, x, y, k);
      bs == bt && rs.conn == rt.conn && rs.grid[x][y] == rt.grid[x][y] &&
      AgreeExcept(rs.grid, rt.grid, rows, cols, x - 1, y + 1)
  {
    if k < 4 {
      var (s', ss) := VisitNeighbour(s, rows, cols, x, y, k);
      var (t', st) := VisitNeighbour(t, rows, cols, x, y, k);
      if !ss {
        VisitFromIgnoresNorthEast(s', t', rows, cols, x, y, k + 1);
      }
    }
  }

  /**
   * North-east is never inspected: away from the wrap-around at column 0, whatever label cell
   * (x - 1, y + 1) holds, cell (x, y) gets the same label, the same edges and the same counter.
   */
  lemma StepIgnoresNorthEast(s: ScanState, h: Grid, image: seq<seq<Pixel>>, background: Pixel, rows: nat, cols: nat, x: int, y: int)
    requires Inv(s, rows, cols) && Inv(s.(grid := h), rows, cols) && Shaped(image, rows, cols)
    requires 1 <= x < rows && 1 <= y && y + 1 < cols
    requires AgreeExcept(s.grid, h, rows, cols, x - 1, y + 1)
    ensures var r := Step(s, image, background, rows, cols, x, y);
      var r' := Step(s.(grid := h), image, background, rows, cols, x, y);
      r.grid[x][y] == r'.grid[x][y] && r.conn == r'.conn && r.nextLabel == r'.nextLabel
  {
    VisitFromIgnoresNorthEast(s, s.(grid := h), rows, cols, x, y, 0);
  }

  // ---------------------------------------------------------------------------------------------
  // What the whole pass does

  /** Cells before (x, y) in raster order are labelled exactly when they are not background; the rest are 0. */
  ghost predicate CoveredBefore(g: Grid, image: seq<seq<Pixel>>, background: Pixel, rows: nat, cols: nat, x: int, y: int)
    requires Shaped(g, rows, cols) && Shaped(image, rows, cols)
  {
    forall i, j :: 0 <= i < rows && 0 <= j < cols ==>
      if LexLess(i, j, x, y) then (g[i][j] == 0 <==> image[i][j] == background) else g[i][j] == 0
  }

  lemma {:induction false} ScanRowCovers(s: ScanState, image: seq<seq<Pixel>>, background: Pixel, rows: nat, cols: nat, x: int, y: int)
    requires Inv(s, rows, cols) && Shaped(image, rows, cols) && 0 <= x < rows && 0 <= y <= cols
    requires CoveredBefore(s.grid, image, background, rows, cols, x, 0)
    ensures CoveredBefore(ScanRow(s, image, background, rows, cols, x, y).grid, image, background, rows, cols, x, y)
  {
    if y > 0 {
      var p := ScanRow(s, image, background, rows, cols, x, y - 1);
      ScanRowCovers(s, image, background, rows, cols, x, y - 1);
      StepCovers(p, image, background, rows, cols, x, y - 1);
      assert ScanRow(s, image, background, rows, cols, x, y) == Step(p, image, background, rows, cols, x, y - 1);
    }
  }

  /** Processing cell (x, y) extends the covered prefix by that cell. */
  lemma StepCovers(p: ScanState, image: seq<seq<Pixel>>, background: Pixel, rows: nat, cols: nat, x: int, y: int)
    requires Inv(p, rows, cols) && Shaped(image, rows, cols) && 0 <= x < rows && 0 <= y < cols
    requires CoveredBefore(p.grid, image, background, rows, cols, x, y)
    ensures CoveredBefore(Step(p, image, background, rows, cols, x, y).grid, image, background, rows, cols, x, y + 1)
  {
    var r := Step(p, image, background, rows, cols, x, y);
    assert p.grid[x][y] == 0;
    forall i, j | 0 <= i < rows && 0 <= j < cols
      ensures if LexLess(i, j, x, y + 1) then (r.grid[i][j] == 0 <==> image[i][j] == background) else r.grid[i][j] == 0
    {
      if i != x || j != y {
        assert r.grid[i][j] == p.grid[i][j];
        assert LexLess(i, j, x, y + 1) == LexLess(i, j, x, y);
      }
    }
  }

  lemma {:induction false} ScanRowsCovers(s0: ScanState, image: seq<seq<Pixel>>, background: Pixel, rows: nat, cols: nat, x: int)
    requires Inv(s0, rows, cols) && Shaped(image, rows, cols) && 0 <= x <= rows
    requires CoveredBefore(s0.grid, image, background, rows, cols, 0, 0)
    ensures CoveredBefore(ScanRows(s0, image, background, rows, cols, x).grid, image, background, rows, cols, x, 0)
  {
    if x > 0 {
      ScanRowsCovers(s0, image, background, rows, cols, x - 1);
      var s := ScanRows(s0, image, background, rows, cols, x - 1);
      var r := ScanRow(s, image, background, rows, cols, x - 1, cols);
      ScanRowCovers(s, image, background, rows, cols, x - 1, cols);
      CoveredRowEnd(r.grid, image, background, rows, cols, x);
      assert ScanRows(s0, image, background, rows, cols, x) == r;
    }
  }

  /** The end of row x - 1 is the start of row x. */
  lemma CoveredRowEnd(g: Grid, image: seq<seq<Pixel>>, background: Pixel, rows: nat, cols: nat, x: int)
    requires Shaped(g, rows, cols) && Shaped(image, rows, cols)
    requires CoveredBefore(g, image, background, rows, cols, x - 1, cols)
    ensures CoveredBefore(g, image, background, rows, cols, x, 0)
  {
    forall i, j | 0 <= i < rows && 0 <= j < cols ensures LexLess(i, j, x, 0) == LexLess(i, j, x - 1, cols) {
    }
  }

  /** After the pass, a cell is 0 exactly when its pixel equals the background. */
  lemma ScanCoverage(image: seq<seq<Pixel>>, background: Pixel, rows: nat, cols: nat)
    requires Shaped(image, rows, cols)
    ensures var g := Scan(image, background, rows, cols).grid;
      forall i, j :: 0 <= i < rows && 0 <= j < cols ==> (g[i][j] == 0 <==> image[i][j] == background)
  {
    ScanRowsCovers(Init(rows, cols), image, background, rows, cols, rows);
  }

  // ---------------------------------------------------------------------------------------------
  // The pass on the label array

  /**
   * The neighbour loop for cell (x, y) (the inner `for ... else` of the source, without its `else`):
   * it leaves the array, dict and flag as `VisitFrom` says.
   */
  method InspectNeighbours(rows: nat, cols: nat, x: int, y: int, labelMap: array2<int>, ghost g: Grid,
                           connection: Dict, nextLabel: int)
    returns (ghost g': Grid, connection': Dict, broke: bool)
    requires labelMap.Length0 == rows && labelMap.Length1 == cols && 0 <= x < rows && 0 <= y < cols
    requires Holds(labelMap, g) && Inv(ScanState(g, connection, nextLabel), rows, cols)
    modifies labelMap
    ensures Holds(labelMap, g')
    ensures (ScanState(g', connection', nextLabel), broke) ==
            VisitFrom(ScanState(g, connection, nextLabel), rows, cols, x, y, 0)
  {
    ghost var start := ScanState(g, connection, nextLabel);
    g', connection', broke := g, connection, false;
    var neighbours := [(x, y - 1), (x - 1, y - 1), (x - 1, y), (x - 1, y)];
    var k := 0;
    while k < 4 && !broke
      invariant 0 <= k <= 4 && neighbours == Neighbours(x, y)
      invariant Holds(labelMap, g') && Inv(ScanState(g', connection', nextLabel), rows, cols)
      invariant if broke then (ScanState(g', connection', nextLabel), true) == VisitFrom(start, rows, cols, x, y, 0)
                else VisitFrom(ScanState(g', connection', nextLabel), rows, cols, x, y, k) == VisitFrom(start, rows, cols, x, y, 0)
    {
      var (i, j) := neighbours[k];
      g', connection', broke := InspectNeighbour(rows, cols, x, y, i, j, labelMap, g', connection', nextLabel);
      k := k + 1;
    }
  }

  /** One pass of the neighbour loop, on position (i, j), which is neighbour `k` of (x, y). */
  method InspectNeighbour(rows: nat, cols: nat, x: int, y: int, i: int, j: int, labelMap: array2<int>,
                          ghost g: Grid, connection: Dict, nextLabel: int)
    returns (ghost g': Grid, connection': Dict, broke: bool)
    requires labelMap.Length0 == rows && labelMap.Length1 == cols && 0 <= x < rows && 0 <= y < cols
    requires (i, j) in Neighbours(x, y)
    requires Holds(labelMap, g) && Inv(ScanState(g, connection, nextLabel), rows, cols)
    modifies labelMap
    ensures Holds(labelMap, g') && Inv(ScanState(g', connection', nextLabel), rows, cols)
    ensures forall k :: 0 <= k < 4 && Neighbours(x, y)[k] == (i, j) ==>
      (ScanState(g', connection', nextLabel), broke) == VisitNeighbour(ScanState(g, connection, nextLabel), rows, cols, x, y, k)
  {
    g', connection', broke := g, connection, false;
    if !Skipped(i, j, rows, cols) {
      var v := labelMap[i, PyIndex(j, cols)];
      if v != 0 {
        if labelMap[x, y] == 0 {
          labelMap[x, y] := v;
          g' := SetCell(g', x, y, v);
        } else if labelMap[x, y] != v {
          connection' := connection'.Append(v, labelMap[x, y]);
          broke := true;
        }
      }
    }
  }

  /** The body of the column loop for a cell: the neighbour loop, then the `else` clause. */
  method LabelCell(rows: nat, cols: nat, x: int, y: int, image: seq<seq<Pixel>>, background: Pixel,
                   labelMap: array2<int>, ghost g: Grid, connection: Dict, nextLabel: int)
    returns (ghost g': Grid, connection': Dict, nextLabel': int)
    requires Shaped(image, rows, cols) && labelMap.Length0 == rows && labelMap.Length1 == cols
    requires 0 <= x < rows && 0 <= y < cols
    requires Holds(labelMap, g) && Inv(ScanState(g, connection, nextLabel), rows, cols)
    modifies labelMap
    ensures Holds(labelMap, g')
    ensures ScanState(g', connection', nextLabel') ==
            Step(ScanState(g, connection, nextLabel), image, background, rows, cols, x, y)
  {
    g', connection', nextLabel' := g, connection, nextLabel;
    if image[x][y] != background {
      var broke;
      g', connection', broke := InspectNeighbours(rows, cols, x, y, labelMap, g, connection, nextLabel);
      if !broke && labelMap[x, y] == 0 {
        labelMap[x, y] := nextLabel;
        g' := SetCell(g', x, y, nextLabel);
        connection' := connection'.Put(nextLabel, []);
        nextLabel' := nextLabel + 1;
      }
    }
  }

  /**
   * `image_segmentation(rows, cols, image_map, label_map, connection, background)`, called on the
   * zero label map and the empty dict that `find_sprites` creates; it returns the filled dict.
   */
  method ImageSegmentation(rows: nat, cols: nat, image: seq<seq<Pixel>>, labelMap: array2<int>, background: Pixel)
    returns (connection: Dict)
    requires Shaped(image, rows, cols) && labelMap.Length0 == rows && labelMap.Length1 == cols
    requires forall i, j :: 0 <= i < rows && 0 <= j < cols ==> labelMap[i, j] == 0
    modifies labelMap
    ensures Holds(labelMap, Scan(image, background, rows, cols).grid)
    ensures connection == Scan(image, background, rows, cols).conn
  {
    ghost var g := Zeros(rows, cols);
    connection := Empty();
    var nextLabel := 1;
    for x := 0 to rows
      invariant Holds(labelMap, g)
      invariant ScanState(g, connection, nextLabel) == ScanRows(Init(rows, cols), image, background, rows, cols, x)
    {
      for y := 0 to cols
        invariant Holds(labelMap, g)
        invariant ScanState(g, connection, nextLabel) ==
          ScanRow(ScanRows(Init(rows, cols), image, background, rows, cols, x), image, background, rows, cols, x, y)
      {
        g, connection, nextLabel := LabelCell(rows, cols, x, y, image, background, labelMap, g, connection, nextLabel);
      }
    }
  }
}
