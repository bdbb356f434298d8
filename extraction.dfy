/**
 * The extraction stage of `find_sprites`: surviving entries are numbered 1, 2, ... in dict order, the
 * label map is rewritten by value for each of them, and a `Sprite` is built from the rows and
 * columns of the cells that then hold the new number.
 */
module Extraction {
  import opened Wrappers
  import opened Dicts
  import opened Grids
  import opened Sprites

  // ---------------------------------------------------------------------------------------------
  // Masked assignment `label_map[label_map == a] = label`

  /** The grid after every cell equal to `from` is set to `to`. */
  function RelabelGrid(g: Grid, from: int, to: int): (r: Grid)
    ensures |r| == |g| && forall i :: 0 <= i < |g| ==> |r[i]| == |g[i]|
    ensures forall i, j :: 0 <= i < |g| && 0 <= j < |g[i]| ==> r[i][j] == if g[i][j] == from then to else g[i][j]
  {
    seq(|g|, i requires 0 <= i < |g| => seq(|g[i]|, j requires 0 <= j < |g[i]| => if g[i][j] == from then to else g[i][j]))
  }

  /** `for a in vals: label_map[label_map == a] = to`. */
  function RelabelAll(g: Grid, vals: seq<int>, to: int): (r: Grid)
    decreases |vals|
    ensures |r| == |g| && forall i :: 0 <= i < |g| ==> |r[i]| == |g[i]|
  {
    if vals == [] then g else RelabelAll(RelabelGrid(g, vals[0], to), vals[1..], to)
  }

  /**
   * Rewriting by value, one value after the other, sends a cell to `to` exactly when its value is
   * one of `vals`: a cell already rewritten to `to` keeps it, whatever comes later.
   */
  lemma {:induction false} RelabelAllCell(g: Grid, vals: seq<int>, to: int, i: int, j: int)
    requires 0 <= i < |g| && 0 <= j < |g[i]|
    decreases |vals|
    ensures RelabelAll(g, vals, to)[i][j] == if g[i][j] in vals then to else g[i][j]
  {
    if vals != [] {
      var h := RelabelGrid(g, vals[0], to);
      RelabelAllCell(h, vals[1..], to, i, j);
      assert vals == [vals[0]] + vals[1..];
    }
  }

  /** The rewrite for one entry: its members, then its key. */
  function RelabelEntry(g: Grid, members: seq<int>, key: int, to: int): (r: Grid)
    ensures |r| == |g| && forall i :: 0 <= i < |g| ==> |r[i]| == |g[i]|
  {
    RelabelGrid(RelabelAll(g, members, to), key, to)
  }

  /** A cell becomes the new number exactly when it holds a member or the key; every other cell is kept. */
  lemma RelabelEntryCell(g: Grid, members: seq<int>, key: int, to: int, i: int, j: int)
    requires 0 <= i < |g| && 0 <= j < |g[i]|
    ensures RelabelEntry(g, members, key, to)[i][j] ==
      if g[i][j] in members || g[i][j] == key || g[i][j] == to then to else g[i][j]
  {
    RelabelAllCell(g, members, to, i, j);
  }

  /** The masked assignment on the label array. */
  method Relabel(a: array2<int>, ghost g: Grid, from: int, to: int)
    requires Holds(a, g)
    modifies a
    ensures Holds(a, RelabelGrid(g, from, to))
  {
    ghost var r := RelabelGrid(g, from, to);
    for i := 0 to a.Length0
      invariant forall p, q :: 0 <= p < a.Length0 && 0 <= q < a.Length1 ==> a[p, q] == if p < i then r[p][q] else g[p][q]
    {
      for j := 0 to a.Length1
        invariant forall p, q :: 0 <= p < a.Length0 && 0 <= q < a.Length1 ==>
          a[p, q] == if p < i || (p == i && q < j) then r[p][q] else g[p][q]
      {
        if a[i, j] == from {
          a[i, j] := to;
        }
      }
    }
  }

  // ---------------------------------------------------------------------------------------------
  // `np.argwhere(label_map == v)`

  /** The positions of row `i` of the grid, from column `j` on, that hold `v`, left to right. */
  function RowCells(row: seq<int>, v: int, i: int, j: nat): (r: seq<(int, int)>)
    decreases |row| - j
    ensures forall c :: c in r <==> c.0 == i && j <= c.1 < |row| && row[c.1] == v
  {
    if j >= |row| then [] else (if row[j] == v then [(i, j)] else []) + RowCells(row, v, i, j + 1)
  }

  /** The positions of the grid, from row `i` on, that hold `v`, in row-major order. */
  function GridCells(g: Grid, v: int, i: nat): (r: seq<(int, int)>)
    decreases |g| - i
    ensures forall c :: c in r <==> i <= c.0 < |g| && 0 <= c.1 < |g[c.0]| && g[c.0][c.1] == v
  {
    if i >= |g| then [] else RowCells(g[i], v, i, 0) + GridCells(g, v, i + 1)
  }

  /** `np.argwhere(label_map == v)` on the label array. */
  method ArgWhere(a: array2<int>, ghost g: Grid, v: int) returns (cells: seq<(int, int)>)
    requires Holds(a, g)
    ensures cells == GridCells(g, v, 0)
  {
    cells := [];
    for i := 0 to a.Length0
      invariant cells + GridCells(g, v, i) == GridCells(g, v, 0)
    {
      var rowCells := ArgWhereRow(a, g, v, i);
      cells := cells + rowCells;
    }
  }

  /** The part of `np.argwhere` that scans row `i`. */
  method ArgWhereRow(a: array2<int>, ghost g: Grid, v: int, i: int) returns (cells: seq<(int, int)>)
    requires Holds(a, g) && 0 <= i < a.Length0
    ensures cells == RowCells(g[i], v, i, 0)
  {
    cells := [];
    for j := 0 to a.Length1
      invariant cells + RowCells(g[i], v, i, j) == RowCells(g[i], v, i, 0)
    {
      if a[i, j] == v {
        cells := cells + [(i, j)];
      }
    }
  }

  // ---------------------------------------------------------------------------------------------
  // `np.amax` / `np.amin` along axis 0, and the sprite of a region

  /** `(x_min, y_min, x_max, y_max)`: the least and greatest row and column of a list of positions. */
  function Bounds(cells: seq<(int, int)>): (r: (int, int, int, int))
    requires cells != []
    decreases |cells|
    ensures r.0 <= r.2 && r.1 <= r.3
  {
    var (x, y) := cells[0];
    if |cells| == 1 then (x, y, x, y)
    else
      var (x1, y1, x2, y2) := Bounds(cells[1..]);
      (if x < x1 then x else x1, if y < y1 then y else y1, if x > x2 then x else x2, if y > y2 then y else y2)
  }

  /** Every position lies within the bounds, and each of the four bounds is attained by a position. */
  lemma {:induction false} BoundsSpec(cells: seq<(int, int)>)
    requires cells != []
    decreases |cells|
    ensures var (x1, y1, x2, y2) := Bounds(cells);
      && (forall c :: c in cells ==> x1 <= c.0 <= x2 && y1 <= c.1 <= y2)
      && (exists c :: c in cells && c.0 == x1) && (exists c :: c in cells && c.0 == x2)
      && (exists c :: c in cells && c.1 == y1) && (exists c :: c in cells && c.1 == y2)
  {
    assert cells[0] in cells;
    if |cells| > 1 {
      BoundsSpec(cells[1..]);
      assert cells == [cells[0]] + cells[1..];
    }
  }

  /** What numpy raises for `amax` over an empty array. */
  const ZeroSizeMaximum: Error := ValueError("zero-size array to reduction operation maximum which has no identity")

  /**
   * `x_max, y_max = np.amax(cells, axis=0)`, `x_min, y_min = np.amin(cells, axis=0)` and
   * `Sprite(n, x_min, y_min, x_max, y_max)`: rows are passed as x and columns as y.
   */
  function BoxSprite(n: int, cells: seq<(int, int)>): (r: Outcome<Sprite>)
    ensures cells == [] ==> r == Fail(ZeroSizeMaximum)
    ensures r.Fail? ==> r.err.ValueError?
    ensures r.Ok? ==> r.value.spriteLabel == n
  {
    if cells == [] then Fail(ZeroSizeMaximum)
    else
      var (x1, y1, x2, y2) := Bounds(cells);
      NewSprite(n, Int(x1), Int(y1), Int(x2), Int(y2))
  }

  /**
   * An accepted sprite is the bounding box of the positions, with the axes swapped in the corners:
   * `top_left` is (least column, least row) and `bottom_right` (greatest column, greatest row).
   */
  lemma BoxSpriteBox(n: int, cells: seq<(int, int)>)
    requires BoxSprite(n, cells).Ok?
    ensures var s := BoxSprite(n, cells).value;
      && (forall c :: c in cells ==> s.topLeft.1 <= c.0 <= s.bottomRight.1 && s.topLeft.0 <= c.1 <= s.bottomRight.0)
      && (exists c :: c in cells && c.0 == s.topLeft.1)
      && (exists c :: c in cells && c.0 == s.bottomRight.1)
      && (exists c :: c in cells && c.1 == s.topLeft.0)
      && (exists c :: c in cells && c.1 == s.bottomRight.0)
      && s.width == s.bottomRight.1 - s.topLeft.1 + 1
      && s.height == s.bottomRight.0 - s.topLeft.0 + 1
  {
    BoundsSpec(cells);
  }

  /**
   * On the positions `np.argwhere` yields (never negative), a region gives a sprite exactly when it
   * has two positions or more: a region of a single cell is rejected by `Sprite`.
   */
  lemma BoxSpriteAccepted(n: int, cells: seq<(int, int)>)
    requires forall c :: c in cells ==> c.0 >= 0 && c.1 >= 0
    ensures BoxSprite(n, cells).Ok? <==> exists c, d :: c in cells && d in cells && c != d
  {
    if cells != [] {
      BoundsSpec(cells);
      var (x1, y1, x2, y2) := Bounds(cells);
      var c1 :| c1 in cells && c1.0 == x1;
      var c2 :| c2 in cells && c2.0 == x2;
      var c3 :| c3 in cells && c3.1 == y1;
      var c4 :| c4 in cells && c4.1 == y2;
      if BoxSprite(n, cells).Ok? {
        if x1 == x2 {
          assert c3 != c4;
        } else {
          assert c1 != c2;
        }
      } else {
        forall c, d | c in cells && d in cells ensures c == d {
        }
      }
    }
  }

  // ---------------------------------------------------------------------------------------------
  // The numbering loop

  /**
   * The body of `for label, x in enumerate(connection, 1)` for entry `key` numbered `n`: rewrite the
   * grid by value, then build the sprite of the cells now holding `n`.
   */
  function ExtractEntry(g: Grid, members: seq<int>, key: int, n: int): (r: Outcome<(Grid, Sprite)>)
    ensures r.Fail? ==> r.err.ValueError?
    ensures r.Ok? ==> r.value.0 == RelabelEntry(g, members, key, n) && r.value.1.spriteLabel == n
  {
    var g' := RelabelEntry(g, members, key, n);
    match BoxSprite(n, GridCells(g', n, 0))
    case Fail(e) => Fail(e)
    case Ok(sprite) => Ok((g', sprite))
  }

  /**
   * The loop `for label, x in enumerate(connection, 1)` over the entries `order` (numbered from `n`)
   * and the grid `g`: each entry rewrites the grid and adds one sprite. The first failure ends it.
   */
  function Extract(g: Grid, order: seq<int>, lists: Lists, n: int, sprites: map<int, Sprite>): (r: Outcome<(Grid, map<int, Sprite>)>)
    requires forall k :: k in order ==> k in lists
    decreases |order|
    // the loop raises `ValueError` only (from `amax` or from `Sprite`)
    ensures r.Fail? ==> r.err.ValueError?
    ensures r.Ok? ==> |r.value.0| == |g| && forall i :: 0 <= i < |g| ==> |r.value.0[i]| == |g[i]|
  {
    if order == [] then Ok((g, sprites))
    else
      var key := order[0];
      assert key in order && forall k :: k in order[1..] ==> k in order;
      match ExtractEntry(g, lists[key], key, n)
      case Fail(e) => Fail(e)
      case Ok((g', sprite)) => Extract(g', order[1..], lists, n + 1, sprites[n := sprite])
  }

  /** One sprite per entry, numbered `n`, `n + 1`, ..., each carrying its number as its label. */
  lemma {:induction false} ExtractNumbers(g: Grid, order: seq<int>, lists: Lists, n: int, sprites: map<int, Sprite>,
                                          g': Grid, out: map<int, Sprite>)
    requires forall k :: k in order ==> k in lists
    requires Extract(g, order, lists, n, sprites) == Ok((g', out))
    decreases |order|
    ensures Numbered(sprites, n, |order|, out)
  {
    if order == [] {
      assert out == sprites;
    } else {
      var g1, sprite := ExtractStep(g, order, lists, n, sprites, g', out);
      ExtractNumbers(g1, order[1..], lists, n + 1, sprites[n := sprite], g', out);
      NumberedStep(sprites, n, |order|, sprite, out);
    }
  }

  /** `out` extends `sprites` with `count` sprites numbered from `n`, each labelled with its number. */
  ghost predicate Numbered(sprites: map<int, Sprite>, n: int, count: nat, out: map<int, Sprite>) {
    && (forall k :: k in out <==> k in sprites || n <= k < n + count)
    && (forall k :: n <= k < n + count ==> out[k].spriteLabel == k)
    && (forall k :: k in sprites && !(n <= k < n + count) ==> out[k] == sprites[k])
  }

  lemma NumberedStep(sprites: map<int, Sprite>, n: int, count: nat, sprite: Sprite, out: map<int, Sprite>)
    requires count > 0 && sprite.spriteLabel == n && Numbered(sprites[n := sprite], n + 1, count - 1, out)
    ensures Numbered(sprites, n, count, out)
  {
    forall k | n <= k < n + count ensures out[k].spriteLabel == k {
      if k == n {
        assert out[k] == sprites[n := sprite][n];
      }
    }
  }

  /** One turn of the loop: a successful run starts with a successful entry. */
  lemma ExtractStep(g: Grid, order: seq<int>, lists: Lists, n: int, sprites: map<int, Sprite>, g': Grid, out: map<int, Sprite>)
    returns (g1: Grid, sprite: Sprite)
    requires forall k :: k in order ==> k in lists
    requires order != [] && Extract(g, order, lists, n, sprites) == Ok((g', out))
    ensures order[0] in lists && forall k :: k in order[1..] ==> k in lists
    ensures g1 == RelabelEntry(g, lists[order[0]], order[0], n) && sprite.spriteLabel == n
    ensures Extract(g1, order[1..], lists, n + 1, sprites[n := sprite]) == Ok((g', out))
  {
    assert order[0] in order && forall k :: k in order[1..] ==> k in order;
    var e := ExtractEntry(g, lists[order[0]], order[0], n).value;
    g1, sprite := e.0, e.1;
  }

  /** `h` has the shape of `g` and its 0 cells are those of `g`. */
  ghost predicate SameZeros(g: Grid, h: Grid) {
    && |h| == |g| && (forall i :: 0 <= i < |g| ==> |h[i]| == |g[i]|)
    && forall i, j :: 0 <= i < |g| && 0 <= j < |g[i]| ==> (h[i][j] == 0 <==> g[i][j] == 0)
  }

  /** No key and no member is 0. */
  ghost predicate NoZero(lists: Lists) {
    forall k :: k in lists ==> k != 0 && 0 !in lists[k]
  }

  lemma SameZerosTrans(g: Grid, h: Grid, f: Grid)
    requires SameZeros(g, h) && SameZeros(h, f)
    ensures SameZeros(g, f)
  {
  }

  /** Rewriting to a non-zero number an entry that does not mention 0 keeps the 0 cells. */
  lemma EntryKeepsZeros(g: Grid, members: seq<int>, key: int, n: int)
    requires n != 0 && key != 0 && 0 !in members
    ensures SameZeros(g, RelabelEntry(g, members, key, n))
  {
    forall i, j | 0 <= i < |g| && 0 <= j < |g[i]| ensures RelabelEntry(g, members, key, n)[i][j] == 0 <==> g[i][j] == 0 {
      RelabelEntryCell(g, members, key, n, i, j);
    }
  }

  /** The numbering loop of `find_sprites` on the label array and the composed dict. */
  method ExtractSprites(labelMap: array2<int>, ghost g: Grid, connection: Dict)
    returns (r: Outcome<map<int, Sprite>>, ghost g': Grid)
    requires Holds(labelMap, g) && connection.Valid()
    modifies labelMap
    ensures Holds(labelMap, g')
    ensures r.Fail? ==> Extract(g, connection.order, connection.lists, 1, map[]) == Fail(r.err)
    ensures r.Ok? ==> Extract(g, connection.order, connection.lists, 1, map[]) == Ok((g', r.value))
    // no entry mentions 0, so the 0 cells are left as they are
    ensures NoZero(connection.lists) ==> SameZeros(g, g')
  {
    var order, lists := connection.order, connection.lists;
    var sprites: map<int, Sprite> := map[];
    var number := 1;
    g' := g;
    var t := 0;
    while t < |order|
      invariant 0 <= t <= |order| && number == t + 1
      invariant Holds(labelMap, g')
      invariant forall k :: k in order[t..] ==> k in lists
      invariant Extract(g, order, lists, 1, map[]) == Extract(g', order[t..], lists, number, sprites)
      invariant NoZero(lists) ==> SameZeros(g, g')
    {
      var x := order[t];
      assert x in order[t..];
      ghost var before := g';
      RelabelEntryOnMap(labelMap, g', lists[x], x, number);
      g' := RelabelEntry(g', lists[x], x, number);
      if NoZero(lists) {
        EntryKeepsZeros(before, lists[x], x, number);
        SameZerosTrans(g, before, g');
      }
      var cells := ArgWhere(labelMap, g', number);
      assert order[t..][0] == x && order[t..][1..] == order[t + 1..];
      assert ExtractEntry(before, lists[x], x, number) == match BoxSprite(number, cells)
        case Fail(e) => Fail(e) case Ok(sprite) => Ok((g', sprite));
      match BoxSprite(number, cells)
      case Fail(e) =>
        r := Fail(e);
        return;
      case Ok(sprite) =>
        sprites := sprites[number := sprite];
      number := number + 1;
      t := t + 1;
    }
    r := Ok(sprites);
  }

  /** `for a in connection[x]: label_map[label_map == a] = number`, then the same for `x`. */
  method RelabelEntryOnMap(labelMap: array2<int>, ghost g: Grid, members: seq<int>, key: int, number: int)
    requires Holds(labelMap, g)
    modifies labelMap
    ensures Holds(labelMap, RelabelEntry(g, members, key, number))
  {
    ghost var cur := g;
    for m := 0 to |members|
      invariant Holds(labelMap, cur)
      invariant RelabelAll(g, members, number) == RelabelAll(cur, members[m..], number)
    {
      assert members[m..] == [members[m]] + members[m + 1..];
      Relabel(labelMap, cur, members[m], number);
      cur := RelabelGrid(cur, members[m], number);
    }
    Relabel(labelMap, cur, key, number);
  }
}
