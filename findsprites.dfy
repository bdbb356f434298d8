/**
 * `find_sprites(image, background=None)`: choose the background, label the image in one scan,
 * resolve the label equivalences, merge the entries, and number one sprite per surviving entry.
 */
module Detection {
  import opened Wrappers
  import opened Seqs
  import opened Dicts
  import opened Grids
  import opened Sprites
  import opened Segmentation
  import opened Resolution
  import opened Composition
  import opened Extraction

  /**
   * What `find_sprites` reads of a PIL image: its mode, its size, its pixels (as `np.asarray` lays
   * them out, row by row) and the colour `find_most_common_color` returns for it.
   */
  datatype Image = Image(mode: string, rows: nat, cols: nat, pixels: seq<seq<Pixel>>, mostCommon: Pixel)

  ghost predicate WellFormed(image: Image) {
    Shaped(image.pixels, image.rows, image.cols)
  }

  /** Python's truth value of the `background` argument: `None` and the empty tuple are false. */
  predicate Truthy(background: Option<Pixel>)
    ensures background == None || background == Some([]) ==> !Truthy(background)
    ensures background.Some? && |background.value| >= 1 ==> Truthy(background)
  {
    background.Some? && background.value != []
  }

  /** The fully transparent colour used for RGBA images. */
  const Transparent: Pixel := [0, 0, 0, 0]

  /** `if not background:` the transparent colour for an RGBA image, else the most common colour. */
  function ChooseBackground(image: Image, background: Option<Pixel>): (c: Pixel)
    ensures Truthy(background) ==> c == background.value
    ensures !Truthy(background) && image.mode == "RGBA" ==> c == Transparent
    ensures !Truthy(background) && image.mode != "RGBA" ==> c == image.mostCommon
  {
    if Truthy(background) then background.value
    else if image.mode == "RGBA" then Transparent
    else image.mostCommon
  }

  /**
   * `after` is what `connect_segmentation` leaves of `before`: the same keys in the same order, and
   * every key's list holds each label reachable from the key exactly once.
   */
  ghost predicate Resolved(before: Dict, after: Dict) {
    && after.Valid()
    && after.order == before.order
    && after.lists.Keys == before.lists.Keys
    && forall x :: x in before.lists ==> Distinct(after.lists[x]) && Elems(after.lists[x]) == Reach(before.lists, x)
  }

  /**
   * The whole of `find_sprites`. The ghost results name the intermediate values: the scan, the dict
   * after `connect_segmentation`, the dict `images_composed` returns and the final label grid.
   */
  method FindSprites(image: Image, background: Option<Pixel>)
    returns (r: Outcome<map<int, Sprite>>, labelMap: array2<int>,
             ghost scanned: ScanState, ghost connected: Dict, ghost merged: Dict, ghost grid: Grid)
    requires WellFormed(image)
    ensures fresh(labelMap) && labelMap.Length0 == image.rows && labelMap.Length1 == image.cols
    ensures scanned == Scan(image.pixels, ChooseBackground(image, background), image.rows, image.cols)
    // neither dict pass raises on the dict the scan builds
    ensures Resolved(scanned.conn, connected)
    ensures Composed(connected, scanned.conn.order) == Ok(merged)
    // sprites are numbered in the order of the provisional keys under which their regions survive
    ensures Increasing(merged.order)
    ensures Holds(labelMap, grid)
    // only `ValueError` escapes, from `amax` or from `Sprite`
    ensures r.Fail? ==> r.err.ValueError? && Extract(scanned.grid, merged.order, merged.lists, 1, map[]) == Fail(r.err)
    ensures r.Ok? ==> Extract(scanned.grid, merged.order, merged.lists, 1, map[]) == Ok((grid, r.value))
    // one sprite per surviving entry, numbered 1, 2, ..., labelled with its number
    ensures r.Ok? ==> Numbered(map[], 1, |merged.order|, r.value)
    // the cells left at 0 are exactly the background pixels
    ensures forall i, j :: 0 <= i < image.rows && 0 <= j < image.cols ==>
      (grid[i][j] == 0 <==> image.pixels[i][j] == ChooseBackground(image, background))
  {
    var rows, cols := image.rows, image.cols;
    labelMap := new int[rows, cols]((i, j) => 0);
    var bg := ChooseBackground(image, background);
    var connection := ImageSegmentation(rows, cols, image.pixels, labelMap, bg);
    scanned := Scan(image.pixels, bg, rows, cols);
    ScanDict(scanned, rows, cols);
    var resolved, composed := Resolve(connection);
    connected, merged := resolved, composed;
    r, grid := ExtractSprites(labelMap, scanned.grid, composed);
    if r.Ok? {
      ExtractNumbers(scanned.grid, merged.order, merged.lists, 1, map[], grid, r.value);
    }
    ScanCoverage(image.pixels, bg, rows, cols);
  }

  /** The dict the scan builds: its keys are 1, 2, ... in increasing order, and every member is a key. */
  lemma ScanDict(s: ScanState, rows: nat, cols: nat)
    requires Inv(s, rows, cols)
    ensures Closed(s.conn.lists) && Increasing(s.conn.order)
    ensures forall k :: k in s.conn.lists ==> k >= 1
  {
  }

  /**
   * `connect_segmentation(connection, keys)` then `connection = images_composed(connection, keys)`,
   * with `keys` the key list captured after the scan. On a closed dict of positive labels neither
   * raises, and what is left to number mentions no 0.
   */
  method Resolve(connection: Dict) returns (connected: Dict, merged: Dict)
    requires connection.Valid() && Closed(connection.lists) && Increasing(connection.order)
    requires forall k :: k in connection.lists ==> k >= 1
    ensures Resolved(connection, connected)
    ensures Composed(connected, connection.order) == Ok(merged)
    ensures Increasing(merged.order) && NoZero(merged.lists)
  {
    var keys := connection.order;
    var c := ConnectSegmentation(connection, keys);
    assert c.Ok?;
    connected := c.value;
    ResolvedClosed(connection, connected);
    ComposedFails(connected, keys);
    var m := ImagesComposed(connected, keys);
    merged := m.value;
    ComposedShape(connected, keys);
    ComposedMembers(connected, keys, connection.lists.Keys);
    forall k | k in merged.lists ensures k != 0 && 0 !in merged.lists[k] {
      assert k in connection.lists;
      assert 0 in merged.lists[k] ==> 0 in connection.lists.Keys;
    }
  }

  /** After resolution of a closed dict every list stays among the keys. */
  lemma ResolvedClosed(before: Dict, after: Dict)
    requires before.Valid() && Closed(before.lists) && Resolved(before, after)
    ensures MembersIn(after.lists, before.lists.Keys)
  {
    ClosedUniverse(before.lists);
    forall k, m | k in after.lists && m in after.lists[k] ensures m in before.lists.Keys {
      assert m in Elems(after.lists[k]);
    }
  }
}
