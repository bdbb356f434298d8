/** The `SpriteSheet` class: an opened image and the background colour fixed at construction. */
module Sheet {
  import opened Wrappers
  import opened Grids
  import opened Sprites
  import opened Segmentation
  import opened Extraction
  import opened Detection

  /**
   * A sprite sheet. The constructor sets every field and no method assigns one afterwards, so the
   * object is a value; `background_color` is the read-only property over `backgroundColor`.
   */
  datatype SpriteSheet = SpriteSheet(image: Image, backgroundColor: Pixel)

  /** `SpriteSheet(fd, background=None)`: a truthy background is stored, otherwise the most common colour. */
  function NewSpriteSheet(image: Image, background: Option<Pixel>): (s: SpriteSheet)
    ensures s.image == image
    ensures Truthy(background) ==> s.backgroundColor == background.value
    ensures !Truthy(background) ==> s.backgroundColor == image.mostCommon
  {
    SpriteSheet(image, if Truthy(background) then background.value else image.mostCommon)
  }

  /** The background `SpriteSheet.find_sprites` scans with as written: the one `find_sprites(self.fd)` derives. */
  function ScanBackground(sheet: SpriteSheet): (c: Pixel)
    ensures c == if sheet.image.mode == "RGBA" then Transparent else sheet.image.mostCommon
  {
    ChooseBackground(sheet.image, None)
  }

  /** `SpriteSheet.find_sprites()` as written: `find_sprites(self.fd)`, without the stored colour. */
  method FindSheetSprites(sheet: SpriteSheet)
    returns (r: Outcome<map<int, Sprite>>, labelMap: array2<int>, ghost scanned: ScanState, ghost grid: Grid)
    requires WellFormed(sheet.image)
    ensures fresh(labelMap) && labelMap.Length0 == sheet.image.rows && labelMap.Length1 == sheet.image.cols
    ensures scanned == Scan(sheet.image.pixels, ScanBackground(sheet), sheet.image.rows, sheet.image.cols)
    ensures Holds(labelMap, grid)
    ensures r.Fail? ==> r.err.ValueError?
    ensures r.Ok? ==> exists count :: Numbered(map[], 1, count, r.value)
    ensures forall i, j :: 0 <= i < sheet.image.rows && 0 <= j < sheet.image.cols ==>
      (grid[i][j] == 0 <==> sheet.image.pixels[i][j] == ScanBackground(sheet))
  {
    ghost var connected, merged;
    r, labelMap, scanned, connected, merged, grid := FindSprites(sheet.image, None);
  }

  /**
   * The colour given to the constructor plays no part in the scan: an RGBA sheet built with an opaque
   * white background is still scanned against transparent black.
   */
  lemma StoredBackgroundIgnored(image: Image)
    requires image.mode == "RGBA"
    ensures var sheet := NewSpriteSheet(image, Some([255, 255, 255, 255]));
      sheet.backgroundColor == [255, 255, 255, 255] && ScanBackground(sheet) == Transparent
      && ScanBackground(sheet) != sheet.backgroundColor
  {
  }

  /** The evidently intended `find_sprites()`: scan against the colour the sheet stores. */
  method FindSheetSpritesIntended(sheet: SpriteSheet)
    returns (r: Outcome<map<int, Sprite>>, labelMap: array2<int>, ghost scanned: ScanState, ghost grid: Grid)
    requires WellFormed(sheet.image)
    ensures fresh(labelMap) && labelMap.Length0 == sheet.image.rows && labelMap.Length1 == sheet.image.cols
    ensures scanned == Scan(sheet.image.pixels, IntendedBackground(sheet), sheet.image.rows, sheet.image.cols)
    ensures Holds(labelMap, grid)
    ensures r.Fail? ==> r.err.ValueError?
    ensures r.Ok? ==> exists count :: Numbered(map[], 1, count, r.value)
    ensures forall i, j :: 0 <= i < sheet.image.rows && 0 <= j < sheet.image.cols ==>
      (grid[i][j] == 0 <==> sheet.image.pixels[i][j] == IntendedBackground(sheet))
  {
    ghost var connected, merged;
    r, labelMap, scanned, connected, merged, grid := FindSprites(sheet.image, Some(sheet.backgroundColor));
  }

  /** Passing the stored colour back to `find_sprites`. */
  function IntendedBackground(sheet: SpriteSheet): Pixel {
    ChooseBackground(sheet.image, Some(sheet.backgroundColor))
  }

  /** With the stored colour passed on, a sheet is scanned against the background it was given. */
  lemma IntendedUsesStored(image: Image, background: Option<Pixel>)
    ensures var sheet := NewSpriteSheet(image, background);
      && (Truthy(background) ==> IntendedBackground(sheet) == background.value)
      && (!Truthy(background) && image.mostCommon != [] ==> IntendedBackground(sheet) == image.mostCommon)
  {
  }
}
