# Sprite-sheet sprite detection, modelled in Dafny

This project models the sprite detector of the Sprite-Sheet package. `find_sprites` takes an
image and an optional background colour and works in three stages:

1. **Segmentation.** `image_segmentation` assigns provisional labels in one raster pass. Each
   non-background pixel copies the label of the first labelled neighbour among west, north-west,
   north and north again. If a neighbour has a different label, one one-way edge
   `connection[neighbour].append(current)` is recorded.
2. **Resolution.** `connect_segmentation` deduplicates each key's list, then walks it and appends
   the list of every member it meets. Then `images_composed` merges overlapping entries pairwise and keeps the non-empty ones.
3. **Extraction.** The loop in `find_sprites` numbers the surviving entries 1, 2, ….
   - It rewrites the label map by value.
   - It builds a `Sprite` from the least and greatest row and column of the cells now holding each
     number.

The `Sprite` value object validates its coordinates. The `SpriteSheet` class wraps an image and
a background colour.

Modules, one per part of the program:

| file | module | models |
|---|---|---|
| `wrappers.dfy` | `Wrappers` | `Option`; the two exceptions that can escape (`KeyError`, `ValueError`) |
| `seqs.dfy` | `Seqs` | duplicate-free sequences; `list(set(xs))` |
| `dicts.dfy` | `Dicts` | the insertion-ordered `connection` dict |
| `grids.dfy` | `Grids` | label grids as values; the array/grid link `Holds` |
| `sprite.dfy` | `Sprites` | the `Sprite` class |
| `segmentation.dfy` | `Segmentation` | `image_segmentation`, as specification functions and as a method on a 2-D array |
| `resolution.dfy` | `Resolution` | `connect_segmentation`, specified by reachability |
| `composition.dfy` | `Composition` | `images_composed` |
| `extraction.dfy` | `Extraction` | the numbering loop of `find_sprites`, masked assignment, `argwhere`, `amax`/`amin` |
| `findsprites.dfy` | `Detection` | `find_sprites` end to end, with the choice of background |
| `spritesheet.dfy` | `Sheet` | the `SpriteSheet` class |

The pipeline is written twice in the repository: once in `images_composed.py`, `find_sprite.py`
and `sprite_class.py`, and once in `build/lib/spritessheettquang97/SpriteSheet.py`. The two copies
have the same code, apart from docstrings, one parameter name (`list_key_connection`) and the
`return True` that `images_composed.py` adds to two functions. One model serves both.

The docstring of `image_segmentation` (images_composed.py:5-8) promises 8-neighbourhood
connectivity. The code behaves differently in these ways, and the model follows the code:

- The neighbour list inspects north twice and north-east never. `VisitFromIgnoresNorthEast`
  proves that the label of the north-east cell has no influence whenever the cell is not in
  column 0. So two pixels that touch only across a north-east corner are not joined.
  - The exception is column 0 of a two-column image. There the north-west offset wraps around
    to column 1 of the row above, which is the north-east cell.
- An image with a single isolated pixel gives no sprite at all, not one sprite of size 1:
  - its label gets an empty list, and
  - `images_composed` drops entries with empty lists (`ComposedShape`).
  More generally, a region whose label was never linked to another yields no entry.
- A region of a single cell that does reach the `Sprite` constructor is rejected with `ValueError`
  (`BoxSpriteAccepted`, `SingleCellRejected`). The check `(x2, y2) <= (x1, y1)` at
  sprite_class.py:7-8 refuses equal corners, so no 1×1 sprite can be built.
- Column `-1` passes the bounds guard whenever the row is at least 1. It then reads the last
  column of that row (`GuardOnNeighbours`).
- Renumbering rewrites the label map by value. A cell still holding a provisional label equal to a
  new number `n` is therefore counted in sprite `n`'s box (`RelabelEntryCell`).
- Labels that end in no surviving entry, neither as a key nor as a member, keep their provisional
  values in the returned label map. A dropped entry's key that is a member of a surviving entry is
  renumbered with that entry (`RelabelEntryCell`).

The model does not prove any global partition or connectivity result, because those are false
for this code.

## Model

| member | source | states |
|---|---|---|
| `Sprites.LexLessEq` | sprite_class.py:7 | Python's `(a, b) <= (c, d)` on the corner tuples: equal pairs compare `<=`, a smaller first component decides, a larger one refuses |
| `Sprites.NewSprite` | sprite_class.py:2-13 | accepted exactly when all four coordinates are ints, none is negative and `(x2, y2)` is lexicographically above `(x1, y1)`; every rejection is `ValueError('Invalid coordinates')`; width and height are the x and y extents plus one, and the corners are `(y1, x1)` and `(y2, x2)` |
| `Sprites.AcceptedExtents` | sprite_class.py:10-11 | every accepted sprite has width at least 1, and height at least 1 exactly when `y2 >= y1` |
| `Sprites.InvertedHeightAccepted` | sprite_class.py:7-11 | `Sprite(1, 0, 5, 1, 2)` passes the tuple check and gets height -2 |
| `Sprites.SingleCellRejected` | sprite_class.py:7-8 | equal corners are always rejected |
| `Sprites.CommentedExamples` | sprite_class.py:33-53 | the commented examples: a negative and a non-int coordinate are rejected; `Sprite(1,12,23,145,208)` and `Sprite(8,55,88,457,124)` give the stated sizes and corners |
| `Seqs.Dedup` | images_composed.py:41 | `list(set(xs))`: no duplicates, the same elements, and no longer |
| `Seqs.DedupDistinct` | images_composed.py:41 | `list(set(xs))` of a duplicate-free list is that list |
| `Seqs.DedupPrefix` | images_composed.py:42-45 | deduplicating `xs + ys`, with `xs` already duplicate-free, keeps `xs` as the prefix: the walk with `count` never revisits a position |
| `Dicts.Empty` | find_sprite.py:14 | `connection = {}` is a valid dict with no keys |
| `Dicts.Dict.Put` | images_composed.py:32 | `d[k] = v` keeps the dict valid, gives `k` the list `v`, and appends `k` to the key order only when it is new |
| `Dicts.Dict.Append` | images_composed.py:27 | `d[k].append(m)` changes only the list of `k`, which gains `m` at its end; key order unchanged |
| `Grids.Zeros` | find_sprite.py:13 | `np.zeros((rows, cols))` has the shape and holds 0 everywhere |
| `Grids.SetCell` | images_composed.py:25 | writing one cell changes that cell only |
| `Segmentation.Init` | find_sprite.py:13-14 | the zero map, the empty dict and label 1 satisfy the scan invariant |
| `Segmentation.NeighboursPrecede` | images_composed.py:20 | the neighbour list `[x, y-1], [x-1, y-1], [x-1, y], [x-1, y]` (`Neighbours`) has four positions, each before the cell in raster order, and the north-east cell `(x-1, y+1)` is not among them |
| `Segmentation.Skipped` | images_composed.py:21 | the guard `(i, j) < (0, 0) or (i, j) > (rows, cols)`: every row above the grid is skipped, and no position inside the grid is |
| `Segmentation.PyIndex` | images_composed.py:23-27 | Python's index `label_map[i][j]` on a row of length `n`: any `j` in `-n .. n-1` lands in the row, and a non-negative `j` is kept |
| `Segmentation.GuardOnNeighbours` | images_composed.py:20-22 | on the four neighbours the guard skips exactly the positions below (0, 0), its upper clause never fires, a position that passes reads inside the grid, and column -1 with row >= 1 passes and reads the last column |
| `Segmentation.VisitNeighbour` | images_composed.py:23-28 | one neighbour keeps the invariant and neither the counter nor the key order changes |
| `Segmentation.VisitFrom` | images_composed.py:20-28 | the neighbour loop writes only cell (x, y) and never overwrites a label. It either ends by `break` after appending the cell's label to the list of exactly one other non-zero label, or appends nothing. `VisitFromEdge` says which label |
| `Segmentation.NeighbourEdge` | images_composed.py:21-28 | one neighbour, by what the grid shows there: an unlabelled or same-labelled neighbour changes nothing; a labelled neighbour of an unlabelled cell is copied; a labelled neighbour with another label gets the cell's label appended to its list, and the loop breaks |
| `Segmentation.VisitFromEdge` | images_composed.py:20-28 | the loop breaks exactly when a neighbour met after the copy passes the guard and carries another label (`FirstOther`). That first such neighbour's list, and no other, gains the cell's label. Without one, `connection` is unchanged |
| `Segmentation.VisitOnEdge` | images_composed.py:20-28 | the same, past a neighbour that does not break the loop |
| `Segmentation.Fresh` | images_composed.py:29-33 | the `else` clause (new label, new key with an empty list, counter advanced) keeps the scan invariant |
| `Segmentation.Step` | images_composed.py:18-33 | one cell: background cells stay 0, every other unlabelled cell ends labelled; the counter grows by at most one; no other cell changes |
| `Segmentation.ScanRow` | images_composed.py:17-33 | the column loop keeps the scan invariant |
| `Segmentation.ScanRows` | images_composed.py:16-33 | the row loop keeps the scan invariant |
| `Segmentation.Scan` | images_composed.py:15-33 | after the pass the keys are exactly 1 .. label-1 in increasing insertion order, every cell holds a label below the counter, and every list member is an issued label |
| `Segmentation.VisitFromCopies` | images_composed.py:20-25 | an unlabelled cell takes the label of the first labelled neighbour in list order |
| `Segmentation.StepLabel` | images_composed.py:20-33 | a non-background cell gets the first labelled neighbour's label, or else the counter's value; the counter advances exactly in the second case, and the new key has an empty list |
| `Segmentation.StepRecordsEdge` | images_composed.py:18-33 | for a non-background, unlabelled cell with copied label `f` and first later neighbour `e` carrying another label: the list of `e` gains `f`, and no other list changes. With no such `e` nothing is appended, and with no labelled neighbour at all a fresh key with an empty list is opened |
| `Segmentation.VisitFromIgnoresNorthEast` | images_composed.py:20 | changing the north-east cell changes nothing the neighbour loop produces |
| `Segmentation.StepIgnoresNorthEast` | images_composed.py:18-33 | changing the north-east cell changes nothing a cell's step produces |
| `Segmentation.ScanRowCovers` | images_composed.py:17-33 | along a row every processed cell is 0 exactly when it is background, and unprocessed cells are 0 |
| `Segmentation.StepCovers` | images_composed.py:18-33 | one cell extends the covered prefix by that cell |
| `Segmentation.ScanRowsCovers` | images_composed.py:16-33 | the same for the first x rows |
| `Segmentation.ScanCoverage` | images_composed.py:18-19 | after the pass a cell is 0 exactly when its pixel equals the background |
| `Segmentation.InspectNeighbour` | images_composed.py:21-28 | on the array: one neighbour does what `VisitNeighbour` says |
| `Segmentation.InspectNeighbours` | images_composed.py:20-28 | on the array: the neighbour loop does what `VisitFrom` says, stopping at `break` |
| `Segmentation.LabelCell` | images_composed.py:18-33 | on the array: one cell does what `Step` says |
| `Segmentation.ImageSegmentation` | images_composed.py:4-34 | on the array, from the zero map: the array ends holding the grid of `Scan` and the dict is the dict of `Scan` |
| `Resolution.Close` | images_composed.py:42-45 | reference definition: a set between `s` and all labels of the dict, closed under the lists (least by `CloseLeast`) |
| `Resolution.Reach` | images_composed.py:38-45 | reference definition: what a key reaches contains its list, mentions only labels of the dict, and is closed under the lists |
| `Resolution.ReachLeast` | images_composed.py:42-45 | every set that contains a key's list and is closed under the lists contains what the key reaches |
| `Resolution.CloseLeast` | images_composed.py:42-45 | every closed set above `s` contains `Close(s)` |
| `Resolution.ReachMono` | images_composed.py:43 | absorbing the list of a reached member adds nothing beyond what the key reaches |
| `Resolution.ConnectSegmentation` | images_composed.py:37-48 | `KeyError` is the only failure. It escapes exactly when a visited label is not a key, or reaches a label that is not a key. On success: the key set and order are unchanged, unvisited keys keep their lists, and every visited key's list holds each label reachable from it exactly once. A closed dict whose keys are all listed never fails |
| `Resolution.GrowList` | images_composed.py:41-45 | the walk of one key fails only when the key reaches a label that is not a key, and otherwise ends duplicate-free, between the key's old list and what it reaches, holding the old list of each of its members |
| `Resolution.GrowStep` | images_composed.py:43-45 | one absorption keeps the walked prefix, the bounds and the saturation of the walked positions |
| `Resolution.SaturatedReach` | images_composed.py:42-45 | a list that holds the lists of all its members, within the bounds, is exactly the reachable set |
| `Resolution.DocCommentExample` | build/lib/spritessheettquang97/SpriteSheet.py:63-69 | on the doc-comment dict, which is closed, key 1 reaches exactly 2 .. 9 |
| `Composition.Absorbs` | images_composed.py:54-55 | `any(x in connect[key] for x in connect[key2] + [key2])`: an empty `connect[key]` never overlaps, and one that already holds `key2` always does |
| `Composition.Absorb` | images_composed.py:54-58 | same keys; only `key` and `key2` change. An empty `connect[key]` absorbs nothing. Without overlap nothing changes. On overlap `key2`'s list is emptied and `key`'s list becomes the duplicate-free union of both lists and `key2` |
| `Composition.AbsorbAt` | images_composed.py:53-55 | the inner body raises `KeyError` exactly when `key2` or `key` is missing |
| `Composition.MergeInner` | images_composed.py:53-58 | the inner loop raises `KeyError` exactly when a later key, or (with a later key present) `key`, is missing; keys unchanged |
| `Composition.MergeOuter` | images_composed.py:52-58 | the outer loop never starts from the last key and raises exactly when, before the last key, a remaining key is missing |
| `Composition.NonEmptyKeys` | images_composed.py:60 | the filtered key order holds exactly the keys with non-empty lists |
| `Composition.NonEmptyKeysDistinct` | images_composed.py:60 | filtering keeps keys distinct |
| `Composition.NonEmptyKeysIncreasing` | images_composed.py:60 | filtering keeps increasing keys increasing |
| `Composition.NonEmptyKeysSubsequence` | images_composed.py:60 | the filtered key order is a subsequence of the input's key order |
| `Composition.Compact` | images_composed.py:60 | the dict comprehension keeps exactly the non-empty entries with their lists; its key order is a subsequence of the input's, so it is increasing when the input's is |
| `Composition.Composed` | images_composed.py:51-60 | the whole of `images_composed`, the reference the loops are proved equal to: it fails only with `KeyError`; on success the dict is valid, its key order is a subsequence of the input dict's, and it keeps only keys of the input with non-empty lists |
| `Composition.ImagesComposed` | images_composed.py:51-60 | the nested loops compute `Composed`, including which lookup raises first |
| `Composition.ComposedFails` | images_composed.py:52-55 | `images_composed` raises exactly when there are two keys or more and one is missing, and then raises `KeyError` |
| `Composition.AbsorbCovers` | images_composed.py:54-58 | absorbing never loses a covered label and never covers a new one |
| `Composition.MergeInnerCovers` | images_composed.py:53-58 | the inner loop preserves coverage |
| `Composition.MergeOuterCovers` | images_composed.py:52-58 | the outer loop preserves coverage |
| `Composition.ComposedCovers` | build/lib/spritessheettquang97/SpriteSheet.py:92-100 | over distinct keys a label is covered by a non-empty entry of the result exactly when it was covered before the merge |
| `Composition.ComposedShape` | build/lib/spritessheettquang97/SpriteSheet.py:100 | the result is a valid dict of non-empty entries drawn from the input, in increasing key order when the input's was |
| `Composition.MergeInnerMembers` | images_composed.py:53-58 | the inner loop puts no label into a list that was not already a member or a key |
| `Composition.MergeOuterMembers` | images_composed.py:52-58 | the same for the outer loop |
| `Composition.ComposedMembers` | images_composed.py:51-60 | after the merge every member is an old member or a listed key |
| `Extraction.RelabelGrid` | find_sprite.py:32 | `label_map[label_map == a] = n`: exactly the cells equal to `a` become `n` |
| `Extraction.RelabelAllCell` | find_sprite.py:31-32 | rewriting by value over a list sends a cell to `n` exactly when its original value is in the list, and leaves every other cell |
| `Extraction.RelabelAll` | find_sprite.py:31-32 | `for a in connection[x]: label_map[label_map == a] = label` as a pure map over the grid: the shape is kept (the cell values are `RelabelAllCell`) |
| `Extraction.RelabelEntry` | find_sprite.py:31-33 | the members' rewrites followed by the key's `label_map[label_map == x] = label`: the shape is kept (the cell values are `RelabelEntryCell`) |
| `Extraction.RelabelEntryCell` | find_sprite.py:31-33 | one entry's rewrite sends a cell to `n` exactly when it holds a member, the key or `n` itself, and leaves all others |
| `Extraction.Relabel` | find_sprite.py:32 | on the array: the masked assignment yields `RelabelGrid` |
| `Extraction.RelabelEntryOnMap` | find_sprite.py:30-33 | on the array: the members then the key, yielding `RelabelEntry` |
| `Extraction.RowCells` | find_sprite.py:35 | the positions of a row holding `v` |
| `Extraction.GridCells` | find_sprite.py:35 | `np.argwhere(label_map == v)` lists exactly the positions holding `v` |
| `Extraction.ArgWhere` | find_sprite.py:35 | on the array: the row-major scan yields `GridCells` |
| `Extraction.ArgWhereRow` | find_sprite.py:35 | on the array: one row of that scan |
| `Extraction.Bounds` | find_sprite.py:36-37 | `np.amax`/`np.amin` along axis 0 of a non-empty list of positions: the least row is at most the greatest, and the least column at most the greatest (`BoundsSpec` gives containment and attainment) |
| `Extraction.BoundsSpec` | find_sprite.py:36-37 | every position lies within (least row, least column) – (greatest row, greatest column), and each bound is attained |
| `Extraction.BoxSprite` | find_sprite.py:35-38 | no positions give the zero-size `ValueError` of `amax`; every failure is a `ValueError`; a sprite carries the entry's number |
| `Extraction.BoxSpriteBox` | find_sprite.py:36-38 | an accepted sprite is the bounding box with the axes swapped: `top_left` = (least column, least row), `bottom_right` = (greatest column, greatest row), width = row extent, height = column extent |
| `Extraction.BoxSpriteAccepted` | find_sprite.py:36-38 | on non-negative positions a region gives a sprite exactly when it has two distinct positions: a single cell is rejected |
| `Extraction.ExtractEntry` | find_sprite.py:30-38 | one entry rewrites the grid as `RelabelEntry` says, fails only with `ValueError` and labels its sprite with its number |
| `Extraction.Extract` | find_sprite.py:28-40 | the numbering loop fails only with `ValueError` and keeps the shape of the grid |
| `Extraction.ExtractNumbers` | find_sprite.py:28-30 | a successful loop returns one sprite per entry, keyed 1 .. N and each labelled with its key |
| `Extraction.EntryKeepsZeros` | find_sprite.py:31-33 | rewriting an entry that mentions no 0 to a non-zero number leaves exactly the same cells at 0 |
| `Extraction.ExtractSprites` | find_sprite.py:28-40 | on the array: the loop computes `Extract`, stops at the first failure, and leaves the 0 cells as they are |
| `Detection.Truthy` | find_sprite.py:16 | the truth value `not background` tests: `None` and the empty tuple are false, every non-empty colour is true |
| `Detection.ChooseBackground` | find_sprite.py:16-20 | a truthy background is used as given; otherwise RGBA images use (0, 0, 0, 0) and other images the most common colour |
| `Detection.ScanDict` | find_sprite.py:22-23 | the dict from the scan is closed, its key list is increasing and every key is positive |
| `Detection.Resolve` | find_sprite.py:22-26 | on that dict neither pass raises; the result is resolved, then merged; it is in increasing order, and every key and member is non-zero |
| `Detection.ResolvedClosed` | find_sprite.py:25 | after resolution of a closed dict every member is a key |
| `Detection.FindSprites` | find_sprite.py:10-40 | end to end: the scan uses the chosen background; only `ValueError` escapes; the sprites are keyed 1 .. N in increasing order of the provisional key under which each region survives the merge, each labelled with its key; the returned label map is 0 exactly on background pixels |
| `Sheet.NewSpriteSheet` | build/lib/spritessheettquang97/SpriteSheet.py:215-222 | a truthy background is stored unchanged, otherwise the most common colour |
| `Sheet.ScanBackground` | build/lib/spritessheettquang97/SpriteSheet.py:115-119 | the background `find_sprites(self.fd)` derives: transparent for RGBA, else the most common colour, whatever was stored |
| `Sheet.FindSheetSprites` | build/lib/spritessheettquang97/SpriteSheet.py:247-254 | `find_sprites()` as written: the scan uses `ScanBackground`, not the stored colour |
| `Sheet.StoredBackgroundIgnored` | build/lib/spritessheettquang97/SpriteSheet.py:217-220 | an RGBA sheet given opaque white stores white but is scanned against transparent black |
| `Sheet.FindSheetSpritesIntended` | build/lib/spritessheettquang97/SpriteSheet.py:254 | the corrected `find_sprites()`: the scan uses the stored colour |
| `Sheet.IntendedUsesStored` | build/lib/spritessheettquang97/SpriteSheet.py:217-222 | with the stored colour passed on, a sheet is scanned against the background it was given, or against the most common colour when none was given |

## Left out

- PIL and numpy input are not modelled: `Image.open`, `np.asarray`, `image.mode` and `find_most_common_color` are library calls.
  - The `Image` datatype carries the mode, the pixel rows and the most common colour as given values.
  - `spriteutil.find_most_common_color`, which `find_sprite.py` imports, calls `Image.open` again on its argument. That behaviour is not part of this model.
- Left out as random colours, drawing, file I/O or packaging:
  - `create_sprite_labels_image`, both the module function and the method;
  - both `main` functions and `image_mode`;
  - `SpriteSheet.__image_obj`, which opens the file;
  - `setup.py`.
- The unused private fields `__label_map` and `__sprites`, which `SpriteSheet.__init__` sets to `''`, are not modelled.
- Python's `set` iteration order is not modelled: `list(set(xs))` is the order-preserving `Dedup`.
- `connect_segmentation` catches only `IndexError`, which `count < len(connect[x])` rules out, so that handler is not modelled. A missing key's `KeyError` escapes, as `Fail(KeyError)`. In `images_composed.py` both `image_segmentation` and `connect_segmentation` end with `return True`; the model drops that value.
- Resolution.ConnectSegmentation: the reachability result depends on the order `list(set(...))` gives. The model's `Dedup` keeps first occurrences, so the labels already walked stay in front, and a walk ends with everything the key reaches.
  - CPython orders small ints by hash, and the walk can then stop early. For `{2: [7], 5: [2], 7: [], 9: [5]}`, key 9 is visited first and becomes `[2, 5]` after its first step. The walk then re-reads 5 and stops without 7.
  - The lists are stated by their elements and their lack of duplicates, not as exact sequences.
- The dicts are values passed in and returned. The source mutates `connection` in place, but nothing else holds a reference to it while it runs, so no aliasing is lost.
- The label map is `np.zeros((rows, cols))` of floats in the source. Here it is an `int` array: it only ever holds whole numbers.
- Segmentation.ImageSegmentation: requires the zero label map and starts from the empty dict. That is how `find_sprites` calls it; other starting states are not modelled.
- Pixels are sequences of channel values, and `np.array_equal` is sequence equality. A scalar pixel (for example a grey level) becomes a one-element sequence. So a scalar background of `0`, which Python treats as false, counts as given in the model. Only `None` and the empty tuple are false.
- The return value and the label map of `find_sprites` are the `Outcome` result and the array; an exception is a `Fail` outcome.
- The getters of `Sprite` and the `background_color` property are the datatypes' field destructors.
- The packaged copy's own `find_most_common_color` (`image.getcolors` then `max`) is the `mostCommon` field of `Image`, like the imported one.
- `.item()` always yields a Python `int` on the rows and columns `argwhere` returns. So the non-`int` branch of `Sprite` is reachable only through direct calls, which `NewSprite` covers with the `NonInt` coordinate.
- Extraction.ExtractSprites: the bounding-box facts are stated of each region (`BoxSpriteBox`), not of the final label map. Later entries can still rewrite cells by value, an effect of the in-place renumbering.

## Findings

| source | as written | input that shows it | evidently intended | confidence | as-written member | corrected member |
|---|---|---|---|---|---|---|
| build/lib/spritessheettquang97/SpriteSheet.py:254 | `find_sprites(self.fd)` drops the background stored by the constructor | an RGBA sheet built with background `(255, 255, 255, 255)` is scanned against `(0, 0, 0, 0)` | `find_sprites(self.fd, self._background_color)` | medium, not executed | `Sheet.StoredBackgroundIgnored` | `Sheet.FindSheetSpritesIntended` |
