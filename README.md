# zoomviewer tile cache, modelled in Dafny

zoomviewer's `app.py` serves a large raster map and an optional overlay
("extracted") raster as Deep Zoom tiles. Its core is a single-slot cache.
A global record `img` holds:

- the active image name;
- the active (model, feature) overlay pair;
- the number of levels, `maxlevel`;
- two level lists, `raw` and `extracted`.

In each list the last slot is the full-resolution image. The lower slots are
downscales, filled lazily the first time a tile of that level is asked for.

This project models that core:

- `levels.dfy` (module `Levels`) holds the level arithmetic:
  - `maxlevel` is ceil(log2(max(width, height))) + 1;
  - a level's size is ceil(side / 2^(maxlevel - 1 - level));
  - a tile's crop box is 256 pixels square at (c·256, r·256).
- `paths.dfy` (module `Paths`) holds `check_path`. It tries the raw paths, or
  the three overlay paths, in order. `FirstExisting` is an ordered search
  written independently, and a lemma proves the two equal.
- `catalog.dfy` (module `Catalog`) holds `load_image_list` and
  `load_model_list`. They are loops over the glob result that insert into the
  global dictionaries. It also holds the derivation of a catalogue key from a
  file name.
- `cache.dfy` (module `Cache`) holds the `img` record as a value, with
  specification functions:
  - `Load` is `load_image`;
  - `Fill` is the locked level fill in `files`;
  - `Serve` is the whole tile request.

  The lemmas about these functions state the cache's behaviour and its
  invariant `Valid`. Under `Valid`, every filled slot holds the downscale of
  its layer's full-resolution image to that level, and `maxlevel` matches the
  raw image's size.
- `viewer.dfy` (module `ActiveImage`) holds class `Viewer`, the `img` record
  whose fields the handlers update in place. `LoadImage` and `FillLevel` are
  each one atomic step, matching the two locked regions of the source
  (app.py:105-128 and app.py:258-263). `ServeTile` fuses the whole tile
  request into one step: load_image's locked region, the unlocked top-slot
  check at app.py:255, the locked fill and the unlocked crop at
  app.py:265-267. Each method is proved to move the record exactly as
  `Load`, `Fill` and `Serve` say, and to keep `Valid`.
- `raster.dfy` (module `Raster`) holds the images, reduced to their size and
  origin. An image is either a file opened from a path, or the resize of
  another image. `common.dfy` holds `Option` and Python truthiness.

Three behaviours of the code are kept as written:

- On an image switch, the code records the call's model and feature
  (app.py:114-115); it does not reset the overlay pair to none.
  Because of this, a first request that both switches the image and names an
  overlay pair never loads that overlay. Repeating the same request does not
  load it either (`LoadNewNameWithPairLeavesOverlayEmpty`).
- When a new image name does not resolve, `load_image` returns without an
  error. The tile handler then serves tiles of the previously active image
  (`ServeUnresolvedUsesPreviousImage`).
- A tile at the right or bottom edge is cut with a full 256 x 256 box
  (app.py:265-267). Pillow pads the part beyond the image; the tile is not
  clipped to the image. The model describes boxes, not tile pixels.

## Model

| member | source | states |
|---|---|---|
| `Levels.CeilLog2` | app.py:112 | 2^k reaches n and, for k > 0, 2^(k-1) does not, so k is ceil(log2 n) |
| `Levels.CeilDiv` | app.py:260-262 | no contract of its own; `CeilDivBounds` states it is the least q with a <= q * d |
| `Levels.MaxLevel` | app.py:112 | there is at least one level; 2^(maxlevel-1) covers both sides of the image; 2^(maxlevel-2) does not cover the larger side |
| `Levels.CeilLog2IsLeast` | app.py:112 | no exponent smaller than the computed ceil-log2 reaches the larger side, so `maxlevel - 1` is the least k with 2^k >= max(width, height) |
| `Levels.LevelDim` | app.py:260-262 | the top level has the source's size; no level is larger than the source; a positive side stays at least 1 pixel |
| `Levels.LevelDimHalves` | app.py:260-262 | deriving level L straight from full resolution gives the size of halving level L+1 and rounding up, so the direct resize has no cumulative rounding |
| `Levels.CoarsestLevelIsOnePixel` | app.py:112 | with `maxlevel` computed from the source, level 0 of a positive-sized source is 1 x 1 |
| `Levels.CropBox` | app.py:265-267 | a tile's crop box is exactly `tile_size` wide and high |
| `Levels.CropBoxesPartition` | app.py:265-267 | a pixel (x, y) with non-negative coordinates lies in the box of tile (c, r) exactly when c = x div 256 and r = y div 256 |
| `Raster.Open` | app.py:111 | an opened file is a source image that carries its path; on a disk of non-empty rasters it has at least one pixel in each direction |
| `Raster.Resize` | app.py:261 | the resized image has exactly the requested width and height |
| `Paths.CheckPath` | app.py:65-94 | a returned path is one that exists |
| `Paths.FirstExisting` | app.py:73-94 | the result is the first existing path of the list, with every earlier path missing; the result is None exactly when no path of the list exists |
| `Paths.CheckPathIsFirstExisting` | app.py:65-94 | check_path returns the first existing path among data/raw/{name}.tif and data/raw/{name}.cog.tif when model or feature is falsy, and among {m}/{name}/val_{name}_{feature}.tif, {m}/{name}/{name}_{feature}.tif and {m}/{name}_{feature}.tif otherwise |
| `Catalog.Basename` | app.py:50 | os.path.basename: the result contains no '/'; `BasenameOfJoin` states which suffix it is |
| `Catalog.DeriveName` | app.py:50-52 | no contract of its own; `DeriveNameStripsSuffixes` and `ImagePairsAt` state its behaviour |
| `Catalog.BasenameOfJoin` | app.py:50 | the basename of dir/x is x for any x without '/' |
| `Catalog.DeriveNameStripsSuffixes` | app.py:49-52 | dir/x.tif and dir/x.cog.tif both get the key x |
| `Catalog.InsertAllLastWins` | app.py:53 | after a sequence of dictionary assignments, a key holds the value of the last pair that assigns it |
| `Catalog.InsertAllKeys` | app.py:53 | after a sequence of dictionary assignments, the keys are the earlier keys plus the assigned keys; a key no pair assigns keeps its earlier value |
| `Catalog.ImagePairsAt` | app.py:49-53 | the assignments made by load_image_list are, in listing order, one per listed file: its derived key and its path |
| `Catalog.ImageListLastWins` | app.py:49-53 | after load_image_list, the key derived from a listed file maps to that file when no later file of the listing derives the same key |
| `Catalog.ImageListKeys` | app.py:49-53 | after load_image_list, a key is present exactly when it was present before or some listed file derives it; a key no listed file derives keeps its earlier path |
| `Catalog.ModelListLastWins` | app.py:61-63 | after load_model_list, the basename of a listed directory maps to that directory when no later directory of the listing has the same basename |
| `Catalog.ModelListKeys` | app.py:61-63 | after load_model_list, a key is present exactly when it was present before or some listed directory (not a plain file) has it as basename; any other key keeps its earlier path |
| `Catalog.Catalog.constructor` | app.py:19-20 | both catalogues start empty |
| `Catalog.Catalog.LoadImageList` | app.py:42-53 | image_list becomes the old dictionary updated with (derived name, path) for each listed file, in listing order; model_list is untouched |
| `Catalog.Catalog.LoadModelList` | app.py:55-63 | model_list becomes the old dictionary updated with (basename, path) for each listed directory, in listing order; image_list is untouched |
| `Cache.Downscale` | app.py:260-262 | no contract of its own; its size on each side is `LevelDim`, whose contract and `LevelDimHalves` state the level sizes |
| `Cache.Load` | app.py:96-128 | no contract of its own; `LoadCurrentName`, `LoadUnresolvedNameKeepsRecord`, `LoadNewName`, `LoadNewOverlay`, `LoadNewNameWithPairLeavesOverlayEmpty` and `LoadPreservesValid` state its behaviour |
| `Cache.SwitchOverlay` | app.py:119-127 | no contract of its own; `LoadCurrentName` and `LoadNewOverlay` state its behaviour |
| `Cache.Fill` | app.py:258-263 | no contract of its own; `FillWritesOnlyItsSlot`, `FillIdempotent`, `FillCommutes` and `FillPreservesValid` state its behaviour |
| `Cache.FillAsWritten` | app.py:259-262 | no contract of its own; the fill as written, for any level Python can index; `FillAsWrittenAgrees` and `NegativeLevelCorruptsPyramid` state its behaviour |
| `Cache.Serve` | app.py:242-268 | no contract of its own; `ServeNotFound`, `ServeTileIsCropOfLevel`, `ServePreservesValid`, `ServeRepeated`, `ServeUnresolvedUsesPreviousImage` and `ServeAfterSwitchHasNoOverlay` state its behaviour |
| `Cache.Blank` | app.py:116 | `[None] * n` has n slots, all empty |
| `Cache.InitialIsValid` | app.py:26-33 | the start-up record satisfies the cache invariant |
| `Cache.LoadWellFormed` | app.py:112-118 | after load_image both level lists have `maxlevel` slots |
| `Cache.LoadCurrentName` | app.py:119-127 | with the current name, load_image changes the record exactly when the call names a truthy (model, feature) that differs from the recorded pair |
| `Cache.LoadUnresolvedNameKeepsRecord` | app.py:106-110 | a new name with no raw file leaves the whole record unchanged, including the previous name and levels |
| `Cache.LoadNewName` | app.py:106-118 | a resolved new name sets maxlevel - 1 to the least k with 2^k >= max(w, h); the raw list holds the opened file in its last slot only; the overlay list is all empty; name, model and feature are the call's arguments |
| `Cache.LoadNewOverlay` | app.py:119-127 | a new truthy pair under the current name keeps name, raw and maxlevel; it records the pair even when nothing resolves; the overlay list is rebuilt empty, and its last slot holds the overlay only if one resolves |
| `Cache.LoadNewNameWithPairLeavesOverlayEmpty` | app.py:113-120 | a call that switches the image and names a pair loads no overlay; repeating that call changes nothing |
| `Cache.LoadPreservesValid` | app.py:96-128 | load_image keeps the cache invariant |
| `Cache.FillWritesOnlyItsSlot` | app.py:258-263 | the fill writes only the slot of its level, and only if it was empty; it writes the resize of the top slot to that level's size; the other layer, the other slots and the rest of the record are unchanged |
| `Cache.FillIdempotent` | app.py:259 | a filled level is never recomputed: filling twice is filling once |
| `Cache.FillCommutes` | app.py:259-262 | two fills give the same record in either order; no level depends on another |
| `Cache.FillPreservesValid` | app.py:259-262 | filling a level keeps the cache invariant |
| `Cache.RawCoarsestLevelIsOnePixel` | app.py:259-262 | level 0 of the raw pyramid comes out 1 pixel in each direction |
| `Cache.FillAsWrittenAgrees` | app.py:259-262 | for levels >= 0, the fill as written and the modelled fill agree |
| `Cache.NegativeLevelCorruptsPyramid` | app.py:259-262 | for the 1000 x 700 example, level -2 stores a 1 x 1 image in slot 9, where level 9 is 500 x 350, and breaks the invariant |
| `Cache.ServeNotFound` | app.py:252-256 | a tile request is not found exactly when the image is not catalogued, the layer has no top image after loading, or the level is outside 0 .. maxlevel-1 of the loaded image; an uncatalogued image changes nothing |
| `Cache.ServeTileIsCropOfLevel` | app.py:254-267 | a served tile is the box of tile (c, r) cut from the requested level: the full-resolution image at the top level, its downscale below it |
| `Cache.ServePreservesValid` | app.py:242-268 | serving any request keeps the cache invariant, so every cached level has the size its index promises |
| `Cache.ServeRepeated` | app.py:254-263 | repeating a request computes nothing new and gets the same reply |
| `Cache.ServeUnresolvedUsesPreviousImage` | app.py:252-267 | a catalogued image whose raw file does not resolve is served from the previously active image's pyramid |
| `Cache.ServeAfterSwitchHasNoOverlay` | app.py:254-256 | right after a switch to a new image, an overlay tile request is not found |
| `ActiveImage.Viewer.constructor` | app.py:26-33 | the record starts with no name, no pair, zero levels and empty lists |
| `ActiveImage.Viewer.LoadImage` | app.py:96-128 | the in-place update of the record equals `Load` of the old record, and keeps the invariant |
| `ActiveImage.Viewer.ActivateImage` | app.py:111-118 | after a switch the record holds the new name, model and feature; it has the computed number of levels, the source in the last raw slot, and empty slots everywhere else |
| `ActiveImage.Viewer.SwitchOverlayInPlace` | app.py:119-127 | the in-place overlay switch equals `SwitchOverlay` of the old record |
| `ActiveImage.Viewer.FillLevel` | app.py:258-263 | the in-place write of one slot equals `Fill` of the old record, and keeps the invariant |
| `ActiveImage.Viewer.ServeTile` | app.py:242-268 | the reply and the new record equal `Serve` of the old record, and the invariant is kept |

## Findings

| source | as written | input that shows it | evidently intended | confidence | as-written member | corrected member |
|---|---|---|---|---|---|---|
| app.py:259-262 | `int(level)` accepts a negative level. Python indexing maps it to slot maxlevel + level, but the scale is computed from the negative level, as 0.5^(maxlevel - level - 1) | a 1000 x 700 image (11 levels), then a tile request for level -2: slot 9 gets a 1 x 1 image, and later level-9 tiles are cut from it instead of from the 500 x 350 level | only levels 0 .. maxlevel-1 are served; any other level is not found | not executed; high that slot 9 is written with the wrong size, medium that any client sends such a URL | `Cache.NegativeLevelCorruptsPyramid` | `Cache.ServePreservesValid` |

`Cache.FillAsWritten` models the fill as written. `Cache.Fill` and
`Cache.Serve` model the corrected behaviour, and so does `ServeTile` in the
class: a level outside 0 .. maxlevel-1 is answered as not found. A level at
or above `maxlevel` (or below -maxlevel) makes the source raise an
`IndexError` at app.py:259 instead, with the lock held; see "## Left out".

## Left out

- Flask plumbing is not modelled. This covers routing, `jsonify`, `render_template`, the `/`, `/dzi` and `/results` endpoints, and `main`/argparse (app.py:152-192, 273-300). They are I/O glue.
- The Deep Zoom metadata responses `dzi_raw` and `dzi_feature` (app.py:194-240) are not modelled. They read the top slot's size after `load_image`. Reading `None.height` after the switch quirk is a runtime error of that glue.
- `send_image` is not modelled: PNG encoding and the transparency of black pixels (app.py:130-146).
- Pillow is not modelled. Images are their size plus where they came from. Decoding, the resampling filter and crop pixel semantics are not modelled. Nothing is said about the pixels of edge tiles, which Pillow pads with zeros.
- Opening a raster never fails in the model. A file that exists but cannot be decoded is not modelled.
- The filesystem is a parameter. `os.path.exists` becomes membership in `Disk.files`. The glob results and `os.path.isdir` are the sequences given to `LoadImageList` and `LoadModelList`.
- `check_path` always looks under `data/raw`, whatever `--input` names. This is modelled as written.
- The semaphore is not modelled (app.py:36, 105, 128, 258, 263), and interleavings between requests are not modelled.
  - `LoadImage` and `FillLevel` are each one locked region.
  - `ActiveImage.Viewer.ServeTile` and `Cache.Serve` run the whole tile request as one step. That step covers load_image's locked region, the unlocked check at app.py:255, the locked fill at app.py:258-263 and the unlocked crop at app.py:265-267.
  - The model therefore excludes another request switching the active image between app.py:254 and app.py:258. In the source, such a switch makes this request fill and crop the other image's pyramid. A level that is out of range for the new `maxlevel` then raises inside the lock and hangs it.
- Levels.MaxLevel: the source computes `math.ceil(math.log(n, 2))` in floating point. For some exact powers of two this can be off by one. The model uses the exact integer ceil-log2, which is what the code intends.
- Python's initial `None` level lists are modelled as empty sequences with `maxlevel` 0.
- Python runtime errors are preconditions, not modelled behaviour:
  - `LoadDefined` covers the `KeyError` for an unknown model (app.py:83).
  - `ServeDefined` covers the `TypeError` at app.py:255 when no image was ever loaded.
  - `ValidDisk` covers the `ValueError` of `math.log(0)` for an empty raster.
  - `Layer` covers a `dir` other than raw or extracted, which makes the handler fail with an error.
  - The tile level is an integer in the model. A level that is not a number makes `int(level)` raise a `ValueError`.
- A column or row that is not a number is not modelled: `Cache.Serve` and `ServeTile` take `c` and `r` as integers. In the source, `int(c)` and `int(r)` run at app.py:265-266, after the fill has been committed and the lock released. A request such as `/dzi/<image>/raw/3/abc_0.png` therefore leaves level 3 filled and answers with an error instead of a tile.
- An error raised while the semaphore is held is not modelled. The source has no `try`/`finally`, so the semaphore is then never released, and every later request blocks at app.py:105 or app.py:258. Such errors are:
  - the `ValueError` of `int(level)` and the `IndexError` of an out-of-range level at app.py:259, both after app.py:258;
  - the `KeyError` at app.py:83 (called from app.py:124), the `ValueError` of `math.log(0)` at app.py:112, and a failing `Image.open` at app.py:111 or app.py:126, all after app.py:105.

  For example, a single tile URL with level `99` or `abc` would hang the server. The model has no concurrency, so it cannot state a hang. Instead, `Cache.Serve` answers an out-of-range level as not found, and the other errors stay preconditions.
