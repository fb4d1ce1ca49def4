/**
 * The process-wide `img` record of app.py as an object whose fields the
 * handlers update in place: load_image (app.py:96-128) and the tile handler
 * `files` (app.py:242-268). Each locked region is one atomic method; every
 * method is proved to move the record as the functions of module Cache say.
 */
module ActiveImage {
  import opened Common
  import opened Levels
  import opened Raster
  import Paths
  import opened Cache
  import Catalog

  class Viewer {
    var name: Option<string>
    var model: Option<string>
    var feature: Option<string>
    var maxlevel: nat
    var raw: seq<Option<Image>>
    var extracted: seq<Option<Image>>

    /** The record's current value. */
    function Snapshot(): State
      reads this
    {
      State(name, model, feature, maxlevel, raw, extracted)
    }

    /** The record at start-up (app.py:26-33). */
    constructor ()
      ensures Snapshot() == Initial && Valid(Snapshot())
    {
      name, model, feature := None, None, None;
      maxlevel := 0;
      raw, extracted := [], [];
    }

    /** load_image(name, model, feature) (app.py:96-128), the whole locked region. */
    method LoadImage(name: string, model: Option<string>, feature: Option<string>,
                     disk: Disk, models: map<string, string>)
      requires WellFormed(Snapshot()) && ValidDisk(disk)
      requires LoadDefined(Snapshot(), name, model, feature, models)
      modifies this
      ensures Snapshot() == Load(old(Snapshot()), name, model, feature, disk, models)
      ensures WellFormed(Snapshot())
      ensures Valid(old(Snapshot())) ==> Valid(Snapshot())
    {
      ghost var s := Snapshot();
      LoadWellFormed(s, name, model, feature, disk, models);
      if Valid(s) {
        LoadPreservesValid(s, name, model, feature, disk, models);
      }
      if this.name != Some(name) {
        var fpath := Paths.CheckPath(name, None, None, models, disk.files.Keys);
        if fpath.None? {
          return;
        }
        var image := Open(disk, fpath.value);
        ActivateImage(name, model, feature, image);
        assert Load(s, name, model, feature, disk, models)
            == SwitchOverlay(Snapshot(), name, model, feature, disk, models);
      }
      SwitchOverlayInPlace(name, model, feature, disk, models);
    }

    /** Lines 111-118 of load_image: make the opened `image` the active raw image. */
    method ActivateImage(name: string, model: Option<string>, feature: Option<string>, image: Image)
      requires image.width >= 1 || image.height >= 1
      modifies this
      ensures var maxlevel := MaxLevel(image.width, image.height);
        Snapshot() == State(Some(name), model, feature, maxlevel,
                            Blank(maxlevel)[maxlevel - 1 := Some(image)], Blank(maxlevel))
    {
      this.maxlevel := MaxLevel(image.width, image.height);
      this.name := Some(name);
      this.model := model;
      this.feature := feature;
      this.raw := Blank(this.maxlevel);
      this.raw := this.raw[this.maxlevel - 1 := Some(image)];
      this.extracted := Blank(this.maxlevel);
    }

    /** Lines 119-127 of load_image: switch the overlay when a new (model, feature) is named. */
    method SwitchOverlayInPlace(name: string, model: Option<string>, feature: Option<string>,
                                disk: Disk, models: map<string, string>)
      requires WellFormed(Snapshot()) && this.name.Some? && ValidDisk(disk)
      requires OverlaySwitches(Snapshot(), model, feature) ==> model.value in models
      modifies this
      ensures Snapshot() == SwitchOverlay(old(Snapshot()), name, model, feature, disk, models)
    {
      if Truthy(model) && Truthy(feature) {
        if model != this.model || feature != this.feature {
          this.model := model;
          this.feature := feature;
          this.extracted := Blank(this.maxlevel);
          var fpath := Paths.CheckPath(name, model, feature, models, disk.files.Keys);
          if fpath.Some? {
            var image := Open(disk, fpath.value);
            this.extracted := this.extracted[this.maxlevel - 1 := Some(image)];
          }
        }
      }
    }

    /** The locked level fill of `files` (app.py:258-263), for a level 0 <= level < maxlevel. */
    method FillLevel(layer: Layer, level: nat)
      requires WellFormed(Snapshot()) && level < maxlevel && Top(Snapshot(), layer).Some?
      modifies this
      ensures Snapshot() == Fill(old(Snapshot()), layer, level)
      ensures Valid(old(Snapshot())) ==> Valid(Snapshot())
    {
      if Valid(Snapshot()) {
        FillPreservesValid(Snapshot(), layer, level);
      }
      var slots := if layer == Raw then raw else extracted;
      if slots[level].None? {
        var top := slots[maxlevel - 1].value;
        var scaled := Resize(top, LevelDim(top.width, maxlevel, level), LevelDim(top.height, maxlevel, level));
        if layer == Raw {
          raw := raw[level := Some(scaled)];
        } else {
          extracted := extracted[level := Some(scaled)];
        }
      }
    }

    /**
     * The tile handler `files(image, dir, level, c, r)` (app.py:242-268),
     * answering not found for a level outside 0 .. maxlevel-1.
     */
    method ServeTile(catalog: Catalog.Catalog, disk: Disk, image: string, layer: Layer,
                     level: int, c: int, r: int) returns (reply: Reply)
      requires WellFormed(Snapshot()) && ValidDisk(disk)
      requires ServeDefined(Snapshot(), catalog.images, disk, catalog.models, image)
      modifies this
      ensures (Snapshot(), reply)
           == Serve(old(Snapshot()), catalog.images, disk, catalog.models, image, layer, level, c, r)
      ensures Valid(old(Snapshot())) ==> Valid(Snapshot())
    {
      ghost var s := Snapshot();
      if Valid(s) {
        ServePreservesValid(s, catalog.images, disk, catalog.models, image, layer, level, c, r);
      }
      if image !in catalog.images {
        return NotFound;
      }
      LoadImage(image, None, None, disk, catalog.models);
      ghost var t := Snapshot();
      assert t.name.Some? && t.maxlevel >= 1;
      var slots := if layer == Raw then raw else extracted;
      assert slots == t.Slots(layer);
      if slots[maxlevel - 1].None? || level < 0 || level >= maxlevel {
        return NotFound;
      }
      FillLevel(layer, level);
      ghost var u := Fill(t, layer, level);
      FillWritesOnlyItsSlot(t, layer, level, layer);
      assert Snapshot() == u && u.Slots(layer)[level].Some?;
      assert Serve(s, catalog.images, disk, catalog.models, image, layer, level, c, r)
          == (u, Tile(u.Slots(layer)[level].value, CropBox(c, r)));
      slots := if layer == Raw then raw else extracted;
      assert slots == u.Slots(layer);
      reply := Tile(slots[level].value, CropBox(c, r));
    }
  }
}
