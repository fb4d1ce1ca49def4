/**
 * The single-slot image cache of app.py as values: the global `img` record,
 * load_image (app.py:96-128), the lazy level fill and the tile addressing of
 * `files` (app.py:242-268). The class in viewer.dfy updates the same record
 * in place and is proved against these functions.
 */
module Cache {
  import opened Common
  import opened Levels
  import opened Raster
  import Paths

  /** The two pyramids of the record, selected by the `dir` segment of a tile URL. */
  datatype Layer = Raw | Extracted

  /**
   * The `img` record (app.py:26-33): the active image name, the active
   * (model, feature) pair, the number of levels and one slot per level for
   * the raw image and for the extracted overlay. The initial `None` lists
   * are the empty sequences of the initial state.
   */
  datatype State = State(name: Option<string>, model: Option<string>, feature: Option<string>,
                         maxlevel: nat, raw: seq<Option<Image>>, extracted: seq<Option<Image>>)
  {
    function Slots(layer: Layer): seq<Option<Image>>
    {
      match layer
      case Raw => raw
      case Extracted => extracted
    }

    function WithSlots(layer: Layer, slots: seq<Option<Image>>): State
    {
      match layer
      case Raw => this.(raw := slots)
      case Extracted => this.(extracted := slots)
    }
  }

  /** The record at start-up. */
  const Initial: State := State(None, None, None, 0, [], [])

  /** A tile response: not found, or the crop of a cached level. */
  datatype Reply = NotFound | Tile(image: Image, box: Box)

  /** Python's `[None] * n`. */
  function Blank(n: nat): (slots: seq<Option<Image>>)
    ensures |slots| == n
    ensures forall l :: 0 <= l < n ==> slots[l].None?
  {
    if n == 0 then [] else Blank(n - 1) + [None]
  }

  /** Both level lists have `maxlevel` slots, and a named image has at least one level. */
  predicate WellFormed(s: State)
  {
    && |s.raw| == s.maxlevel
    && |s.extracted| == s.maxlevel
    && (s.name.Some? ==> s.maxlevel >= 1)
  }

  /** The full-resolution slot of a layer (`img[dir][-1]`). */
  function Top(s: State, layer: Layer): Option<Image>
    requires WellFormed(s) && s.maxlevel >= 1
  {
    s.Slots(layer)[s.maxlevel - 1]
  }

  /** Level `level` derived directly from the full-resolution image `top`. */
  function Downscale(top: Image, maxlevel: nat, level: nat): Image
    requires level < maxlevel
  {
    Resize(top, LevelDim(top.width, maxlevel, level), LevelDim(top.height, maxlevel, level))
  }

  /**
   * A level list of a pyramid: `maxlevel` slots; either all empty, or the top
   * holds an opened source and every other filled slot holds the downscale of
   * that source to its level.
   */
  predicate Pyramid(slots: seq<Option<Image>>, maxlevel: nat)
  {
    && |slots| == maxlevel
    && (maxlevel >= 1 ==>
          if slots[maxlevel - 1].None? then
            forall l :: 0 <= l < maxlevel ==> slots[l].None?
          else
            && slots[maxlevel - 1].value.Source?
            && forall l :: 0 <= l < maxlevel - 1 && slots[l].Some? ==>
                 slots[l].value == Downscale(slots[maxlevel - 1].value, maxlevel, l))
  }

  /**
   * The invariant of the record: both lists are pyramids over `maxlevel`
   * levels, and once an image is named its raw top is loaded and `maxlevel`
   * is computed from that top's size.
   */
  predicate Valid(s: State)
  {
    && WellFormed(s)
    && Pyramid(s.raw, s.maxlevel)
    && Pyramid(s.extracted, s.maxlevel)
    && (s.name.Some? ==>
          && s.raw[s.maxlevel - 1].Some?
          && s.raw[s.maxlevel - 1].value.width >= 1
          && s.raw[s.maxlevel - 1].value.height >= 1
          && s.maxlevel == MaxLevel(s.raw[s.maxlevel - 1].value.width, s.raw[s.maxlevel - 1].value.height))
  }

  lemma InitialIsValid()
    ensures Valid(Initial)
  {
  }

  /** The overlay switch looks up the model directory (app.py:124 via app.py:83). */
  predicate OverlaySwitches(s: State, model: Option<string>, feature: Option<string>)
  {
    Truthy(model) && Truthy(feature) && (model != s.model || feature != s.feature)
  }

  /** load_image raises no KeyError: the overlay switch is taken only for a known model. */
  predicate LoadDefined(s: State, name: string, model: Option<string>, feature: Option<string>,
                        models: map<string, string>)
  {
    s.name == Some(name) && OverlaySwitches(s, model, feature) ==> model.value in models
  }

  /** Lines 119-127 of load_image: switch the overlay when a new (model, feature) is named. */
  function SwitchOverlay(s: State, name: string, model: Option<string>, feature: Option<string>,
                         disk: Disk, models: map<string, string>): State
    requires WellFormed(s) && s.name.Some?
    requires OverlaySwitches(s, model, feature) ==> model.value in models
  {
    if OverlaySwitches(s, model, feature) then
      var fpath := Paths.CheckPath(name, model, feature, models, disk.files.Keys);
      var blank := Blank(s.maxlevel);
      s.(model := model, feature := feature,
         extracted := if fpath.Some? then blank[s.maxlevel - 1 := Some(Open(disk, fpath.value))] else blank)
    else
      s
  }

  /**
   * load_image(name, model, feature) (app.py:96-128). A new name is resolved
   * as a raw image; when that fails nothing changes, otherwise both level
   * lists are rebuilt with the raw source in the top slot, and the record
   * takes the name, model and feature of the call. Then the overlay is
   * switched if the call names a truthy (model, feature) that differs from
   * the recorded one.
   */
  function Load(s: State, name: string, model: Option<string>, feature: Option<string>,
                disk: Disk, models: map<string, string>): State
    requires WellFormed(s) && ValidDisk(disk)
    requires LoadDefined(s, name, model, feature, models)
  {
    if s.name != Some(name) then
      var fpath := Paths.CheckPath(name, None, None, models, disk.files.Keys);
      if fpath.None? then s
      else
        var image := Open(disk, fpath.value);
        var maxlevel := MaxLevel(image.width, image.height);
        var switched := State(Some(name), model, feature, maxlevel,
                              Blank(maxlevel)[maxlevel - 1 := Some(image)], Blank(maxlevel));
        SwitchOverlay(switched, name, model, feature, disk, models)
    else
      SwitchOverlay(s, name, model, feature, disk, models)
  }

  /**
   * The locked block of `files` (app.py:258-263) for a level 0 <= level <
   * maxlevel: an empty slot is filled with the resize of the top slot to the
   * level's size; a filled slot is left as it is.
   */
  function Fill(s: State, layer: Layer, level: nat): State
    requires WellFormed(s) && level < s.maxlevel
    requires Top(s, layer).Some?
  {
    var slots := s.Slots(layer);
    if slots[level].Some? then s
    else s.WithSlots(layer, slots[level := Some(Downscale(Top(s, layer).value, s.maxlevel, level))])
  }

  /**
   * The same block as written, for any level Python can index: a negative
   * level addresses slot maxlevel + level, while the scale is still computed
   * from the negative level itself.
   */
  function FillAsWritten(s: State, layer: Layer, level: int): State
    requires WellFormed(s) && -(s.maxlevel as int) <= level < s.maxlevel
    requires Top(s, layer).Some?
  {
    var slots := s.Slots(layer);
    var slot := if level < 0 then s.maxlevel + level else level;
    if slots[slot].Some? then s
    else
      var top := Top(s, layer).value;
      var halvings := s.maxlevel - level - 1;
      s.WithSlots(layer, slots[slot := Some(Resize(top, CeilDiv(top.width, Pow2(halvings)),
                                                      CeilDiv(top.height, Pow2(halvings))))])
  }

  /**
   * `files` raises no error outside its locked region: after load_image some
   * image is loaded (the raw list is not None).
   */
  predicate ServeDefined(s: State, images: map<string, string>, disk: Disk, models: map<string, string>,
                         image: string)
    requires WellFormed(s) && ValidDisk(disk)
  {
    image in images ==> Load(s, image, None, None, disk, models).name.Some?
  }

  /**
   * A tile request (image, dir, level, c, r) (app.py:242-268), with levels
   * outside 0 .. maxlevel-1 answered as not found: an unknown image and an empty top slot are
   * not found; otherwise the level is filled if need be and the tile's box is
   * cut from it.
   */
  function Serve(s: State, images: map<string, string>, disk: Disk, models: map<string, string>,
                 image: string, layer: Layer, level: int, c: int, r: int): (State, Reply)
    requires WellFormed(s) && ValidDisk(disk)
    requires ServeDefined(s, images, disk, models, image)
  {
    if image !in images then (s, NotFound)
    else
      var t := Load(s, image, None, None, disk, models);
      if Top(t, layer).None? || level < 0 || level >= t.maxlevel then (t, NotFound)
      else
        var u := Fill(t, layer, level);
        (u, Tile(u.Slots(layer)[level].value, CropBox(c, r)))
  }

  // ---------------------------------------------------------------------------
  // load_image

  lemma BlankTopPyramid(maxlevel: nat, top: Image)
    requires maxlevel >= 1 && top.Source?
    ensures Pyramid(Blank(maxlevel)[maxlevel - 1 := Some(top)], maxlevel)
    ensures Pyramid(Blank(maxlevel), maxlevel)
  {
  }

  lemma SwitchOverlayWellFormed(s: State, name: string, model: Option<string>, feature: Option<string>,
                                disk: Disk, models: map<string, string>)
    requires WellFormed(s) && s.name.Some?
    requires OverlaySwitches(s, model, feature) ==> model.value in models
    ensures WellFormed(SwitchOverlay(s, name, model, feature, disk, models))
    ensures SwitchOverlay(s, name, model, feature, disk, models).name == s.name
  {
  }

  lemma LoadWellFormed(s: State, name: string, model: Option<string>, feature: Option<string>,
                       disk: Disk, models: map<string, string>)
    requires WellFormed(s) && ValidDisk(disk)
    requires LoadDefined(s, name, model, feature, models)
    ensures WellFormed(Load(s, name, model, feature, disk, models))
  {
  }

  /**
   * With the current name, load_image changes the record exactly when it
   * names a truthy (model, feature) different from the recorded pair.
   */
  lemma LoadCurrentName(s: State, name: string, model: Option<string>, feature: Option<string>,
                        disk: Disk, models: map<string, string>)
    requires WellFormed(s) && ValidDisk(disk)
    requires LoadDefined(s, name, model, feature, models)
    requires s.name == Some(name)
    ensures Load(s, name, model, feature, disk, models) == s <==> !OverlaySwitches(s, model, feature)
  {
  }

  /** A new name that resolves to no raw file leaves the whole record as it was. */
  lemma LoadUnresolvedNameKeepsRecord(s: State, name: string, model: Option<string>, feature: Option<string>,
                                      disk: Disk, models: map<string, string>)
    requires WellFormed(s) && ValidDisk(disk)
    requires LoadDefined(s, name, model, feature, models)
    requires s.name != Some(name)
    requires Paths.CheckPath(name, None, None, models, disk.files.Keys).None?
    ensures Load(s, name, model, feature, disk, models) == s
  {
  }

  /**
   * A new name that resolves: `maxlevel` is one more than the least k with
   * 2^k >= max(width, height), the raw list holds the opened source in its
   * last slot only, the overlay list is empty, and the record carries the
   * call's name, model and feature, so no overlay is loaded by this call.
   */
  lemma LoadNewName(s: State, name: string, model: Option<string>, feature: Option<string>,
                    disk: Disk, models: map<string, string>, path: string)
    requires WellFormed(s) && ValidDisk(disk)
    requires LoadDefined(s, name, model, feature, models)
    requires s.name != Some(name)
    requires Paths.CheckPath(name, None, None, models, disk.files.Keys) == Some(path)
    ensures var t := Load(s, name, model, feature, disk, models);
      var size := disk.files[path];
      && t.name == Some(name) && t.model == model && t.feature == feature
      && t.maxlevel >= 1
      && size.width <= Pow2(t.maxlevel - 1) && size.height <= Pow2(t.maxlevel - 1)
      && (forall k: nat :: size.width <= Pow2(k) && size.height <= Pow2(k) ==> t.maxlevel - 1 <= k)
      && |t.raw| == t.maxlevel && t.raw[t.maxlevel - 1] == Some(Source(path, size.width, size.height))
      && (forall l :: 0 <= l < t.maxlevel - 1 ==> t.raw[l].None?)
      && |t.extracted| == t.maxlevel && (forall l :: 0 <= l < t.maxlevel ==> t.extracted[l].None?)
  {
    var size := disk.files[path];
    var t := Load(s, name, model, feature, disk, models);
    forall k: nat | size.width <= Pow2(k) && size.height <= Pow2(k)
      ensures t.maxlevel - 1 <= k
    {
      CeilLog2IsLeast(Max(size.width, size.height), k);
    }
  }

  /**
   * The current name with a new truthy (model, feature): the raw list,
   * `maxlevel` and the name stay, the pair is recorded whether or not it
   * resolves, and the overlay list is rebuilt empty except for its last slot,
   * which holds the resolved overlay if there is one.
   */
  lemma LoadNewOverlay(s: State, name: string, model: Option<string>, feature: Option<string>,
                       disk: Disk, models: map<string, string>)
    requires WellFormed(s) && ValidDisk(disk)
    requires LoadDefined(s, name, model, feature, models)
    requires s.name == Some(name) && OverlaySwitches(s, model, feature)
    ensures var t := Load(s, name, model, feature, disk, models);
      var fpath := Paths.CheckPath(name, model, feature, models, disk.files.Keys);
      && t.name == s.name && t.raw == s.raw && t.maxlevel == s.maxlevel
      && t.model == model && t.feature == feature
      && |t.extracted| == s.maxlevel
      && (forall l :: 0 <= l < s.maxlevel - 1 ==> t.extracted[l].None?)
      && t.extracted[s.maxlevel - 1] == (if fpath.Some? then Some(Open(disk, fpath.value)) else None)
  {
  }

  /**
   * A call that both switches the image and names a (model, feature) records
   * that pair without loading its overlay; repeating the same call then
   * changes nothing, so the overlay of that pair stays unloaded even when its
   * file exists, until some other pair is requested.
   */
  lemma LoadNewNameWithPairLeavesOverlayEmpty(s: State, name: string, model: Option<string>,
                                              feature: Option<string>, disk: Disk, models: map<string, string>)
    requires WellFormed(s) && ValidDisk(disk)
    requires LoadDefined(s, name, model, feature, models)
    requires s.name != Some(name)
    requires Paths.CheckPath(name, None, None, models, disk.files.Keys).Some?
    requires Truthy(model) && Truthy(feature)
    ensures var t := Load(s, name, model, feature, disk, models);
      && WellFormed(t)
      && (forall l :: 0 <= l < t.maxlevel ==> t.extracted[l].None?)
      && LoadDefined(t, name, model, feature, models)
      && Load(t, name, model, feature, disk, models) == t
  {
  }

  /** Replacing the overlay list by another pyramid keeps the invariant. */
  lemma ValidWithOverlay(s: State, model: Option<string>, feature: Option<string>, x: seq<Option<Image>>)
    requires Valid(s) && Pyramid(x, s.maxlevel)
    ensures Valid(s.(model := model, feature := feature, extracted := x))
  {
  }

  /** The record right after a successful image switch is valid. */
  lemma SwitchedIsValid(name: string, model: Option<string>, feature: Option<string>, image: Image)
    requires image.Source? && image.width >= 1 && image.height >= 1
    ensures var maxlevel := MaxLevel(image.width, image.height);
      Valid(State(Some(name), model, feature, maxlevel, Blank(maxlevel)[maxlevel - 1 := Some(image)], Blank(maxlevel)))
  {
    var maxlevel := MaxLevel(image.width, image.height);
    BlankTopPyramid(maxlevel, image);
    var raw := Blank(maxlevel)[maxlevel - 1 := Some(image)];
    assert raw[maxlevel - 1] == Some(image);
  }

  /** load_image keeps the record's invariant. */
  lemma LoadPreservesValid(s: State, name: string, model: Option<string>, feature: Option<string>,
                           disk: Disk, models: map<string, string>)
    requires Valid(s) && ValidDisk(disk)
    requires LoadDefined(s, name, model, feature, models)
    ensures Valid(Load(s, name, model, feature, disk, models))
  {
    if s.name != Some(name) {
      var fpath := Paths.CheckPath(name, None, None, models, disk.files.Keys);
      if fpath.Some? {
        SwitchedIsValid(name, model, feature, Open(disk, fpath.value));
      }
    } else if OverlaySwitches(s, model, feature) {
      var fpath := Paths.CheckPath(name, model, feature, models, disk.files.Keys);
      var blank := Blank(s.maxlevel);
      if fpath.Some? {
        BlankTopPyramid(s.maxlevel, Open(disk, fpath.value));
        ValidWithOverlay(s, model, feature, blank[s.maxlevel - 1 := Some(Open(disk, fpath.value))]);
      } else {
        BlankTopPyramid(s.maxlevel, Source(name, 1, 1));
        ValidWithOverlay(s, model, feature, blank);
      }
    }
  }

  // ---------------------------------------------------------------------------
  // The lazy level fill

  /**
   * Fill writes at most the slot of its level, and only when it was empty,
   * with the resize of the top slot to the level's size; the other layer,
   * the other slots (the top among them) and the rest of the record stay.
   */
  lemma FillWritesOnlyItsSlot(s: State, layer: Layer, level: nat, other: Layer)
    requires WellFormed(s) && level < s.maxlevel && Top(s, layer).Some?
    ensures var t := Fill(s, layer, level);
      && WellFormed(t)
      && t.name == s.name && t.model == s.model && t.feature == s.feature && t.maxlevel == s.maxlevel
      && (other != layer ==> t.Slots(other) == s.Slots(other))
      && (forall l :: 0 <= l < s.maxlevel && l != level ==> t.Slots(layer)[l] == s.Slots(layer)[l])
      && t.Slots(layer)[level] == if s.Slots(layer)[level].Some? then s.Slots(layer)[level]
                                  else Some(Downscale(Top(s, layer).value, s.maxlevel, level))
  {
  }

  /** A filled level is never recomputed: filling twice is filling once. */
  lemma FillIdempotent(s: State, layer: Layer, level: nat)
    requires WellFormed(s) && level < s.maxlevel && Top(s, layer).Some?
    ensures WellFormed(Fill(s, layer, level)) && Top(Fill(s, layer, level), layer).Some?
    ensures Fill(Fill(s, layer, level), layer, level) == Fill(s, layer, level)
  {
  }

  /** Levels are derived independently of each other: the order of two fills does not matter. */
  lemma FillCommutes(s: State, layer1: Layer, level1: nat, layer2: Layer, level2: nat)
    requires WellFormed(s) && level1 < s.maxlevel && level2 < s.maxlevel
    requires Top(s, layer1).Some? && Top(s, layer2).Some?
    ensures WellFormed(Fill(s, layer1, level1)) && Top(Fill(s, layer1, level1), layer2).Some?
    ensures WellFormed(Fill(s, layer2, level2)) && Top(Fill(s, layer2, level2), layer1).Some?
    ensures Fill(Fill(s, layer1, level1), layer2, level2) == Fill(Fill(s, layer2, level2), layer1, level1)
  {
    var a := Fill(Fill(s, layer1, level1), layer2, level2);
    var b := Fill(Fill(s, layer2, level2), layer1, level1);
    if layer1 == layer2 && level1 != level2 {
      assert a.Slots(layer1) == b.Slots(layer1);
    }
  }

  /** Filling a level keeps the record's invariant. */
  lemma FillPreservesValid(s: State, layer: Layer, level: nat)
    requires Valid(s) && level < s.maxlevel && Top(s, layer).Some?
    ensures Valid(Fill(s, layer, level))
  {
    var t := Fill(s, layer, level);
    if level == s.maxlevel - 1 {
      assert t == s;
    }
  }

  /** Level 0 of the raw pyramid is a single pixel in each direction. */
  lemma RawCoarsestLevelIsOnePixel(s: State)
    requires Valid(s) && s.name.Some?
    ensures Fill(s, Raw, 0).raw[0].Some?
    ensures Fill(s, Raw, 0).raw[0].value.width == 1 && Fill(s, Raw, 0).raw[0].value.height == 1
  {
    var m := s.maxlevel;
    var top := s.raw[m - 1].value;
    CoarsestLevelIsOnePixel(top.width, top.height);
    FillWritesOnlyItsSlot(s, Raw, 0, Raw);
    var slot := Fill(s, Raw, 0).raw[0];
    if m == 1 {
      assert slot == Some(top);
      assert Pow2(0) == 1;
    } else {
      assert slot == Some(Downscale(top, m, 0));
    }
  }

  /** For non-negative levels the code as written and Fill agree. */
  lemma FillAsWrittenAgrees(s: State, layer: Layer, level: nat)
    requires WellFormed(s) && level < s.maxlevel && Top(s, layer).Some?
    ensures FillAsWritten(s, layer, level) == Fill(s, layer, level)
  {
  }

  /** A 1000 x 700 source has 11 levels. */
  lemma ElevenLevels()
    ensures MaxLevel(1000, 700) == 11
  {
    assert Pow2(9) == 512 && Pow2(10) == 1024;
    var k := CeilLog2(1000);
    CeilLog2IsLeast(1000, 10);
    Pow2MonotoneOn(k, 9);
  }

  /** The record right after `map1` (1000 x 700) is activated. */
  function Map1(): State
  {
    State(Some("map1"), None, None, 11, Blank(11)[10 := Some(Source("data/raw/map1.tif", 1000, 700))], Blank(11))
  }

  lemma Map1IsValid()
    ensures Valid(Map1())
  {
    ElevenLevels();
    SwitchedIsValid("map1", None, None, Source("data/raw/map1.tif", 1000, 700));
  }

  /** Level -2 of `map1` is resized by 2^-12 and stored in slot 9. */
  lemma Map1NegativeFill()
    ensures FillAsWritten(Map1(), Raw, -2).raw[9] == Some(Resized(Source("data/raw/map1.tif", 1000, 700), 1, 1))
  {
    var top := Source("data/raw/map1.tif", 1000, 700);
    var s := Map1();
    assert s.raw[9] == None && s.raw[10] == Some(top);
    assert Pow2(12) == 4096;
    assert CeilDiv(1000, 4096) == 1 && CeilDiv(700, 4096) == 1;
  }

  /** Level 9 of `map1` is 500 x 350. */
  lemma Map1Level9()
    ensures Downscale(Source("data/raw/map1.tif", 1000, 700), 11, 9)
         == Resized(Source("data/raw/map1.tif", 1000, 700), 500, 350)
  {
    assert Pow2(1) == 2;
    assert CeilDiv(1000, 2) == 500 && CeilDiv(700, 2) == 350;
  }

  /**
   * The counterexample of the negative level: for a 1000 x 700 source
   * (11 levels) the request for level -2 fills slot 9 with a 1 x 1 image,
   * while level 9 is 500 x 350; later requests for level 9 get the 1 x 1
   * image, and the record's invariant is broken.
   */
  lemma NegativeLevelCorruptsPyramid()
    ensures Valid(Map1())
    ensures FillAsWritten(Map1(), Raw, -2).raw[9] != Some(Downscale(Map1().raw[10].value, 11, 9))
    ensures !Valid(FillAsWritten(Map1(), Raw, -2))
  {
    Map1IsValid();
    Map1NegativeFill();
    Map1Level9();
    var t := FillAsWritten(Map1(), Raw, -2);
    assert t.raw[10] == Map1().raw[10];
    assert t.maxlevel == 11;
  }

  // ---------------------------------------------------------------------------
  // Tile requests

  /**
   * A request is not found exactly when the image is not catalogued, the
   * requested layer has no top image after loading, or the level is not one
   * of the loaded image's levels 0 .. maxlevel-1.
   */
  lemma ServeNotFound(s: State, images: map<string, string>, disk: Disk, models: map<string, string>,
                      image: string, layer: Layer, level: int, c: int, r: int)
    requires WellFormed(s) && ValidDisk(disk)
    requires ServeDefined(s, images, disk, models, image)
    ensures Serve(s, images, disk, models, image, layer, level, c, r).1.NotFound?
        <==> (|| image !in images
              || (LoadWellFormed(s, image, None, None, disk, models);
                  var t := Load(s, image, None, None, disk, models);
                  Top(t, layer).None? || level < 0 || level >= t.maxlevel))
    ensures image !in images ==> Serve(s, images, disk, models, image, layer, level, c, r).0 == s
  {
  }

  /**
   * On a valid record a served tile is the box of tile (c, r) cut from the
   * requested level of the active pyramid: the full-resolution source at the
   * top level, its downscale to the level below it.
   */
  lemma ServeTileIsCropOfLevel(s: State, images: map<string, string>, disk: Disk, models: map<string, string>,
                               image: string, layer: Layer, level: int, c: int, r: int)
    requires Valid(s) && ValidDisk(disk)
    requires ServeDefined(s, images, disk, models, image)
    requires Serve(s, images, disk, models, image, layer, level, c, r).1.Tile?
    ensures var t := Load(s, image, None, None, disk, models);
      var reply := Serve(s, images, disk, models, image, layer, level, c, r).1;
      && WellFormed(t) && 0 <= level < t.maxlevel && Top(t, layer).Some?
      && reply.box == CropBox(c, r)
      && reply.image == if level == t.maxlevel - 1 then Top(t, layer).value
                        else Downscale(Top(t, layer).value, t.maxlevel, level)
  {
    LoadPreservesValid(s, image, None, None, disk, models);
  }

  /** Serving a request keeps the record's invariant. */
  lemma ServePreservesValid(s: State, images: map<string, string>, disk: Disk, models: map<string, string>,
                            image: string, layer: Layer, level: int, c: int, r: int)
    requires Valid(s) && ValidDisk(disk)
    requires ServeDefined(s, images, disk, models, image)
    ensures Valid(Serve(s, images, disk, models, image, layer, level, c, r).0)
  {
    if image in images {
      LoadPreservesValid(s, image, None, None, disk, models);
      var t := Load(s, image, None, None, disk, models);
      if Top(t, layer).Some? && 0 <= level < t.maxlevel {
        FillPreservesValid(t, layer, level);
      }
    }
  }

  /** A repeated request computes nothing new and gets the same reply. */
  lemma ServeRepeated(s: State, images: map<string, string>, disk: Disk, models: map<string, string>,
                      image: string, layer: Layer, level: int, c: int, r: int)
    requires WellFormed(s) && ValidDisk(disk)
    requires ServeDefined(s, images, disk, models, image)
    ensures var (t, reply) := Serve(s, images, disk, models, image, layer, level, c, r);
      && WellFormed(t) && ServeDefined(t, images, disk, models, image)
      && Serve(t, images, disk, models, image, layer, level, c, r) == (t, reply)
  {
    if image in images {
      var t := Load(s, image, None, None, disk, models);
      if Top(t, layer).Some? && 0 <= level < t.maxlevel {
        FillIdempotent(t, layer, level);
        var u := Fill(t, layer, level);
        assert Load(u, image, None, None, disk, models) == u;
      }
    }
  }

  /**
   * A catalogued image whose raw file does not resolve is served from the
   * previously active image's pyramid: the record is not switched.
   */
  lemma ServeUnresolvedUsesPreviousImage(s: State, images: map<string, string>, disk: Disk,
                                         models: map<string, string>, image: string, layer: Layer,
                                         level: int, c: int, r: int)
    requires WellFormed(s) && ValidDisk(disk)
    requires ServeDefined(s, images, disk, models, image)
    requires image in images && s.name != Some(image)
    requires Paths.CheckPath(image, None, None, models, disk.files.Keys).None?
    ensures s.name.Some? && s.name != Some(image)
    ensures Serve(s, images, disk, models, image, layer, level, c, r)
         == if Top(s, layer).None? || level < 0 || level >= s.maxlevel then (s, NotFound)
            else var u := Fill(s, layer, level); (u, Tile(u.Slots(layer)[level].value, CropBox(c, r)))
  {
  }

  /**
   * Switching the active image discards the overlay: an overlay tile request
   * for a newly activated image is not found.
   */
  lemma ServeAfterSwitchHasNoOverlay(s: State, images: map<string, string>, disk: Disk,
                                     models: map<string, string>, image: string, level: int, c: int, r: int)
    requires WellFormed(s) && ValidDisk(disk)
    requires ServeDefined(s, images, disk, models, image)
    requires image in images && s.name != Some(image)
    requires Paths.CheckPath(image, None, None, models, disk.files.Keys).Some?
    ensures Serve(s, images, disk, models, image, Extracted, level, c, r).1 == NotFound
  {
  }
}
