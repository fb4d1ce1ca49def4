/**
 * The image and model catalogues built at start-up from directory listings
 * (load_image_list and load_model_list, app.py:42-63). The listings that
 * glob returns are parameters; their order is whatever glob produced.
 */
module Catalog {

  /** os.path.basename: the part of `p` after its last '/'. */
  function Basename(p: string): (b: string)
    ensures '/' !in b
  {
    if p == [] || p[|p| - 1] == '/' then []
    else Basename(p[..|p| - 1]) + [p[|p| - 1]]
  }

  /** Python's `s[:-4]`, which is empty when `s` is shorter than 4. */
  function DropLast4(s: string): string
  {
    if |s| >= 4 then s[..|s| - 4] else []
  }

  predicate EndsWithCog(s: string)
  {
    |s| >= 4 && s[|s| - 4..] == ".cog"
  }

  /** The catalogue key of a raster file: its basename without `.tif` and then without `.cog` (app.py:50-52). */
  function DeriveName(f: string): string
  {
    var name := DropLast4(Basename(f));
    if EndsWithCog(name) then DropLast4(name) else name
  }

  /** `m` after `m[k] = v` for each pair (k, v) in order: a later key overwrites an earlier one. */
  function InsertAll(m: map<string, string>, pairs: seq<(string, string)>): map<string, string>
  {
    if pairs == [] then m
    else InsertAll(m, pairs[..|pairs| - 1])[pairs[|pairs| - 1].0 := pairs[|pairs| - 1].1]
  }

  /** (name, path) for every listed raster, in listing order. */
  function ImagePairs(files: seq<string>): seq<(string, string)>
  {
    if files == [] then []
    else ImagePairs(files[..|files| - 1]) + [(DeriveName(files[|files| - 1]), files[|files| - 1])]
  }

  /** One entry of the model directory listing: a path and whether it is a directory. */
  datatype Entry = Entry(path: string, isDir: bool)

  /** (basename, path) for every listed directory, in listing order (app.py:61-63). */
  function ModelPairs(entries: seq<Entry>): seq<(string, string)>
  {
    if entries == [] then []
    else
      var e := entries[|entries| - 1];
      ModelPairs(entries[..|entries| - 1]) + (if e.isDir then [(Basename(e.path), e.path)] else [])
  }

  lemma {:induction false} BasenameOfJoin(dir: string, x: string)
    requires '/' !in x
    ensures Basename(dir + "/" + x) == x
    decreases |x|
  {
    var p := dir + "/" + x;
    if x == [] {
      assert p[|p| - 1] == '/';
    } else {
      var x' := x[..|x| - 1];
      assert p[..|p| - 1] == dir + "/" + x';
      assert p[|p| - 1] == x[|x| - 1];
      BasenameOfJoin(dir, x');
      assert x' + [x[|x| - 1]] == x;
    }
  }

  /**
   * `dir/x.tif` and `dir/x.cog.tif` both get the key `x`, for any stem `x`
   * without '/' that does not itself end in `.cog`.
   */
  lemma DeriveNameStripsSuffixes(dir: string, x: string)
    requires '/' !in x && !EndsWithCog(x)
    ensures DeriveName(dir + "/" + x + ".tif") == x
    ensures DeriveName(dir + "/" + x + ".cog.tif") == x
  {
    assert dir + "/" + x + ".tif" == dir + "/" + (x + ".tif");
    BasenameOfJoin(dir, x + ".tif");
    assert (x + ".tif")[..|x|] == x;
    assert dir + "/" + x + ".cog.tif" == dir + "/" + (x + ".cog.tif");
    BasenameOfJoin(dir, x + ".cog.tif");
    assert (x + ".cog.tif")[..|x| + 4] == x + ".cog";
    assert (x + ".cog")[|x|..] == ".cog";
    assert (x + ".cog")[..|x|] == x;
  }

  /** The value kept for a key is the value of the last pair with that key. */
  lemma {:induction false} InsertAllLastWins(m: map<string, string>, pairs: seq<(string, string)>, i: nat)
    requires i < |pairs|
    requires forall j :: i < j < |pairs| ==> pairs[j].0 != pairs[i].0
    ensures pairs[i].0 in InsertAll(m, pairs) && InsertAll(m, pairs)[pairs[i].0] == pairs[i].1
    decreases |pairs|
  {
    if i < |pairs| - 1 {
      var init := pairs[..|pairs| - 1];
      assert init[i] == pairs[i];
      InsertAllLastWins(m, init, i);
    }
  }

  /**
   * The keys after the insertions are the keys before and the keys of the
   * pairs; a key no pair names keeps its value.
   */
  lemma {:induction false} InsertAllKeys(m: map<string, string>, pairs: seq<(string, string)>, k: string)
    ensures k in InsertAll(m, pairs) <==> k in m || exists i :: 0 <= i < |pairs| && pairs[i].0 == k
    ensures (forall i :: 0 <= i < |pairs| ==> pairs[i].0 != k) && k in m ==> InsertAll(m, pairs)[k] == m[k]
    decreases |pairs|
  {
    if pairs != [] {
      var init := pairs[..|pairs| - 1];
      InsertAllKeys(m, init, k);
      assert forall i :: 0 <= i < |init| ==> init[i] == pairs[i];
      if k in InsertAll(m, pairs) && k !in m && k != pairs[|pairs| - 1].0 {
        var i :| 0 <= i < |init| && init[i].0 == k;
        assert pairs[i].0 == k;
      }
    }
  }

  lemma ImagePairsSnoc(files: seq<string>, i: nat)
    requires i < |files|
    ensures ImagePairs(files[..i + 1]) == ImagePairs(files[..i]) + [(DeriveName(files[i]), files[i])]
  {
    assert files[..i + 1][..i] == files[..i];
  }

  /** One more pair extends the insertions by one dictionary update. */
  lemma InsertAllSnoc(m: map<string, string>, pairs: seq<(string, string)>, p: (string, string))
    ensures InsertAll(m, pairs + [p]) == InsertAll(m, pairs)[p.0 := p.1]
  {
    assert (pairs + [p])[..|pairs|] == pairs;
  }

  /** The pairs of a raster listing are its files, each with its derived key, in listing order. */
  lemma {:induction false} ImagePairsAt(files: seq<string>)
    ensures |ImagePairs(files)| == |files|
    ensures forall i :: 0 <= i < |files| ==> ImagePairs(files)[i] == (DeriveName(files[i]), files[i])
    decreases |files|
  {
    if files != [] {
      var init := files[..|files| - 1];
      ImagePairsAt(init);
      assert forall i :: 0 <= i < |init| ==> init[i] == files[i];
    }
  }

  /**
   * After load_image_list, the key of a listed raster maps to that raster
   * when no later raster of the listing derives the same key.
   */
  lemma ImageListLastWins(m: map<string, string>, files: seq<string>, i: nat)
    requires i < |files|
    requires forall j :: i < j < |files| ==> DeriveName(files[j]) != DeriveName(files[i])
    ensures DeriveName(files[i]) in InsertAll(m, ImagePairs(files))
    ensures InsertAll(m, ImagePairs(files))[DeriveName(files[i])] == files[i]
  {
    ImagePairsAt(files);
    InsertAllLastWins(m, ImagePairs(files), i);
  }

  /**
   * After load_image_list, the keys are the earlier keys and the keys derived
   * from the listed rasters; a key no raster derives keeps its earlier path.
   */
  lemma ImageListKeys(m: map<string, string>, files: seq<string>, k: string)
    ensures k in InsertAll(m, ImagePairs(files))
        <==> k in m || exists i :: 0 <= i < |files| && DeriveName(files[i]) == k
    ensures (forall i :: 0 <= i < |files| ==> DeriveName(files[i]) != k) && k in m
        ==> InsertAll(m, ImagePairs(files))[k] == m[k]
  {
    var pairs := ImagePairs(files);
    ImagePairsAt(files);
    InsertAllKeys(m, pairs, k);
    if exists i :: 0 <= i < |pairs| && pairs[i].0 == k {
      var i :| 0 <= i < |pairs| && pairs[i].0 == k;
      assert DeriveName(files[i]) == k;
    }
    if exists i :: 0 <= i < |files| && DeriveName(files[i]) == k {
      var i :| 0 <= i < |files| && DeriveName(files[i]) == k;
      assert pairs[i].0 == k;
    }
  }

  /**
   * After load_model_list, the basename of a listed directory maps to that
   * directory when no later directory of the listing has the same basename.
   */
  lemma {:induction false} ModelListLastWins(m: map<string, string>, entries: seq<Entry>, i: nat)
    requires i < |entries| && entries[i].isDir
    requires forall j :: i < j < |entries| && entries[j].isDir ==>
      Basename(entries[j].path) != Basename(entries[i].path)
    ensures Basename(entries[i].path) in InsertAll(m, ModelPairs(entries))
    ensures InsertAll(m, ModelPairs(entries))[Basename(entries[i].path)] == entries[i].path
    decreases |entries|
  {
    var init := entries[..|entries| - 1];
    var e := entries[|entries| - 1];
    var key := Basename(entries[i].path);
    if i == |entries| - 1 {
      assert ModelPairs(entries) == ModelPairs(init) + [(key, e.path)];
      InsertAllSnoc(m, ModelPairs(init), (key, e.path));
    } else {
      assert init[i] == entries[i];
      assert forall j :: i < j < |init| ==> init[j] == entries[j];
      ModelListLastWins(m, init, i);
      if e.isDir {
        assert Basename(e.path) != key;
        assert ModelPairs(entries) == ModelPairs(init) + [(Basename(e.path), e.path)];
        InsertAllSnoc(m, ModelPairs(init), (Basename(e.path), e.path));
      } else {
        assert ModelPairs(entries) == ModelPairs(init);
      }
    }
  }

  /** Some directory of the listing has basename `k`. */
  predicate ListsModel(entries: seq<Entry>, k: string)
  {
    exists i :: 0 <= i < |entries| && entries[i].isDir && Basename(entries[i].path) == k
  }

  lemma ListsModelSnoc(entries: seq<Entry>, k: string)
    requires entries != []
    ensures var e := entries[|entries| - 1];
      ListsModel(entries, k) <==> ListsModel(entries[..|entries| - 1], k) || (e.isDir && Basename(e.path) == k)
  {
    var init := entries[..|entries| - 1];
    if ListsModel(entries, k) {
      var i :| 0 <= i < |entries| && entries[i].isDir && Basename(entries[i].path) == k;
      if i < |init| {
        assert init[i] == entries[i];
      }
    }
    if ListsModel(init, k) {
      var i :| 0 <= i < |init| && init[i].isDir && Basename(init[i].path) == k;
      assert entries[i] == init[i];
    }
  }

  /**
   * After load_model_list, the keys are the earlier keys and the basenames of
   * the listed directories; a key no directory has keeps its earlier path.
   */
  lemma {:induction false} ModelListKeys(m: map<string, string>, entries: seq<Entry>, k: string)
    ensures k in InsertAll(m, ModelPairs(entries)) <==> k in m || ListsModel(entries, k)
    ensures !ListsModel(entries, k) && k in m ==> InsertAll(m, ModelPairs(entries))[k] == m[k]
    decreases |entries|
  {
    if entries != [] {
      var init := entries[..|entries| - 1];
      var e := entries[|entries| - 1];
      ModelListKeys(m, init, k);
      ListsModelSnoc(entries, k);
      if e.isDir {
        assert ModelPairs(entries) == ModelPairs(init) + [(Basename(e.path), e.path)];
        InsertAllSnoc(m, ModelPairs(init), (Basename(e.path), e.path));
      } else {
        assert ModelPairs(entries) == ModelPairs(init);
      }
    }
  }

  /** The global dictionaries image_list and model_list. */
  class Catalog {
    var images: map<string, string>
    var models: map<string, string>

    constructor ()
      ensures images == map[] && models == map[]
    {
      images := map[];
      models := map[];
    }

    /** load_image_list over the glob result `files` (app.py:42-53). */
    method LoadImageList(files: seq<string>)
      modifies this
      ensures images == InsertAll(old(images), ImagePairs(files))
      ensures models == old(models)
    {
      ghost var start := images;
      var i := 0;
      while i < |files|
        invariant 0 <= i <= |files|
        invariant images == InsertAll(start, ImagePairs(files[..i]))
        invariant models == old(models)
      {
        var f := files[i];
        var name := DropLast4(Basename(f));
        if EndsWithCog(name) {
          name := DropLast4(name);
        }
        ImagePairsSnoc(files, i);
        InsertAllSnoc(start, ImagePairs(files[..i]), (DeriveName(f), f));
        images := images[name := f];
        i := i + 1;
      }
      assert files[..i] == files;
    }

    /** load_model_list over the glob result `entries` (app.py:55-63). */
    method LoadModelList(entries: seq<Entry>)
      modifies this
      ensures models == InsertAll(old(models), ModelPairs(entries))
      ensures images == old(images)
    {
      ghost var start := models;
      var i := 0;
      while i < |entries|
        invariant 0 <= i <= |entries|
        invariant models == InsertAll(start, ModelPairs(entries[..i]))
        invariant images == old(images)
      {
        var m := entries[i];
        ghost var done := ModelPairs(entries[..i]);
        assert entries[..i + 1][..i] == entries[..i];
        if m.isDir {
          assert ModelPairs(entries[..i + 1]) == done + [(Basename(m.path), m.path)];
          InsertAllSnoc(start, done, (Basename(m.path), m.path));
          models := models[Basename(m.path) := m.path];
        } else {
          assert ModelPairs(entries[..i + 1]) == done;
        }
        i := i + 1;
      }
      assert entries[..i] == entries;
    }
  }
}
