/** Resolution of an image or overlay name to a file path (check_path, app.py:65-94). */
module Paths {
  import opened Common

  /** Raw image locations, tried in this order (app.py:74, 77). */
  function RawCandidates(name: string): seq<string>
  {
    ["data/raw/" + name + ".tif", "data/raw/" + name + ".cog.tif"]
  }

  /**
   * Overlay locations under the model directory `dir`, tried in this order:
   * validation result, per-image extracted raster, per-model extracted raster
   * (app.py:83, 88, 91).
   */
  function OverlayCandidates(dir: string, name: string, feature: string): seq<string>
  {
    [ dir + "/" + name + "/val_" + name + "_" + feature + ".tif",
      dir + "/" + name + "/" + name + "_" + feature + ".tif",
      dir + "/" + name + "_" + feature + ".tif" ]
  }

  /** The model directory is looked up only when both model and feature are truthy (app.py:73, 83). */
  predicate LookupDefined(model: Option<string>, feature: Option<string>, models: map<string, string>)
  {
    Truthy(model) && Truthy(feature) ==> model.value in models
  }

  /** The ordered list of paths check_path tries. */
  function Candidates(name: string, model: Option<string>, feature: Option<string>,
                      models: map<string, string>): seq<string>
    requires LookupDefined(model, feature, models)
  {
    if !Truthy(model) || !Truthy(feature) then RawCandidates(name)
    else OverlayCandidates(models[model.value], name, feature.value)
  }

  /** Reference search: the first path of `paths` that exists. */
  function FirstExisting(paths: seq<string>, present: set<string>): (r: Option<string>)
    ensures r.Some? ==> exists i :: 0 <= i < |paths| && paths[i] == r.value && paths[i] in present &&
                                    forall j :: 0 <= j < i ==> paths[j] !in present
    ensures r.None? <==> forall i :: 0 <= i < |paths| ==> paths[i] !in present
  {
    if paths == [] then None
    else if paths[0] in present then Some(paths[0])
    else
      var r := FirstExisting(paths[1..], present);
      if r.Some? then
        var i :| 0 <= i < |paths[1..]| && paths[1..][i] == r.value && paths[1..][i] in present &&
                 forall j :: 0 <= j < i ==> paths[1..][j] !in present;
        assert paths[i + 1] == r.value;
        assert forall j :: 0 <= j < i + 1 ==> paths[j] !in present by {
          forall j | 0 <= j < i + 1 ensures paths[j] !in present {
            if j > 0 {
              assert paths[j] == paths[1..][j - 1];
            }
          }
        }
        r
      else
        assert forall i :: 1 <= i < |paths| ==> paths[i] == paths[1..][i - 1];
        r
  }

  /**
   * check_path: the raw image when model or feature is falsy, the overlay of
   * (model, feature) otherwise; the first candidate that exists, or None.
   * `present` is the set of paths for which os.path.exists holds.
   */
  function CheckPath(name: string, model: Option<string>, feature: Option<string>,
                     models: map<string, string>, present: set<string>): (r: Option<string>)
    requires LookupDefined(model, feature, models)
    ensures r.Some? ==> r.value in present
  {
    if !Truthy(model) || !Truthy(feature) then
      var fpath := "data/raw/" + name + ".tif";
      if fpath in present then Some(fpath)
      else
        var fpath := "data/raw/" + name + ".cog.tif";
        if fpath in present then Some(fpath)
        else None
    else
      var dir := models[model.value];
      var fpath := dir + "/" + name + "/val_" + name + "_" + feature.value + ".tif";
      if fpath in present then Some(fpath)
      else
        var fpath := dir + "/" + name + "/" + name + "_" + feature.value + ".tif";
        if fpath in present then Some(fpath)
        else
          var fpath := dir + "/" + name + "_" + feature.value + ".tif";
          if fpath in present then Some(fpath)
          else None
  }

  /** check_path's early returns implement the ordered search over its candidates. */
  lemma CheckPathIsFirstExisting(name: string, model: Option<string>, feature: Option<string>,
                                 models: map<string, string>, present: set<string>)
    requires LookupDefined(model, feature, models)
    ensures CheckPath(name, model, feature, models, present)
         == FirstExisting(Candidates(name, model, feature, models), present)
  {
    var ps := Candidates(name, model, feature, models);
    assert ps[1..][1..] == ps[2..];
    if |ps| == 3 {
      assert ps[2..][1..] == [];
      assert FirstExisting(ps[2..], present) == if ps[2] in present then Some(ps[2]) else None;
    } else {
      assert ps[2..] == [];
    }
  }
}
