/**
 * The list logic of `App.add_or_update` in gui.py: the form's fields become a
 * folder entry that replaces the first entry with the same path or is appended.
 * Reading the Tk widgets, refreshing the list box and saving settings are not modelled.
 */
module Folders {
  import opened Wrappers
  import opened PyStr

  /** One watched-folder entry. `path` is absent when a loaded entry has no string path,
      so that `f.get("path")` never equals a form path. */
  datatype Folder = Folder(path: Option<string>, unknown: string, quiet: bool)

  /** The error dialog "Path is required.". */
  datatype FormError = PathRequired

  /** `unknown_var.get().strip() or "Other"`. */
  function UnknownTarget(field: string): (r: string)
    ensures r != []
  {
    var u := Strip(field);
    if u == [] then "Other" else u
  }

  /** The unknown target is `Other` for a blank field, otherwise the field with its surrounding whitespace removed. */
  lemma UnknownTargetSpec(field: string)
    ensures (forall i :: 0 <= i < |field| ==> IsSpace(field[i])) ==> UnknownTarget(field) == "Other"
    ensures !(forall i :: 0 <= i < |field| ==> IsSpace(field[i])) ==>
              UnknownTarget(field) == Strip(field) && Trimmed(UnknownTarget(field))
  {
    StripEmptyIff(field);
    StripSpec(field);
  }

  /** Index `i` holds the first entry whose path is `p`. */
  predicate IsFirstWithPath(folders: seq<Folder>, p: string, i: int) {
    0 <= i < |folders| && folders[i].path == Some(p) && forall j :: 0 <= j < i ==> folders[j].path != Some(p)
  }

  /** No two entries share a path. */
  predicate DistinctPaths(folders: seq<Folder>) {
    forall i, j :: 0 <= i < j < |folders| && folders[i].path.Some? ==> folders[i].path != folders[j].path
  }

  /** `add_or_update`: the new folder list, or the error shown for a blank path. */
  method AddOrUpdate(folders: seq<Folder>, pathField: string, unknownField: string, quiet: bool)
    returns (r: Result<seq<Folder>, FormError>)
    ensures r.Err? <==> Strip(pathField) == []
    ensures r.Ok? ==>
      var p := Strip(pathField);
      var entry := Folder(Some(p), UnknownTarget(unknownField), quiet);
      && (forall i :: IsFirstWithPath(folders, p, i) ==> r.value == folders[i := entry])
      && ((forall i :: 0 <= i < |folders| ==> folders[i].path != Some(p)) ==> r.value == folders + [entry])
      && (DistinctPaths(folders) ==> DistinctPaths(r.value))
  {
    var path := Strip(pathField);
    if path == [] {
      return Err(PathRequired);
    }
    var entry := Folder(Some(path), UnknownTarget(unknownField), quiet);
    var i := 0;
    while i < |folders|
      invariant 0 <= i <= |folders|
      invariant forall j :: 0 <= j < i ==> folders[j].path != Some(path)
    {
      if folders[i].path == Some(path) {
        assert IsFirstWithPath(folders, path, i);
        return Ok(folders[i := entry]);
      }
      i := i + 1;
    }
    return Ok(folders + [entry]);
  }

  /** Whenever some entry has the path, there is a first one, so the update replaces in place;
      otherwise the list grows by one. */
  lemma FirstWithPathExists(folders: seq<Folder>, p: string)
    ensures (exists i :: 0 <= i < |folders| && folders[i].path == Some(p)) <==> exists i :: IsFirstWithPath(folders, p, i)
  {
    if exists i :: 0 <= i < |folders| && folders[i].path == Some(p) {
      var k :| 0 <= k < |folders| && folders[k].path == Some(p);
      var i := 0;
      while folders[i].path != Some(p)
        invariant 0 <= i <= k
        invariant forall j :: 0 <= j < i ==> folders[j].path != Some(p)
        decreases k - i
      {
        i := i + 1;
      }
      assert IsFirstWithPath(folders, p, i);
    }
  }
}
