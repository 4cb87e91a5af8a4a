/** The file filter of the directory walk: which entries of the recursive
    listing are taken as candidate images. */
module Scan {
  import opened Text
  import opened Paths

  /** The image extensions (lower case, with the dot). */
  const ImageExtensions: set<string> :=
    {".jpg", ".jpeg", ".png", ".gif", ".bmp", ".tiff", ".tif", ".webp", ".heic", ".heif"}

  /** One entry of the recursive listing: its path and whether it is a regular file. */
  datatype Entry = Entry(path: Path, isFile: bool)

  /** The walk yields an entry iff it is a regular file and either every file
      is wanted or its lower-cased suffix is an image extension. */
  predicate Selected(e: Entry, includeAll: bool)
  {
    e.isFile && (includeAll || Lower(Suffix(Name(e.path))) in ImageExtensions)
  }

  /** The yielded paths, in listing order. */
  function SelectedPaths(entries: seq<Entry>, includeAll: bool): seq<Path>
  {
    if entries == [] then []
    else
      var last := entries[|entries| - 1];
      SelectedPaths(entries[..|entries| - 1], includeAll)
        + (if Selected(last, includeAll) then [last.path] else [])
  }

  /** A path is yielded iff some listed entry for it is selected. */
  lemma {:induction false} SelectedPathsMembers(entries: seq<Entry>, includeAll: bool, p: Path)
    ensures p in SelectedPaths(entries, includeAll)
        <==> exists k :: 0 <= k < |entries| && entries[k].path == p && Selected(entries[k], includeAll)
  {
    if entries != [] {
      var init := entries[..|entries| - 1];
      SelectedPathsMembers(init, includeAll, p);
      if p in SelectedPaths(init, includeAll) {
        var k :| 0 <= k < |init| && init[k].path == p && Selected(init[k], includeAll);
        assert entries[k] == init[k];
      }
      if exists k :: 0 <= k < |entries| && entries[k].path == p && Selected(entries[k], includeAll) {
        var k :| 0 <= k < |entries| && entries[k].path == p && Selected(entries[k], includeAll);
        if k < |init| {
          assert init[k] == entries[k];
        }
      }
    }
  }

  /** The walk with `include_all` lists every regular file. */
  lemma IncludeAllKeepsEveryFile(entries: seq<Entry>, k: nat)
    requires k < |entries| && entries[k].isFile
    ensures entries[k].path in SelectedPaths(entries, true)
  {
    SelectedPathsMembers(entries, true, entries[k].path);
  }

  /** `iter_files`: walks the listing and collects the selected paths. */
  method IterFiles(entries: seq<Entry>, includeAll: bool) returns (r: seq<Path>)
    ensures r == SelectedPaths(entries, includeAll)
  {
    r := [];
    var i := 0;
    while i < |entries|
      invariant i <= |entries|
      invariant r == SelectedPaths(entries[..i], includeAll)
    {
      assert entries[..i + 1][..i] == entries[..i];
      if Selected(entries[i], includeAll) {
        r := r + [entries[i].path];
      }
      i := i + 1;
    }
    assert entries[..i] == entries;
  }
}
