/** The asset catalog: the media directory indexed by lowercased file name
    (the dict comprehension in generate_combined_video), and the probe of
    one key against the four supported extensions. */
module Catalog {
  import opened Text

  datatype Option<T> = None | Some(value: T)

  datatype Kind = Video | Image

  /** The probe order: the video container first, then the three raster
      formats. */
  const EXTENSIONS: seq<string> := [".mp4", ".png", ".jpg", ".jpeg"]

  /** The fallback clip, looked up by its own existence check. */
  const DEFAULT_VIDEO: string := "default_video.mp4"

  /** A probe hit: which extension matched, and the on-disk file name in
      its original case. */
  datatype Asset = Asset(index: nat, file: string)

  function KindAt(index: nat): Kind {
    if index == 0 then Video else Image
  }

  /** {file.lower(): file for file in files}: every file is indexed under
      its lowercased name, and a later file replaces an earlier one that
      lowercases the same way. */
  function BuildCatalog(files: seq<string>): (cat: map<string, string>)
    ensures forall i :: 0 <= i < |files| ==> Lower(files[i]) in cat
    ensures forall k :: k in cat ==> Lower(cat[k]) == k && cat[k] in files
  {
    if files == [] then map[]
    else
      var last := files[|files| - 1];
      var cat := BuildCatalog(files[..|files| - 1]);
      assert forall i :: 0 <= i < |files| - 1 ==> files[..|files| - 1][i] == files[i];
      cat[Lower(last) := last]
  }

  /** The value stored under a lowercased name is the last file in listing
      order that lowercases to it. */
  lemma {:induction false} CatalogLastWins(files: seq<string>, i: nat)
    requires i < |files|
    requires forall j :: i < j < |files| ==> Lower(files[j]) != Lower(files[i])
    ensures BuildCatalog(files)[Lower(files[i])] == files[i]
    decreases |files|
  {
    var n := |files| - 1;
    var front := files[..n];
    if i < n {
      assert front[i] == files[i];
      assert forall j :: i < j < |front| ==> front[j] == files[j];
      CatalogLastWins(front, i);
      CatalogUpdateElsewhere(files, Lower(files[i]));
    }
  }

  /** The last file only touches the entry for its own lowercased name. */
  lemma CatalogUpdateElsewhere(files: seq<string>, key: string)
    requires |files| > 0 && key != Lower(files[|files| - 1])
    requires key in BuildCatalog(files[..|files| - 1])
    ensures BuildCatalog(files)[key] == BuildCatalog(files[..|files| - 1])[key]
  {
  }

  /** The first of EXTENSIONS[from..] for which key + extension is in the
      catalog, with the file stored there. */
  function LookupFrom(cat: map<string, string>, key: string, from: nat): (r: Option<Asset>)
    requires from <= |EXTENSIONS|
    ensures r.Some? ==>
              && from <= r.value.index < |EXTENSIONS|
              && key + EXTENSIONS[r.value.index] in cat
              && r.value.file == cat[key + EXTENSIONS[r.value.index]]
              && forall j :: from <= j < r.value.index ==> key + EXTENSIONS[j] !in cat
    ensures r.None? ==> forall j :: from <= j < |EXTENSIONS| ==> key + EXTENSIONS[j] !in cat
    decreases |EXTENSIONS| - from
  {
    if from == |EXTENSIONS| then None
    else if key + EXTENSIONS[from] in cat then Some(Asset(from, cat[key + EXTENSIONS[from]]))
    else LookupFrom(cat, key, from + 1)
  }

  /** The probe of sih.py: extensions in their fixed order, first hit wins. */
  function Lookup(cat: map<string, string>, key: string): Option<Asset> {
    LookupFrom(cat, key, 0)
  }

  /** A key resolves exactly when some extension completes it to a
      catalog name. */
  lemma LookupFindsAny(cat: map<string, string>, key: string)
    ensures Lookup(cat, key).Some? <==> exists j :: 0 <= j < |EXTENSIONS| && key + EXTENSIONS[j] in cat
  {
  }

  /** With both key.mp4 and an image for the same key present, the video is
      chosen. */
  lemma VideoWins(cat: map<string, string>, key: string)
    requires key + ".mp4" in cat
    ensures Lookup(cat, key) == Some(Asset(0, cat[key + ".mp4"]))
    ensures KindAt(Lookup(cat, key).value.index) == Video
  {
  }

  /** Which extension matches depends only on the catalog's names, not on
      the files stored under them. */
  lemma LookupDependsOnNames(c1: map<string, string>, c2: map<string, string>, key: string)
    requires c1.Keys == c2.Keys
    ensures Lookup(c1, key).Some? == Lookup(c2, key).Some?
    ensures Lookup(c1, key).Some? ==> Lookup(c1, key).value.index == Lookup(c2, key).value.index
  {
  }

  function LowerAll(files: seq<string>): (r: seq<string>)
    ensures |r| == |files| && forall i :: 0 <= i < |files| ==> r[i] == Lower(files[i])
  {
    seq(|files|, i requires 0 <= i < |files| => Lower(files[i]))
  }

  /** File names are matched without regard to case: renaming every file to
      lower case leaves the catalog's names unchanged. */
  lemma CatalogIgnoresCase(files: seq<string>)
    ensures BuildCatalog(files).Keys == BuildCatalog(LowerAll(files)).Keys
  {
    var c1, c2 := BuildCatalog(files), BuildCatalog(LowerAll(files));
    forall k | k in c2
      ensures k in c1
    {
      var i :| 0 <= i < |files| && LowerAll(files)[i] == c2[k];
      LowerIdempotent(files[i]);
    }
    forall k | k in c1
      ensures k in c2
    {
      var i :| 0 <= i < |files| && files[i] == c1[k];
      LowerIdempotent(files[i]);
      assert Lower(LowerAll(files)[i]) in c2;
    }
  }
}
