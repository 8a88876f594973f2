/** The directory listings the generator reads, as values, and the two
    ways it looks traits up in them: by index (`get_trait_value`) and by
    name (the search loops of `parse_exclusions`). */
module Listing {
  import opened Python
  import opened Text
  import opened Sorting

  /** One entry of a layer directory: a regular file or something else
      (a sub-directory, say). */
  datatype Entry = Entry(name: string, isFile: bool)

  /** One entry of the working directory, with the listing of its contents
      when it is a directory. */
  datatype TopEntry = TopEntry(name: string, isDir: bool, contents: seq<Entry>)

  /** The working directory in the order `os.listdir()` returns it. */
  datatype WorkDir = WorkDir(entries: seq<TopEntry>)

  /** The contents of the working-directory entry called `dir` (the first
      one, were names to repeat); empty when there is none. */
  function Contents(entries: seq<TopEntry>, dir: string): seq<Entry>
  {
    if entries == [] then []
    else if entries[0].name == dir then entries[0].contents
    else Contents(entries[1..], dir)
  }

  function Names(es: seq<Entry>): seq<string>
  {
    if es == [] then [] else [es[0].name] + Names(es[1..])
  }

  function FileEntries(es: seq<Entry>): seq<Entry>
  {
    if es == [] then []
    else if es[0].isFile then [es[0]] + FileEntries(es[1..])
    else FileEntries(es[1..])
  }

  /** `os.listdir(dir)`: every entry, files or not. */
  function ListDir(wd: WorkDir, dir: string): seq<string>
  {
    Names(Contents(wd.entries, dir))
  }

  /** `[f for f in os.listdir(dir) if os.path.isfile(...)]`. */
  function ListFiles(wd: WorkDir, dir: string): seq<string>
  {
    Names(FileEntries(Contents(wd.entries, dir)))
  }

  /** A directory holding regular files only lists the same names both ways. */
  lemma {:induction false} OnlyFilesListing(es: seq<Entry>)
    requires forall i :: 0 <= i < |es| ==> es[i].isFile
    ensures FileEntries(es) == es
  {
    if es != [] { OnlyFilesListing(es[1..]); }
  }

  /** `get_trait_value(layer_dir, index)`: the stem of the index-th file
      (1-based) of the directory's sorted file list, None past the end. An
      index of 0 or below reads from the end of the list, as Python's
      negative indices do, and raises IndexError once it runs off the
      front. */
  function GetTraitValue(wd: WorkDir, dir: string, index: int): Result<Option<string>>
  {
    var files := Sort(ListFiles(wd, dir));
    if index <= |files| then
      match PyIndex(files, index - 1)
      case Some(f) => Ok(Some(StemOf(f)))
      case None => Raised(IndexError)
    else Ok(None)
  }

  /** For a positive index a value is found exactly for the indices 1 to
      the number of files, and it is the stem of one of the directory's
      files. */
  lemma GetTraitValueSpec(wd: WorkDir, dir: string, index: int)
    requires index >= 1
    ensures GetTraitValue(wd, dir, index).Ok?
    ensures GetTraitValue(wd, dir, index).value.Some? <==> index <= |ListFiles(wd, dir)|
    ensures GetTraitValue(wd, dir, index).value.Some? ==>
              exists f :: f in ListFiles(wd, dir) && StemOf(f) == GetTraitValue(wd, dir, index).value.value
  {
    var files := Sort(ListFiles(wd, dir));
    SortSpec(ListFiles(wd, dir));
    if index <= |files| {
      var f := files[index - 1];
      assert f in multiset(ListFiles(wd, dir));
    }
  }

  /** Which file the value comes from: for `index` from 1 to the number of
      files it is the stem of a file f with fewer than `index` file names
      sorting below f and at least `index` sorting up to f; when no two
      files share a name, exactly `index - 1` sort below f. */
  lemma GetTraitValueRank(wd: WorkDir, dir: string, index: int)
    requires 1 <= index <= |ListFiles(wd, dir)|
    ensures exists f :: && f in ListFiles(wd, dir)
                        && GetTraitValue(wd, dir, index) == Ok(Some(StemOf(f)))
                        && Count(ListFiles(wd, dir), Below(f)) < index <= Count(ListFiles(wd, dir), UpTo(f))
                        && (Distinct(ListFiles(wd, dir)) ==> Count(ListFiles(wd, dir), Below(f)) == index - 1)
  {
    var names := ListFiles(wd, dir);
    var files := Sort(names);
    SortRank(names, index - 1);
    var f := files[index - 1];
    assert f in names by {
      SortPermutation(names);
      assert f in multiset(files);
    }
    assert GetTraitValue(wd, dir, index) == Ok(Some(StemOf(f))) by {
      assert PyIndex(files, index - 1) == Some(f);
    }
    assert Count(names, Below(f)) < index <= Count(names, UpTo(f));
  }

  /** Index 0 reads the last file, and an index below `1 - n` for a
      directory of n files raises IndexError. */
  lemma GetTraitValueBelowOne(wd: WorkDir, dir: string, index: int)
    requires index < 1
    ensures GetTraitValue(wd, dir, index).Raised? <==> index < 1 - |ListFiles(wd, dir)|
    ensures var files := Sort(ListFiles(wd, dir));
            index == 0 && files != [] ==> GetTraitValue(wd, dir, index) == Ok(Some(StemOf(files[|files| - 1])))
  {
    SortSpec(ListFiles(wd, dir));
  }

  /** The first 1-based position in `listing` whose stem is `name`. */
  function FirstMatch(listing: seq<string>, name: string): (r: Option<nat>)
    ensures r.Some? ==> 1 <= r.value <= |listing|
  {
    if listing == [] then None
    else if StemOf(listing[0]) == name then Some(1)
    else match FirstMatch(listing[1..], name)
      case None => None
      case Some(k) => Some(k + 1)
  }

  /** The match found is the first entry whose stem is the name; none is
      found exactly when no entry has that stem. */
  lemma FirstMatchSpec(listing: seq<string>, name: string)
    ensures FirstMatch(listing, name).Some? ==>
              StemOf(listing[FirstMatch(listing, name).value - 1]) == name
              && forall j :: 0 <= j < FirstMatch(listing, name).value - 1 ==> StemOf(listing[j]) != name
    ensures FirstMatch(listing, name).None? <==> forall j :: 0 <= j < |listing| ==> StemOf(listing[j]) != name
  {
    if FirstMatch(listing, name).Some? {
      FirstMatchFound(listing, name);
    }
    FirstMatchNone(listing, name);
  }

  lemma {:induction false} FirstMatchFound(listing: seq<string>, name: string)
    requires FirstMatch(listing, name).Some?
    ensures StemOf(listing[FirstMatch(listing, name).value - 1]) == name
    ensures forall j :: 0 <= j < FirstMatch(listing, name).value - 1 ==> StemOf(listing[j]) != name
  {
    if StemOf(listing[0]) != name {
      var tail := listing[1..];
      FirstMatchFound(tail, name);
      var k := FirstMatch(tail, name).value;
      assert FirstMatch(listing, name) == Some(k + 1);
      assert listing[k] == tail[k - 1];
      assert forall j :: 0 < j < k ==> listing[j] == tail[j - 1];
    }
  }

  lemma {:induction false} FirstMatchNone(listing: seq<string>, name: string)
    ensures FirstMatch(listing, name).None? <==> forall j :: 0 <= j < |listing| ==> StemOf(listing[j]) != name
  {
    if listing != [] && StemOf(listing[0]) != name {
      var tail := listing[1..];
      FirstMatchNone(tail, name);
      assert forall j :: 0 < j < |listing| ==> listing[j] == tail[j - 1];
      assert FirstMatch(listing, name).None? <==> FirstMatch(tail, name).None?;
    }
  }

  /** The search loop of `parse_exclusions` (lines 77-80 and 98-101):
      enumerate the sorted listing and stop at the first name whose stem
      matches. */
  method FindTraitIndex(listing: seq<string>, name: string) returns (r: Option<nat>)
    ensures r == FirstMatch(listing, name)
  {
    r := None;
    var i := 0;
    while i < |listing|
      invariant 0 <= i <= |listing|
      invariant forall j :: 0 <= j < i ==> StemOf(listing[j]) != name
    {
      if StemOf(listing[i]) == name {
        r := Some(i + 1);
        FirstMatchIs(listing, name, i);
        return;
      }
      i := i + 1;
    }
    FirstMatchSpec(listing, name);
  }

  lemma FirstMatchIs(listing: seq<string>, name: string, i: nat)
    requires i < |listing| && StemOf(listing[i]) == name
    requires forall j :: 0 <= j < i ==> StemOf(listing[j]) != name
    ensures FirstMatch(listing, name) == Some(i + 1)
  {
    FirstMatchNone(listing, name);
    FirstMatchFound(listing, name);
  }

  /** In a directory holding files only, the index an exclusion resolves a
      trait name to is the index whose value `get_trait_value` reports back
      as that name. */
  lemma ExclusionIndexNamesTrait(wd: WorkDir, dir: string, name: string)
    requires forall e :: e in Contents(wd.entries, dir) ==> e.isFile
    requires FirstMatch(Sort(ListDir(wd, dir)), name).Some?
    ensures GetTraitValue(wd, dir, FirstMatch(Sort(ListDir(wd, dir)), name).value) == Ok(Some(name))
  {
    var es := Contents(wd.entries, dir);
    OnlyFilesListing(es);
    assert ListFiles(wd, dir) == ListDir(wd, dir);
    var listing := Sort(ListDir(wd, dir));
    FirstMatchFound(listing, name);
    var k := FirstMatch(listing, name).value;
    assert PyIndex(listing, k - 1) == Some(listing[k - 1]);
  }
}
