/** Layer discovery: which working-directory entries are layers, the order
    they are numbered in, their labels and how many traits each holds. */
module Layers {
  import opened Python
  import opened Text
  import opened Sorting
  import opened Listing

  /** A layer directory's name starts with a decimal number, ended by the
      first space or by the end of the name. */
  predicate IsLayerDirName(name: string)
  {
    IsDigits(SplitOnce(name, ' ')[0])
  }

  /** The names of the working-directory entries that are directories with
      a layer name, in listing order. */
  function LayerCandidates(entries: seq<TopEntry>): seq<string>
  {
    if entries == [] then []
    else
      var rest := LayerCandidates(entries[1..]);
      if entries[0].isDir && IsLayerDirName(entries[0].name) then [entries[0].name] + rest else rest
  }

  /** The layer directories, sorted by name: layer k is the k-th of them. */
  function LayerDirs(wd: WorkDir): seq<string>
  {
    Sort(LayerCandidates(wd.entries))
  }

  /** A name is a candidate exactly when some entry by that name is a
      directory with a layer name. */
  lemma {:induction false} LayerCandidatesSpec(entries: seq<TopEntry>, d: string)
    ensures d in LayerCandidates(entries) <==>
              exists j :: 0 <= j < |entries| && entries[j].name == d && entries[j].isDir && IsLayerDirName(d)
  {
    if entries != [] {
      LayerCandidatesSpec(entries[1..], d);
      assert forall j :: 0 < j < |entries| ==> entries[j] == entries[1..][j - 1];
    }
  }

  /** The layer directories are sorted, and they are exactly the
      working-directory entries that are directories with a layer name. */
  lemma LayerDirsSpec(wd: WorkDir, d: string)
    ensures Sorted(LayerDirs(wd))
    ensures d in LayerDirs(wd) <==>
              exists j :: 0 <= j < |wd.entries| && wd.entries[j].name == d && wd.entries[j].isDir && IsLayerDirName(d)
  {
    var c := LayerCandidates(wd.entries);
    LayerCandidatesSpec(wd.entries, d);
    SortSpec(c);
    assert d in LayerDirs(wd) <==> d in multiset(LayerDirs(wd));
    assert d in c <==> d in multiset(c);
  }

  /** The label of a layer directory: everything after the first space;
      None for a name without a space. */
  function Label(dir: string): (r: Option<string>)
    ensures r.None? <==> ' ' !in dir
  {
    var parts := SplitOnce(dir, ' ');
    if |parts| > 1 then Some(parts[1]) else None
  }

  /** The directories the discovery loop keeps: those with a label. */
  function LabelledDirs(dirs: seq<string>): seq<string>
  {
    if dirs == [] then []
    else LabelledDirs(dirs[..|dirs| - 1]) + if ' ' in dirs[|dirs| - 1] then [dirs[|dirs| - 1]] else []
  }

  /** The number of regular files of each directory, in order. */
  function FileCounts(wd: WorkDir, dirs: seq<string>): (r: seq<nat>)
    ensures |r| == |dirs| && forall i :: 0 <= i < |dirs| ==> r[i] == |ListFiles(wd, dirs[i])|
  {
    seq(|dirs|, i requires 0 <= i < |dirs| => |ListFiles(wd, dirs[i])|)
  }

  /** `trait_counts`: one count per labelled layer directory. */
  function TraitCounts(wd: WorkDir, dirs: seq<string>): seq<nat>
  {
    FileCounts(wd, LabelledDirs(dirs))
  }

  /** `layer_names`: each labelled directory mapped to its label. */
  function LayerNames(dirs: seq<string>): map<string, string>
  {
    map d | d in dirs && ' ' in d :: Label(d).value
  }

  /** Lines 131-143: the sorted layer directories, then one pass that
      records the label and file count of each directory with a label and
      skips the others. */
  method DiscoverLayers(wd: WorkDir) returns (dirs: seq<string>, counts: seq<nat>, names: map<string, string>)
    ensures dirs == LayerDirs(wd)
    ensures counts == TraitCounts(wd, dirs)
    ensures names == LayerNames(dirs)
  {
    dirs := LayerDirs(wd);
    counts := [];
    names := map[];
    var labelled: seq<string> := [];
    var i := 0;
    while i < |dirs|
      invariant 0 <= i <= |dirs|
      invariant labelled == LabelledDirs(dirs[..i])
      invariant counts == FileCounts(wd, labelled)
      invariant names == LayerNames(dirs[..i])
    {
      var dir := dirs[i];
      LoopStep(wd, dirs, i, labelled, counts, names);
      var parts := SplitOnce(dir, ' ');
      if |parts| > 1 {
        names := names[dir := parts[1]];
        counts := counts + [|ListFiles(wd, dir)|];
        labelled := labelled + [dir];
      }
      i := i + 1;
    }
    assert dirs[..i] == dirs;
  }

  /** What one more directory does to the labelled directories, their
      counts and their labels. */
  lemma LoopStep(wd: WorkDir, dirs: seq<string>, i: nat, labelled: seq<string>, counts: seq<nat>,
                 names: map<string, string>)
    requires i < |dirs| && labelled == LabelledDirs(dirs[..i])
    requires counts == FileCounts(wd, labelled) && names == LayerNames(dirs[..i])
    ensures var d := dirs[i];
            ' ' in d ==> && LabelledDirs(dirs[..i + 1]) == labelled + [d]
                         && FileCounts(wd, labelled + [d]) == counts + [|ListFiles(wd, d)|]
                         && LayerNames(dirs[..i + 1]) == names[d := SplitOnce(d, ' ')[1]]
    ensures var d := dirs[i];
            ' ' !in d ==> LabelledDirs(dirs[..i + 1]) == labelled && LayerNames(dirs[..i + 1]) == names
  {
    assert dirs[..i + 1][..i] == dirs[..i];
    assert dirs[..i] + [dirs[i]] == dirs[..i + 1];
    NamesStep(dirs[..i], dirs[i]);
  }

  lemma NamesStep(dirs: seq<string>, dir: string)
    ensures LayerNames(dirs + [dir])
            == if ' ' in dir then LayerNames(dirs)[dir := Label(dir).value] else LayerNames(dirs)
  {
  }

  /** Exactly the directories with a space get a label, and the label is
      what follows the first space. */
  lemma LayerNamesSpec(dirs: seq<string>, d: string)
    ensures d in LayerNames(dirs) <==> d in dirs && ' ' in d
    ensures d in LayerNames(dirs) ==> exists p :: ' ' !in p && d == p + " " + LayerNames(dirs)[d]
  {
    if d in LayerNames(dirs) {
      var parts := SplitOnce(d, ' ');
      assert d == parts[0] + " " + parts[1];
    }
  }

  /** When every layer directory has a label, counts and directories line
      up: layer k holds the files of the k-th directory. */
  lemma CountsAligned(wd: WorkDir, dirs: seq<string>)
    requires forall i :: 0 <= i < |dirs| ==> ' ' in dirs[i]
    ensures |TraitCounts(wd, dirs)| == |dirs|
    ensures forall i :: 0 <= i < |dirs| ==> TraitCounts(wd, dirs)[i] == |ListFiles(wd, dirs[i])|
    ensures forall d :: d in LayerNames(dirs) <==> d in dirs
  {
    LabelledAll(dirs);
  }

  lemma {:induction false} LabelledAll(dirs: seq<string>)
    requires forall i :: 0 <= i < |dirs| ==> ' ' in dirs[i]
    ensures LabelledDirs(dirs) == dirs
  {
    if dirs != [] {
      var init := dirs[..|dirs| - 1];
      LabelledAll(init);
      assert dirs == init + [dirs[|dirs| - 1]];
    }
  }

  /** A directory named by a number alone is still a layer, but gets no
      count: every later count moves one layer down, so the count the
      product and the filter use for that layer belongs to the next one. */
  lemma CountsShift(wd: WorkDir, dirs: seq<string>, j: nat)
    requires j + 1 < |dirs| && ' ' !in dirs[j] && ' ' in dirs[j + 1]
    requires forall i :: 0 <= i < j ==> ' ' in dirs[i]
    ensures |TraitCounts(wd, dirs)| < |dirs|
    ensures j < |TraitCounts(wd, dirs)| && TraitCounts(wd, dirs)[j] == |ListFiles(wd, dirs[j + 1])|
  {
    LabelledPrefix(dirs, j);
    LabelledSplit(dirs[..j + 2], dirs[j + 2..]);
    assert dirs == dirs[..j + 2] + dirs[j + 2..];
    LabelledShorter(dirs, j);
    assert LabelledDirs(dirs)[j] == dirs[j + 1];
  }

  /** Up to the first directory past an unlabelled one, the labelled
      directories are those before it and the one after it. */
  lemma LabelledPrefix(dirs: seq<string>, j: nat)
    requires j + 1 < |dirs| && ' ' !in dirs[j] && ' ' in dirs[j + 1]
    requires forall i :: 0 <= i < j ==> ' ' in dirs[i]
    ensures LabelledDirs(dirs[..j + 2]) == dirs[..j] + [dirs[j + 1]]
  {
    var init := dirs[..j];
    var upTo := init + [dirs[j]];
    assert LabelledDirs(upTo) == init by {
      LabelledAll(init);
      LabelledSplit(init, [dirs[j]]);
      LabelledOne(dirs[j]);
    }
    assert LabelledDirs(upTo + [dirs[j + 1]]) == init + [dirs[j + 1]] by {
      LabelledSplit(upTo, [dirs[j + 1]]);
      LabelledOne(dirs[j + 1]);
    }
    assert dirs[..j + 2] == upTo + [dirs[j + 1]];
  }

  lemma LabelledOne(d: string)
    ensures LabelledDirs([d]) == if ' ' in d then [d] else []
  {
    assert [d][..0] == [];
  }

  lemma {:induction false} LabelledSplit(a: seq<string>, b: seq<string>)
    ensures LabelledDirs(a + b) == LabelledDirs(a) + LabelledDirs(b)
    decreases |b|
  {
    if b == [] {
      assert a + b == a;
    } else {
      var init := b[..|b| - 1];
      LabelledSplit(a, init);
      assert a + b == (a + init) + [b[|b| - 1]];
      assert (a + b)[..|a + b| - 1] == a + init;
    }
  }

  lemma {:induction false} LabelledLength(dirs: seq<string>)
    ensures |LabelledDirs(dirs)| <= |dirs|
  {
    if dirs != [] { LabelledLength(dirs[..|dirs| - 1]); }
  }

  lemma LabelledShorter(dirs: seq<string>, j: nat)
    requires j < |dirs| && ' ' !in dirs[j]
    ensures |LabelledDirs(dirs)| < |dirs|
  {
    LabelledLength(dirs[..j]);
    LabelledLength(dirs[j + 1..]);
    LabelledSplit(dirs[..j], dirs[j..]);
    assert dirs == dirs[..j] + dirs[j..];
    LabelledSplit([dirs[j]], dirs[j + 1..]);
    assert dirs[j..] == [dirs[j]] + dirs[j + 1..];
    LabelledOne(dirs[j]);
  }
}
