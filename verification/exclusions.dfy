/** `parse_exclusions`: the comma-separated exclusion answer read into a set
    of (layer number, trait index) pairs. */
module Exclusions {
  import opened Python
  import opened Text
  import opened Numerals
  import opened Sorting
  import opened Listing
  import opened Combinations

  /** The 1-based position of a trait name in the sorted listing of a layer
      directory, every entry counted, files or not. */
  function TraitPosition(wd: WorkDir, dir: string, traitName: string): Option<nat>
  {
    FirstMatch(Sort(ListDir(wd, dir)), traitName)
  }

  /** The pairs of the three-part form, as lines 105-107 add them: every
      trait index of the excluded layer, each added together with the
      specific trait. */
  function LayerPairs(layer: nat, entries: nat, specificLayer: nat, specificTrait: nat): set<Pair>
  {
    if entries == 0 then {}
    else LayerPairs(layer, entries - 1, specificLayer, specificTrait) + {(layer, entries), (specificLayer, specificTrait)}
  }

  /** The pairs of the three-part form are exactly every trait index of the
      excluded layer, and the specific trait unless that layer is empty. */
  lemma {:induction false} LayerPairsMembers(layer: nat, entries: nat, specificLayer: nat, specificTrait: nat, p: Pair)
    ensures p in LayerPairs(layer, entries, specificLayer, specificTrait)
            <==> (p.0 == layer && 1 <= p.1 <= entries) || (entries > 0 && p == (specificLayer, specificTrait))
  {
    if entries > 0 {
      LayerPairsMembers(layer, entries - 1, specificLayer, specificTrait, p);
    }
  }

  /** Excluding one trait of a layer: nothing when the layer is out of range
      or the trait is not found; KeyError when the layer directory has no
      label. */
  function ExcludeTrait(layer: nat, traitName: string, dirs: seq<string>, names: map<string, string>,
                        wd: WorkDir): Result<set<Pair>>
  {
    if layer < 1 || layer > |dirs| then Ok({})
    else if dirs[layer - 1] !in names then Raised(KeyError(dirs[layer - 1]))
    else
      var position := TraitPosition(wd, dirs[layer - 1], traitName);
      if position.None? then Ok({}) else Ok({(layer, position.value)})
  }

  /** Excluding a whole layer against a specific trait: nothing when either
      layer is out of range or the trait is not found in the specific layer;
      KeyError when the specific layer's directory has no label. */
  function ExcludeLayer(layer: nat, specific: nat, traitName: string, dirs: seq<string>,
                        names: map<string, string>, wd: WorkDir): Result<set<Pair>>
  {
    if layer < 1 || layer > |dirs| || specific < 1 || specific > |dirs| then Ok({})
    else if dirs[specific - 1] !in names then Raised(KeyError(dirs[specific - 1]))
    else
      var position := TraitPosition(wd, dirs[specific - 1], traitName);
      if position.None? then Ok({})
      else Ok(LayerPairs(layer, |ListDir(wd, dirs[layer - 1])|, specific, position.value))
  }

  /** What one comma-separated entry adds, after stripping it and cutting it
      at every space: `<layer> <trait>` excludes a trait, `<layer> <specific
      layer> <trait>` a whole layer; a layer number that is not a number, or
      any other number of parts, adds nothing. */
  function EntryPairs(entry: string, dirs: seq<string>, names: map<string, string>, wd: WorkDir)
    : Result<set<Pair>>
  {
    var parts := Split(Strip(entry), ' ');
    if |parts| == 2 then
      if !IsDigits(parts[0]) then Ok({})
      else ExcludeTrait(ParseDigits(parts[0]), parts[1], dirs, names, wd)
    else if |parts| == 3 then
      if !(IsDigits(parts[0]) && IsDigits(parts[1])) then Ok({})
      else ExcludeLayer(ParseDigits(parts[0]), ParseDigits(parts[1]), parts[2], dirs, names, wd)
    else Ok({})
  }

  /** The outcome of every entry, in order. */
  function Outcomes(entries: seq<string>, outcome: string -> Result<set<Pair>>): (r: seq<Result<set<Pair>>>)
    ensures |r| == |entries|
  {
    if entries == [] then [] else [outcome(entries[0])] + Outcomes(entries[1..], outcome)
  }

  /** The outcome of every entry of an answer, against one working directory. */
  function EntryResults(entries: seq<string>, dirs: seq<string>, names: map<string, string>, wd: WorkDir)
    : (r: seq<Result<set<Pair>>>)
    ensures |r| == |entries|
  {
    Outcomes(entries, EntryOutcome(dirs, names, wd))
  }

  function EntryOutcome(dirs: seq<string>, names: map<string, string>, wd: WorkDir): string -> Result<set<Pair>>
  {
    entry => EntryPairs(entry, dirs, names, wd)
  }

  /** The outcomes gathered in order into `acc`; the first that raised ends
      the reading. */
  function Accumulate(results: seq<Result<set<Pair>>>, acc: set<Pair>): Result<set<Pair>>
  {
    if results == [] then Ok(acc)
    else if results[0].Raised? then Raised(results[0].exc)
    else Accumulate(results[1..], acc + results[0].value)
  }

  /** The exclusion set of an answer. */
  function ExclusionSet(input: string, dirs: seq<string>, names: map<string, string>, wd: WorkDir)
    : Result<set<Pair>>
  {
    Accumulate(EntryResults(Split(input, ','), dirs, names, wd), {})
  }

  /** Lines 57-110: one pass over the entries, stopping at the first that
      raises. */
  method ParseExclusions(input: string, dirs: seq<string>, names: map<string, string>, wd: WorkDir)
    returns (r: Result<set<Pair>>)
    ensures r == ExclusionSet(input, dirs, names, wd)
  {
    var entries := Split(input, ',');
    ghost var results := EntryResults(entries, dirs, names, wd);
    var exclusions: set<Pair> := {};
    var i := 0;
    while i < |entries|
      invariant 0 <= i <= |entries|
      invariant results[i..] == EntryResults(entries[i..], dirs, names, wd)
      invariant Accumulate(results[i..], exclusions) == ExclusionSet(input, dirs, names, wd)
    {
      assert entries[i..][1..] == entries[i + 1..];
      assert results[i..][1..] == results[i + 1..];
      var next := AddEntry(exclusions, entries[i], dirs, names, wd);
      if next.Raised? {
        return next;
      }
      exclusions := next.value;
      i := i + 1;
    }
    r := Ok(exclusions);
  }

  /** Lines 61-109, the body of the loop: one entry added to the set. */
  method AddEntry(exclusions: set<Pair>, entry: string, dirs: seq<string>, names: map<string, string>,
                  wd: WorkDir) returns (r: Result<set<Pair>>)
    ensures EntryPairs(entry, dirs, names, wd).Raised? ==> r == EntryPairs(entry, dirs, names, wd)
    ensures EntryPairs(entry, dirs, names, wd).Ok? ==>
              r == Ok(exclusions + EntryPairs(entry, dirs, names, wd).value)
  {
    assert exclusions + {} == exclusions;
    var parts := Split(Strip(entry), ' ');
    r := Ok(exclusions);
    if |parts| == 2 {
      if IsDigits(parts[0]) {
        r := AddNamedTrait(exclusions, ParseDigits(parts[0]), parts[1], dirs, names, wd);
      }
    } else if |parts| == 3 {
      if IsDigits(parts[0]) && IsDigits(parts[1]) {
        r := AddLayerExclusion(exclusions, ParseDigits(parts[0]), ParseDigits(parts[1]), parts[2], dirs, names, wd);
      }
    }
  }

  /** Lines 69-82: the two-part form, searching the layer's sorted listing. */
  method AddNamedTrait(exclusions: set<Pair>, layer: nat, traitName: string, dirs: seq<string>,
                       names: map<string, string>, wd: WorkDir) returns (r: Result<set<Pair>>)
    ensures ExcludeTrait(layer, traitName, dirs, names, wd).Raised? ==> r == ExcludeTrait(layer, traitName, dirs, names, wd)
    ensures ExcludeTrait(layer, traitName, dirs, names, wd).Ok? ==>
              r == Ok(exclusions + ExcludeTrait(layer, traitName, dirs, names, wd).value)
  {
    assert exclusions + {} == exclusions;
    r := Ok(exclusions);
    if 1 <= layer <= |dirs| {
      var dir := dirs[layer - 1];
      if dir !in names {
        return Raised(KeyError(dir));
      }
      var k := FindTraitIndex(Sort(ListDir(wd, dir)), traitName);
      if k.Some? {
        r := Ok(exclusions + {(layer, k.value)});
      }
    }
  }

  /** Lines 89-107: the three-part form, searching the specific layer's
      sorted listing, then adding the excluded layer's pairs. */
  method AddLayerExclusion(exclusions: set<Pair>, layer: nat, specific: nat, traitName: string, dirs: seq<string>,
                           names: map<string, string>, wd: WorkDir) returns (r: Result<set<Pair>>)
    ensures ExcludeLayer(layer, specific, traitName, dirs, names, wd).Raised? ==>
              r == ExcludeLayer(layer, specific, traitName, dirs, names, wd)
    ensures ExcludeLayer(layer, specific, traitName, dirs, names, wd).Ok? ==>
              r == Ok(exclusions + ExcludeLayer(layer, specific, traitName, dirs, names, wd).value)
  {
    assert exclusions + {} == exclusions;
    r := Ok(exclusions);
    if 1 <= layer <= |dirs| && 1 <= specific <= |dirs| {
      var dir := dirs[specific - 1];
      if dir !in names {
        return Raised(KeyError(dir));
      }
      var k := FindTraitIndex(Sort(ListDir(wd, dir)), traitName);
      if k.Some? {
        var added := AddLayer(exclusions, layer, |ListDir(wd, dirs[layer - 1])|, specific, k.value);
        r := Ok(added);
      }
    }
  }

  /** Lines 105-107: adds every pair of the excluded layer, each time
      together with the specific trait. */
  method AddLayer(exclusions: set<Pair>, layer: nat, entries: nat, specificLayer: nat, specificTrait: nat)
    returns (r: set<Pair>)
    ensures r == exclusions + LayerPairs(layer, entries, specificLayer, specificTrait)
  {
    r := exclusions;
    var t := 1;
    while t <= entries
      invariant 1 <= t <= entries + 1
      invariant r == exclusions + LayerPairs(layer, t - 1, specificLayer, specificTrait)
    {
      r := r + {(layer, t)};
      r := r + {(specificLayer, specificTrait)};
      t := t + 1;
    }
  }

  // ---------------------------------------------------------------------
  // Properties of the reading

  /** Reading into a non-empty accumulator adds the accumulator and changes
      nothing else. */
  lemma {:induction false} AccumulateFrom(results: seq<Result<set<Pair>>>, acc: set<Pair>)
    ensures Accumulate(results, acc).Raised? == Accumulate(results, {}).Raised?
    ensures Accumulate(results, acc).Raised? ==> Accumulate(results, acc) == Accumulate(results, {})
    ensures Accumulate(results, acc).Ok? ==> Accumulate(results, acc).value == acc + Accumulate(results, {}).value
  {
    if results != [] && results[0].Ok? {
      var s := results[0].value;
      AccumulateFrom(results[1..], acc + s);
      AccumulateFrom(results[1..], {} + s);
      AccumulateFrom(results[1..], {});
      assert {} + s == s;
    }
  }

  /** The result raises exactly when some entry raises, and then with the
      first entry's exception. */
  lemma {:induction false} AccumulateRaises(results: seq<Result<set<Pair>>>, acc: set<Pair>)
    ensures Accumulate(results, acc).Raised? <==> exists i :: 0 <= i < |results| && results[i].Raised?
    ensures Accumulate(results, acc).Raised? ==>
              exists i :: 0 <= i < |results| && results[i].Raised? && (forall j :: 0 <= j < i ==> results[j].Ok?)
                          && Accumulate(results, acc).exc == results[i].exc
  {
    if results != [] {
      if results[0].Ok? {
        AccumulateRaises(results[1..], acc + results[0].value);
        assert forall i :: 0 < i < |results| ==> results[i] == results[1..][i - 1];
        if Accumulate(results, acc).Raised? {
          var k :| 0 <= k < |results[1..]| && results[1..][k].Raised? && (forall j :: 0 <= j < k ==> results[1..][j].Ok?)
                   && Accumulate(results[1..], acc + results[0].value).exc == results[1..][k].exc;
          assert forall j :: 0 <= j < k + 1 ==> results[j].Ok?;
        }
      }
    }
  }

  /** Every pair of the result comes from the accumulator or from an entry. */
  lemma {:induction false} AccumulateMembers(results: seq<Result<set<Pair>>>, acc: set<Pair>, p: Pair)
    requires Accumulate(results, acc).Ok? && p in Accumulate(results, acc).value
    ensures p in acc || exists i :: 0 <= i < |results| && results[i].Ok? && p in results[i].value
  {
    if results != [] {
      AccumulateMembers(results[1..], acc + results[0].value, p);
      assert forall i :: 0 < i < |results| ==> results[i] == results[1..][i - 1];
    }
  }

  /** Reading two runs of outcomes one after the other unites their sets. */
  lemma {:induction false} AccumulateConcat(a: seq<Result<set<Pair>>>, b: seq<Result<set<Pair>>>,
                                            x: set<Pair>, y: set<Pair>)
    requires Accumulate(a, {}) == Ok(x) && Accumulate(b, {}) == Ok(y)
    ensures Accumulate(a + b, {}) == Ok(x + y)
  {
    if a == [] {
      assert a + b == b;
      assert x + y == y;
    } else {
      var s := a[0].value;
      assert {} + s == s;
      AccumulateFrom(a[1..], s);
      var x' := Accumulate(a[1..], {}).value;
      assert x == s + x';
      AccumulateConcat(a[1..], b, x', y);
      assert (a + b)[1..] == a[1..] + b;
      AccumulateFrom(a[1..] + b, s);
      assert s + (x' + y) == (s + x') + y;
    }
  }

  lemma {:induction false} OutcomesConcat(a: seq<string>, b: seq<string>, outcome: string -> Result<set<Pair>>)
    ensures Outcomes(a + b, outcome) == Outcomes(a, outcome) + Outcomes(b, outcome)
  {
    if a == [] {
      assert a + b == b;
    } else {
      OutcomesConcat(a[1..], b, outcome);
      assert (a + b)[1..] == a[1..] + b;
    }
  }

  lemma {:induction false} OutcomesAt(entries: seq<string>, outcome: string -> Result<set<Pair>>, i: nat)
    requires i < |entries|
    ensures Outcomes(entries, outcome)[i] == outcome(entries[i])
  {
    if i > 0 {
      OutcomesAt(entries[1..], outcome, i - 1);
    }
  }

  lemma EntryResultsAt(entries: seq<string>, dirs: seq<string>, names: map<string, string>, wd: WorkDir, i: nat)
    requires i < |entries|
    ensures EntryResults(entries, dirs, names, wd)[i] == EntryPairs(entries[i], dirs, names, wd)
  {
    OutcomesAt(entries, EntryOutcome(dirs, names, wd), i);
  }

  // ---------------------------------------------------------------------
  // Properties of the answer

  /** An empty answer excludes nothing. */
  lemma EmptyAnswer(dirs: seq<string>, names: map<string, string>, wd: WorkDir)
    ensures ExclusionSet("", dirs, names, wd) == Ok({})
  {
    assert Split("", ',') == [""];
    assert Split(Strip(""), ' ') == [""];
    assert EntryPairs("", dirs, names, wd) == Ok({});
    EntryResultsAt([""], dirs, names, wd, 0);
    var results := EntryResults([""], dirs, names, wd);
    assert ExclusionSet("", dirs, names, wd) == Accumulate(results, {});
    var none: set<Pair> := {};
    assert results == [Ok(none)];
    assert results[1..] == [];
    assert none + none == none;
    assert Accumulate(results, none) == Accumulate([], none);
  }

  /** Joining two answers with a comma unites their exclusion sets: the
      order of the entries does not matter, nor does repeating one. */
  lemma AnswerConcat(x: string, y: string, dirs: seq<string>, names: map<string, string>, wd: WorkDir)
    requires ExclusionSet(x, dirs, names, wd).Ok? && ExclusionSet(y, dirs, names, wd).Ok?
    ensures ExclusionSet(x + "," + y, dirs, names, wd)
            == Ok(ExclusionSet(x, dirs, names, wd).value + ExclusionSet(y, dirs, names, wd).value)
    ensures ExclusionSet(x + "," + y, dirs, names, wd) == ExclusionSet(y + "," + x, dirs, names, wd)
    ensures ExclusionSet(x + "," + x, dirs, names, wd) == ExclusionSet(x, dirs, names, wd)
  {
    var outcome := EntryOutcome(dirs, names, wd);
    var ex, ey := Split(x, ','), Split(y, ',');
    SplitConcat(x, y, ',');
    SplitConcat(y, x, ',');
    SplitConcat(x, x, ',');
    OutcomesConcat(ex, ey, outcome);
    OutcomesConcat(ey, ex, outcome);
    OutcomesConcat(ex, ex, outcome);
    ResultsConcat(Outcomes(ex, outcome), Outcomes(ey, outcome),
                  ExclusionSet(x, dirs, names, wd).value, ExclusionSet(y, dirs, names, wd).value);
  }

  lemma ResultsConcat(rx: seq<Result<set<Pair>>>, ry: seq<Result<set<Pair>>>, a: set<Pair>, b: set<Pair>)
    requires Accumulate(rx, {}) == Ok(a) && Accumulate(ry, {}) == Ok(b)
    ensures Accumulate(rx + ry, {}) == Ok(a + b)
    ensures Accumulate(ry + rx, {}) == Ok(a + b)
    ensures Accumulate(rx + rx, {}) == Ok(a)
  {
    AccumulateConcat(rx, ry, a, b);
    AccumulateConcat(ry, rx, b, a);
    AccumulateConcat(rx, rx, a, a);
    assert a + b == b + a && a + a == a;
  }

  /** Every pair names an existing layer and an index into that layer's
      listing, subdirectories included. */
  lemma AnswerPairsInRange(input: string, dirs: seq<string>, names: map<string, string>, wd: WorkDir, p: Pair)
    requires ExclusionSet(input, dirs, names, wd).Ok? && p in ExclusionSet(input, dirs, names, wd).value
    ensures 1 <= p.0 <= |dirs| && 1 <= p.1 <= |ListDir(wd, dirs[p.0 - 1])|
  {
    var entries := Split(input, ',');
    AccumulateMembers(EntryResults(entries, dirs, names, wd), {}, p);
    var i :| 0 <= i < |entries| && EntryResults(entries, dirs, names, wd)[i].Ok?
             && p in EntryResults(entries, dirs, names, wd)[i].value;
    EntryResultsAt(entries, dirs, names, wd, i);
    EntryPairsInRange(entries[i], dirs, names, wd, p);
  }

  lemma EntryPairsInRange(entry: string, dirs: seq<string>, names: map<string, string>, wd: WorkDir, p: Pair)
    requires EntryPairs(entry, dirs, names, wd).Ok? && p in EntryPairs(entry, dirs, names, wd).value
    ensures 1 <= p.0 <= |dirs| && 1 <= p.1 <= |ListDir(wd, dirs[p.0 - 1])|
  {
    var parts := Split(Strip(entry), ' ');
    if |parts| == 2 {
      ExcludeTraitInRange(ParseDigits(parts[0]), parts[1], dirs, names, wd, p);
    } else {
      ExcludeLayerInRange(ParseDigits(parts[0]), ParseDigits(parts[1]), parts[2], dirs, names, wd, p);
    }
  }

  lemma ExcludeTraitInRange(layer: nat, traitName: string, dirs: seq<string>, names: map<string, string>,
                            wd: WorkDir, p: Pair)
    requires ExcludeTrait(layer, traitName, dirs, names, wd).Ok?
    requires p in ExcludeTrait(layer, traitName, dirs, names, wd).value
    ensures 1 <= p.0 <= |dirs| && 1 <= p.1 <= |ListDir(wd, dirs[p.0 - 1])|
  {
    var dir := dirs[layer - 1];
    var listing := Sort(ListDir(wd, dir));
    var k := FirstMatch(listing, traitName).value;
    assert ExcludeTrait(layer, traitName, dirs, names, wd).value == {(layer, k)};
    assert p == (layer, k);
    SortSpec(ListDir(wd, dir));
    assert k <= |listing|;
  }

  lemma ExcludeLayerInRange(layer: nat, specific: nat, traitName: string, dirs: seq<string>,
                            names: map<string, string>, wd: WorkDir, p: Pair)
    requires ExcludeLayer(layer, specific, traitName, dirs, names, wd).Ok?
    requires p in ExcludeLayer(layer, specific, traitName, dirs, names, wd).value
    ensures 1 <= p.0 <= |dirs| && 1 <= p.1 <= |ListDir(wd, dirs[p.0 - 1])|
  {
    var listing := Sort(ListDir(wd, dirs[specific - 1]));
    var k := FirstMatch(listing, traitName).value;
    var n := |ListDir(wd, dirs[layer - 1])|;
    assert ExcludeLayer(layer, specific, traitName, dirs, names, wd).value == LayerPairs(layer, n, specific, k);
    SortSpec(ListDir(wd, dirs[specific - 1]));
    LayerPairsInRange(layer, specific, n, k, dirs, wd, p);
  }

  lemma LayerPairsInRange(layer: nat, specific: nat, n: nat, k: nat, dirs: seq<string>, wd: WorkDir, p: Pair)
    requires 1 <= layer <= |dirs| && 1 <= specific <= |dirs|
    requires n == |ListDir(wd, dirs[layer - 1])| && 1 <= k <= |ListDir(wd, dirs[specific - 1])|
    requires p in LayerPairs(layer, n, specific, k)
    ensures 1 <= p.0 <= |dirs| && 1 <= p.1 <= |ListDir(wd, dirs[p.0 - 1])|
  {
    LayerPairsMembers(layer, n, specific, k, p);
  }


  /** Only a layer directory without a label makes the reading raise, with
      KeyError naming that directory; when every layer directory has a label
      the answer is always read. */
  lemma AnswerRaises(input: string, dirs: seq<string>, names: map<string, string>, wd: WorkDir)
    ensures ExclusionSet(input, dirs, names, wd).Raised? ==>
              exists i :: 0 <= i < |dirs| && dirs[i] !in names
                          && ExclusionSet(input, dirs, names, wd) == Raised(KeyError(dirs[i]))
    ensures (forall i :: 0 <= i < |dirs| ==> dirs[i] in names) ==> ExclusionSet(input, dirs, names, wd).Ok?
  {
    var entries := Split(input, ',');
    var results := EntryResults(entries, dirs, names, wd);
    AccumulateRaises(results, {});
    if ExclusionSet(input, dirs, names, wd).Raised? {
      var j :| 0 <= j < |results| && results[j].Raised? && ExclusionSet(input, dirs, names, wd).exc == results[j].exc;
      EntryResultsAt(entries, dirs, names, wd, j);
      EntryRaises(entries[j], dirs, names, wd);
    }
  }

  /** When the reading raises, it raises with the exception of the first
      comma-separated entry that raises: every entry before it was read. */
  lemma AnswerFirstRaise(input: string, dirs: seq<string>, names: map<string, string>, wd: WorkDir)
    requires ExclusionSet(input, dirs, names, wd).Raised?
    ensures exists k :: 0 <= k < |Split(input, ',')| && EntryPairs(Split(input, ',')[k], dirs, names, wd).Raised?
                        && (forall j :: 0 <= j < k ==> EntryPairs(Split(input, ',')[j], dirs, names, wd).Ok?)
                        && ExclusionSet(input, dirs, names, wd) == EntryPairs(Split(input, ',')[k], dirs, names, wd)
  {
    var entries := Split(input, ',');
    var results := EntryResults(entries, dirs, names, wd);
    AccumulateRaises(results, {});
    var k :| 0 <= k < |results| && results[k].Raised? && (forall j :: 0 <= j < k ==> results[j].Ok?)
             && ExclusionSet(input, dirs, names, wd).exc == results[k].exc;
    EntryResultsAt(entries, dirs, names, wd, k);
    forall j | 0 <= j < k
      ensures EntryPairs(entries[j], dirs, names, wd).Ok?
    {
      EntryResultsAt(entries, dirs, names, wd, j);
    }
  }

  lemma EntryRaises(entry: string, dirs: seq<string>, names: map<string, string>, wd: WorkDir)
    requires EntryPairs(entry, dirs, names, wd).Raised?
    ensures exists i :: 0 <= i < |dirs| && dirs[i] !in names && EntryPairs(entry, dirs, names, wd) == Raised(KeyError(dirs[i]))
  {
    var parts := Split(Strip(entry), ' ');
    if |parts| == 2 {
      ExcludeTraitRaises(ParseDigits(parts[0]), parts[1], dirs, names, wd);
    } else {
      ExcludeLayerRaises(ParseDigits(parts[0]), ParseDigits(parts[1]), parts[2], dirs, names, wd);
    }
  }

  lemma ExcludeTraitRaises(layer: nat, traitName: string, dirs: seq<string>, names: map<string, string>, wd: WorkDir)
    requires ExcludeTrait(layer, traitName, dirs, names, wd).Raised?
    ensures 1 <= layer <= |dirs| && dirs[layer - 1] !in names
    ensures ExcludeTrait(layer, traitName, dirs, names, wd) == Raised(KeyError(dirs[layer - 1]))
  {
  }

  lemma ExcludeLayerRaises(layer: nat, specific: nat, traitName: string, dirs: seq<string>,
                           names: map<string, string>, wd: WorkDir)
    requires ExcludeLayer(layer, specific, traitName, dirs, names, wd).Raised?
    ensures 1 <= specific <= |dirs| && dirs[specific - 1] !in names
    ensures ExcludeLayer(layer, specific, traitName, dirs, names, wd) == Raised(KeyError(dirs[specific - 1]))
  {
  }

  /** In a layer directory holding files only, the two-part form excludes
      the index at which the trait's value is read back as the given name. */
  lemma NamedTraitExcluded(layer: nat, traitName: string, dirs: seq<string>, names: map<string, string>,
                           wd: WorkDir, k: nat)
    requires ExcludeTrait(layer, traitName, dirs, names, wd) == Ok({(layer, k)})
    requires 1 <= layer <= |dirs|
    requires forall e :: e in Contents(wd.entries, dirs[layer - 1]) ==> e.isFile
    ensures k >= 1 && GetTraitValue(wd, dirs[layer - 1], k) == Ok(Some(traitName))
  {
    assert (layer, TraitPosition(wd, dirs[layer - 1], traitName).value) in {(layer, k)};
    ExclusionIndexNamesTrait(wd, dirs[layer - 1], traitName);
  }
}
