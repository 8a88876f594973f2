/** The trait dictionary of one combination (lines 211-217): for every
    layer, the label of its directory mapped to the value the combination
    picks there. */
module TraitMap {
  import opened Python
  import opened Listing
  import opened Combinations
  import opened Metadata

  /** Every entry is a 1-based trait number, as in every combination the
      generator produces. */
  predicate Positive(c: Combination)
  {
    forall i :: 0 <= i < |c| ==> c[i] >= 1
  }

  /** `get_trait_value(layer_dirs[i], combination[i])` for every layer of
      the combination that has a directory. */
  function LayerValues(wd: WorkDir, dirs: seq<string>, c: Combination): (r: seq<Result<Option<string>>>)
    ensures |r| == Min(|c|, |dirs|)
  {
    seq(Min(|c|, |dirs|), i requires 0 <= i < Min(|c|, |dirs|) => GetTraitValue(wd, dirs[i], c[i]))
  }

  lemma LayerValueAt(wd: WorkDir, dirs: seq<string>, c: Combination, i: nat)
    requires i < |c| && i < |dirs|
    ensures LayerValues(wd, dirs, c)[i] == GetTraitValue(wd, dirs[i], c[i])
  {
  }

  /** `if trait_value:`: a value counts when present and not empty. */
  predicate Truthy(v: Option<string>)
  {
    v.Some? && v.value != ""
  }

  /** The dictionary after the first n layers, given each layer's value:
      IndexError once the layer number passes the end of `layer_dirs`,
      KeyError for a directory without a label, and whatever reading the
      value raised. */
  function TraitsOf(c: Combination, dirs: seq<string>, names: map<string, string>,
                    values: seq<Result<Option<string>>>, n: nat): Result<Traits>
    requires n <= |c| && |values| == Min(|c|, |dirs|)
  {
    if n == 0 then Ok([])
    else match TraitsOf(c, dirs, names, values, n - 1)
      case Raised(e) => Raised(e)
      case Ok(traits) =>
        if n - 1 >= |dirs| then Raised(IndexError)
        else if dirs[n - 1] !in names then Raised(KeyError(dirs[n - 1]))
        else match values[n - 1]
          case Raised(e) => Raised(e)
          case Ok(v) => if Truthy(v) then Ok(Put(traits, names[dirs[n - 1]], v.value)) else Ok(traits)
  }

  /** The trait dictionary of a combination against the layer directories. */
  function TraitsFor(c: Combination, dirs: seq<string>, names: map<string, string>, wd: WorkDir): Result<Traits>
  {
    TraitsOf(c, dirs, names, LayerValues(wd, dirs, c), |c|)
  }

  /** Once raised, the exception is the outcome of every longer prefix. */
  lemma {:induction false} TraitsStuck(c: Combination, dirs: seq<string>, names: map<string, string>,
                                       values: seq<Result<Option<string>>>, m: nat, n: nat)
    requires m <= n <= |c| && |values| == Min(|c|, |dirs|)
    requires TraitsOf(c, dirs, names, values, m).Raised?
    ensures TraitsOf(c, dirs, names, values, n) == TraitsOf(c, dirs, names, values, m)
    decreases n
  {
    if m < n {
      TraitsStuck(c, dirs, names, values, m, n - 1);
    }
  }

  /** Lines 211-217: the loop over the layers of one combination. */
  method CollectTraits(c: Combination, dirs: seq<string>, names: map<string, string>, wd: WorkDir)
    returns (r: Result<Traits>)
    ensures r == TraitsFor(c, dirs, names, wd)
  {
    ghost var values := LayerValues(wd, dirs, c);
    var traits: Traits := [];
    var i := 0;
    while i < |c|
      invariant 0 <= i <= |c|
      invariant TraitsOf(c, dirs, names, values, i) == Ok(traits)
    {
      if i >= |dirs| {
        assert TraitsFor(c, dirs, names, wd) == Raised(IndexError) by { TraitsHalt(c, dirs, names, values, i, traits); }
        return Raised(IndexError);
      }
      var dir := dirs[i];
      if dir !in names {
        assert TraitsFor(c, dirs, names, wd) == Raised(KeyError(dir)) by { TraitsHalt(c, dirs, names, values, i, traits); }
        return Raised(KeyError(dir));
      }
      var key := names[dir];
      LayerValueAt(wd, dirs, c, i);
      var value := GetTraitValue(wd, dir, c[i]);
      if value.Raised? {
        assert TraitsFor(c, dirs, names, wd) == Raised(value.exc) by { TraitsHalt(c, dirs, names, values, i, traits); }
        return Raised(value.exc);
      }
      ghost var next := if Truthy(value.value) then Ok(Put(traits, key, value.value.value)) else Ok(traits);
      assert TraitsOf(c, dirs, names, values, i + 1) == next by { TraitsStep(c, dirs, names, values, i, traits); }
      if value.value.Some? && value.value.value != "" {
        traits := Put(traits, key, value.value.value);
      }
      i := i + 1;
    }
    r := Ok(traits);
  }

  /** A layer with a directory, a label and a readable value extends the
      dictionary. */
  lemma TraitsStep(c: Combination, dirs: seq<string>, names: map<string, string>,
                   values: seq<Result<Option<string>>>, i: nat, traits: Traits)
    requires i < |c| && |values| == Min(|c|, |dirs|)
    requires TraitsOf(c, dirs, names, values, i) == Ok(traits)
    requires i < |dirs| && dirs[i] in names && values[i].Ok?
    ensures TraitsOf(c, dirs, names, values, i + 1)
            == if Truthy(values[i].value) then Ok(Put(traits, names[dirs[i]], values[i].value.value)) else Ok(traits)
  {
  }

  /** A layer without a directory, a label or a readable value decides the
      outcome of the whole combination. */
  lemma TraitsHalt(c: Combination, dirs: seq<string>, names: map<string, string>,
                   values: seq<Result<Option<string>>>, i: nat, traits: Traits)
    requires i < |c| && |values| == Min(|c|, |dirs|)
    requires TraitsOf(c, dirs, names, values, i) == Ok(traits)
    requires i >= |dirs| || dirs[i] !in names || values[i].Raised?
    ensures TraitsOf(c, dirs, names, values, |c|)
            == if i >= |dirs| then Raised(IndexError)
               else if dirs[i] !in names then Raised(KeyError(dirs[i]))
               else Raised(values[i].exc)
  {
    TraitsStuck(c, dirs, names, values, i + 1, |c|);
  }

  /** The dictionary is built exactly when every layer of the combination
      has a directory, every such directory has a label and every value
      could be read. */
  lemma {:induction false} TraitsOk(c: Combination, dirs: seq<string>, names: map<string, string>,
                                    values: seq<Result<Option<string>>>, n: nat)
    requires n <= |c| && |values| == Min(|c|, |dirs|)
    ensures TraitsOf(c, dirs, names, values, n).Ok? <==>
              n <= |dirs| && forall i :: 0 <= i < n ==> dirs[i] in names && values[i].Ok?
  {
    if n > 0 {
      TraitsOk(c, dirs, names, values, n - 1);
    }
  }

  /** When it raises, it raises for the first layer that has no directory
      (IndexError), no label (KeyError naming the directory) or a value
      that cannot be read (that exception). */
  lemma {:induction false} TraitsRaise(c: Combination, dirs: seq<string>, names: map<string, string>,
                                       values: seq<Result<Option<string>>>, n: nat)
    requires n <= |c| && |values| == Min(|c|, |dirs|)
    requires TraitsOf(c, dirs, names, values, n).Raised?
    ensures exists i :: FailsAt(dirs, names, values, i, n, TraitsOf(c, dirs, names, values, n))
  {
    if TraitsOf(c, dirs, names, values, n - 1).Raised? {
      TraitsRaise(c, dirs, names, values, n - 1);
      TraitsStuck(c, dirs, names, values, n - 1, n);
      var i :| FailsAt(dirs, names, values, i, n - 1, TraitsOf(c, dirs, names, values, n - 1));
      assert FailsAt(dirs, names, values, i, n, TraitsOf(c, dirs, names, values, n));
    } else {
      TraitsOk(c, dirs, names, values, n - 1);
      assert FailsAt(dirs, names, values, n - 1, n, TraitsOf(c, dirs, names, values, n));
    }
  }

  /** Layer i is the first of the first n without a directory, a label or a
      readable value, and r is the exception that raises. */
  predicate FailsAt(dirs: seq<string>, names: map<string, string>, values: seq<Result<Option<string>>>,
                    i: nat, n: nat, r: Result<Traits>)
  {
    && i < n
    && (forall j :: 0 <= j < i ==> j < |dirs| && dirs[j] in names && j < |values| && values[j].Ok?)
    && (i >= |dirs| ==> r == Raised(IndexError))
    && (i < |dirs| && dirs[i] !in names ==> r == Raised(KeyError(dirs[i])))
    && (i < |dirs| && dirs[i] in names ==> i < |values| && values[i].Raised? && r == Raised(values[i].exc))
  }

  /** The value a label ends up with: that of the last of the first n layers
      carrying the label and a truthy value, since a later assignment to the
      same key overwrites an earlier one. */
  function LastValue(dirs: seq<string>, names: map<string, string>, values: seq<Result<Option<string>>>, n: nat,
                     key: string): Option<string>
    requires n <= |values| && n <= |dirs|
    requires forall i :: 0 <= i < n ==> dirs[i] in names && values[i].Ok?
  {
    if n == 0 then None
    else if names[dirs[n - 1]] == key && Truthy(values[n - 1].value) then values[n - 1].value
    else LastValue(dirs, names, values, n - 1, key)
  }

  /** The dictionary holds each label once, with its last truthy value. */
  lemma {:induction false} TraitsLookup(c: Combination, dirs: seq<string>, names: map<string, string>,
                                        values: seq<Result<Option<string>>>, n: nat, key: string)
    requires n <= |c| && n <= |dirs| && |values| == Min(|c|, |dirs|)
    requires forall i :: 0 <= i < n ==> dirs[i] in names && values[i].Ok?
    ensures TraitsOf(c, dirs, names, values, n).Ok?
    ensures DistinctKeys(TraitsOf(c, dirs, names, values, n).value)
    ensures Lookup(TraitsOf(c, dirs, names, values, n).value, key) == LastValue(dirs, names, values, n, key)
  {
    if n > 0 {
      TraitsLookup(c, dirs, names, values, n - 1, key);
      var traits := TraitsOf(c, dirs, names, values, n - 1).value;
      var v := values[n - 1].value;
      if Truthy(v) {
        PutLookup(traits, names[dirs[n - 1]], v.value);
        PutDistinct(traits, names[dirs[n - 1]], v.value);
      }
    }
  }

  /** A combination of trait numbers reads a value for every layer that has
      a directory. */
  lemma PositiveValues(wd: WorkDir, dirs: seq<string>, c: Combination)
    requires Positive(c)
    ensures forall i :: 0 <= i < |LayerValues(wd, dirs, c)| ==> LayerValues(wd, dirs, c)[i].Ok?
  {
    var values := LayerValues(wd, dirs, c);
    forall i | 0 <= i < |values| ensures values[i].Ok? {
      GetTraitValueSpec(wd, dirs[i], c[i]);
    }
  }

  /** With a directory for every layer and every value read, the only
      exception left is the KeyError of an unlabelled directory. */
  lemma {:induction false} TraitsKeyErrorOnly(c: Combination, dirs: seq<string>, names: map<string, string>,
                                              values: seq<Result<Option<string>>>, n: nat)
    requires n <= |c| <= |dirs| && |values| == Min(|c|, |dirs|)
    requires forall i :: 0 <= i < |values| ==> values[i].Ok?
    ensures TraitsOf(c, dirs, names, values, n).Raised? ==> TraitsOf(c, dirs, names, values, n).exc.KeyError?
  {
    if n > 0 {
      TraitsKeyErrorOnly(c, dirs, names, values, n - 1);
    }
  }

  /** A combination of trait numbers no longer than the list of layer
      directories can fail only on a directory without a label: neither
      `layer_dirs[i]` nor `get_trait_value` raises for it. */
  lemma FittingRaisesKeyError(c: Combination, dirs: seq<string>, names: map<string, string>, wd: WorkDir)
    requires Positive(c) && |c| <= |dirs|
    ensures TraitsFor(c, dirs, names, wd).Raised? ==> TraitsFor(c, dirs, names, wd).exc.KeyError?
  {
    PositiveValues(wd, dirs, c);
    TraitsKeyErrorOnly(c, dirs, names, LayerValues(wd, dirs, c), |c|);
  }

  /** A combination of trait numbers no longer than the list of layer
      directories, all of them labelled, always gets its dictionary. */
  lemma TraitsBuilt(c: Combination, dirs: seq<string>, names: map<string, string>, wd: WorkDir)
    requires Positive(c) && |c| <= |dirs|
    requires forall i :: 0 <= i < |dirs| ==> dirs[i] in names
    ensures TraitsFor(c, dirs, names, wd).Ok?
  {
    PositiveValues(wd, dirs, c);
    TraitsOk(c, dirs, names, LayerValues(wd, dirs, c), |c|);
  }

  /** With distinct labels, the dictionary maps each layer's label to the
      value `get_trait_value` gives for that layer's trait number, and holds
      no label whose value is missing or empty. */
  lemma DistinctLabels(c: Combination, dirs: seq<string>, names: map<string, string>, wd: WorkDir, i: nat)
    requires |c| <= |dirs| && Positive(c) && i < |c|
    requires forall j :: 0 <= j < |c| ==> dirs[j] in names
    requires forall j, k :: 0 <= j < k < |c| ==> names[dirs[j]] != names[dirs[k]]
    ensures TraitsFor(c, dirs, names, wd).Ok? && GetTraitValue(wd, dirs[i], c[i]).Ok?
    ensures var v := GetTraitValue(wd, dirs[i], c[i]).value;
            Lookup(TraitsFor(c, dirs, names, wd).value, names[dirs[i]]) == if Truthy(v) then v else None
  {
    var values := LayerValues(wd, dirs, c);
    PositiveValues(wd, dirs, c);
    TraitsLookup(c, dirs, names, values, |c|, names[dirs[i]]);
    LastValueOwn(dirs, names, values, |c|, i);
  }

  lemma {:induction false} LastValueOwn(dirs: seq<string>, names: map<string, string>,
                                        values: seq<Result<Option<string>>>, n: nat, i: nat)
    requires n <= |values| && n <= |dirs| && i < n
    requires forall j :: 0 <= j < n ==> dirs[j] in names && values[j].Ok?
    requires forall j, k :: 0 <= j < k < n ==> names[dirs[j]] != names[dirs[k]]
    ensures LastValue(dirs, names, values, n, names[dirs[i]]) == if Truthy(values[i].value) then values[i].value else None
  {
    if i < n - 1 {
      LastValueOwn(dirs, names, values, n - 1, i);
    } else {
      LastValueNone(dirs, names, values, n - 1, names[dirs[i]]);
    }
  }

  lemma {:induction false} LastValueNone(dirs: seq<string>, names: map<string, string>,
                                         values: seq<Result<Option<string>>>, n: nat, key: string)
    requires n <= |values| && n <= |dirs|
    requires forall j :: 0 <= j < n ==> dirs[j] in names && values[j].Ok? && names[dirs[j]] != key
    ensures LastValue(dirs, names, values, n, key) == None
  {
    if n > 0 {
      LastValueNone(dirs, names, values, n - 1, key);
    }
  }
}
