/** The body of `main` from layer discovery to the end of the generation
    loop (lines 130-233), the steps chained as the script chains them. The
    answers typed at the prompts are inputs; the combination shuffle is
    driven by `draws`. */
module Pipeline {
  import opened Python
  import opened Listing
  import opened Layers
  import opened Combinations
  import opened Exclusions
  import opened Sizes
  import opened TraitMap
  import opened Generation

  /** The answer to "How many would you like to generate?": "max" (in any
      letter case) or the number typed. */
  datatype SizeAnswer = AnswerMax | AnswerCount(n: int)

  /** What the user typed: the template read from index.html, the first
      prompts, the exclusion list, whether to continue, and the size. */
  datatype Answers = Answers(html: string, collectionName: string, width: string, height: string,
                             inscriptionId: string, exclusions: string, proceed: bool, size: SizeAnswer)

  /** How a run ends when it does not raise: cancelled at the "continue?"
      prompt, or after the generation loop with what it wrote. */
  datatype Ending = Cancelled | Generated(out: Output)

  /** Lines 181-187: the number of artifacts asked for and whether the
      combinations are shuffled. "max" asks for the adjusted maximum in
      row-major order; a number asks for that many, shuffled. */
  function Request(answer: SizeAnswer, adjusted: int): (int, bool)
  {
    match answer
    case AnswerMax => (adjusted, false)
    case AnswerCount(n) => (n, true)
  }

  /** What the loop reads besides the combinations. */
  function SettingsOf(a: Answers, dirs: seq<string>, names: map<string, string>, wd: WorkDir): Settings
  {
    Settings(a.html, a.collectionName, a.width, a.height, a.inscriptionId, dirs, names, wd)
  }

  /** The combinations `main` hands to the loop: `generate_combinations` is
      called with the adjusted maximum, not with the number asked for
      (line 204). */
  function Candidates(counts: seq<nat>, exclusions: set<Pair>, adjusted: int, answer: SizeAnswer,
                      draws: seq<nat>): seq<Combination>
  {
    GenerateCombinations(counts, adjusted, Request(answer, adjusted).1, exclusions, draws)
  }

  /** Lines 204-233: the candidates handed to the generation loop, with
      the number asked for as its stopping size. */
  function Produce(s: Settings, counts: seq<nat>, exclusions: set<Pair>, adjusted: int, answer: SizeAnswer,
                   draws: seq<nat>): Result<Output>
  {
    Outcome(s, Candidates(counts, exclusions, adjusted, answer, draws), Request(answer, adjusted).0)
  }

  /** The whole run as a value. */
  ghost function Script(a: Answers, wd: WorkDir, draws: seq<nat>): Result<Ending>
  {
    var dirs := LayerDirs(wd);
    var counts := TraitCounts(wd, dirs);
    var names := LayerNames(dirs);
    match ExclusionSet(a.exclusions, dirs, names, wd)
    case Raised(e) => Raised(e)
    case Ok(exclusions) =>
      match AdjustedSize(Prod(counts), exclusions, counts)
      case Raised(e) => Raised(e)
      case Ok(adjusted) =>
        if !a.proceed then Ok(Cancelled)
        else
          match Produce(SettingsOf(a, dirs, names, wd), counts, exclusions, adjusted, a.size, draws)
          case Raised(e) => Raised(e)
          case Ok(out) => Ok(Generated(out))
  }

  /** Lines 130-233: discover the layers, compute the two sizes, read the
      exclusions, stop unless told to continue, then generate. */
  method RunScript(a: Answers, wd: WorkDir, draws: seq<nat>) returns (r: Result<Ending>)
    ensures r == Script(a, wd, draws)
  {
    var dirs, counts, names := DiscoverLayers(wd);
    var maxSize := MaxCollectionSize(counts);
    var exclusions := ParseExclusions(a.exclusions, dirs, names, wd);
    if exclusions.Raised? {
      return Raised(exclusions.exc);
    }
    var adjusted := AdjustedMaxSize(maxSize, exclusions.value, counts);
    if adjusted.Raised? {
      return Raised(adjusted.exc);
    }
    if !a.proceed {
      return Ok(Cancelled);
    }
    var (size, randomize) := Request(a.size, adjusted.value);
    var combos := GenerateCombinations(counts, adjusted.value, randomize, exclusions.value, draws);
    var out := GenerateCollection(SettingsOf(a, dirs, names, wd), combos, size);
    assert out == Produce(SettingsOf(a, dirs, names, wd), counts, exclusions.value, adjusted.value, a.size, draws);
    if out.Raised? {
      return Raised(out.exc);
    }
    r := Ok(Generated(out.value));
  }

  /** How many artifacts a run writes: as many as asked for (at least one),
      but never more than the first `adjusted` valid combinations hold, so
      never more than a non-negative adjusted maximum. */
  lemma ProducePageCount(s: Settings, counts: seq<nat>, exclusions: set<Pair>, adjusted: int, answer: SizeAnswer,
                         draws: seq<nat>)
    requires Produce(s, counts, exclusions, adjusted, answer, draws).Ok?
    ensures var pages := Produce(s, counts, exclusions, adjusted, answer, draws).value.pages;
            && |pages| == Min(|PyTake(ValidCombinations(counts, exclusions), adjusted)|, Max(Request(answer, adjusted).0, 1))
            && (adjusted >= 0 ==> |pages| <= adjusted)
  {
    var combos := Candidates(counts, exclusions, adjusted, answer, draws);
    assert Distinct(combos) && |combos| == |PyTake(ValidCombinations(counts, exclusions), adjusted)|;
    GenerationCount(s, combos, Request(answer, adjusted).0);
  }

  /** With "max" the artifacts show the valid combinations in row-major
      order, artifact j + 1 the j-th of them. */
  lemma ProduceInOrder(s: Settings, counts: seq<nat>, exclusions: set<Pair>, adjusted: int, answer: SizeAnswer,
                       draws: seq<nat>)
    requires Produce(s, counts, exclusions, adjusted, answer, draws).Ok?
    ensures |Produce(s, counts, exclusions, adjusted, answer, draws).value.pages| <= |ValidCombinations(counts, exclusions)|
    ensures var pages := Produce(s, counts, exclusions, adjusted, answer, draws).value.pages;
            answer == AnswerMax ==>
              forall j :: 0 <= j < |pages| ==> pages[j] == PageOf(s, j + 1, ValidCombinations(counts, exclusions)[j])
  {
    ProducePageCount(s, counts, exclusions, adjusted, answer, draws);
    if answer == AnswerMax {
      var combos := Candidates(counts, exclusions, adjusted, answer, draws);
      var valid := ValidCombinations(counts, exclusions);
      assert combos == PyTake(valid, adjusted);
      assert forall j :: 0 <= j < |combos| ==> combos[j] == valid[j];
      GenerationCount(s, combos, adjusted);
    }
  }

  /** The case of `AdjustedMaxExample` carried through to the loop: with an
      adjusted maximum of 0 the combinations are cut to nothing, so nothing
      is written, whatever the size answer and the draws. */
  lemma AdjustedZeroGeneratesNothing(s: Settings, answer: SizeAnswer, draws: seq<nat>)
    ensures Produce(s, [2, 1], {(1, 1)}, 0, answer, draws) == Ok(Written(s, []))
  {
    AdjustedMaxExample();
    var combos := Candidates([2, 1], {(1, 1)}, 0, answer, draws);
    assert combos == [];
  }

  /** When every layer directory has a label (a space in its name) the run
      never raises: it is cancelled or writes its output. */
  lemma ScriptNeverRaises(a: Answers, wd: WorkDir, draws: seq<nat>)
    requires forall i :: 0 <= i < |LayerDirs(wd)| ==> ' ' in LayerDirs(wd)[i]
    ensures Script(a, wd, draws).Ok?
  {
    var dirs := LayerDirs(wd);
    var counts := TraitCounts(wd, dirs);
    LabelledSizes(a.exclusions, wd);
    var exclusions := ExclusionSet(a.exclusions, dirs, LayerNames(dirs), wd).value;
    var adjusted := AdjustedSize(Prod(counts), exclusions, counts).value;
    LabelledGeneration(a, wd, draws, exclusions, adjusted);
  }

  /** With every layer directory labelled, the exclusion answer is always
      read and the adjusted maximum always computed. */
  lemma LabelledSizes(input: string, wd: WorkDir)
    requires forall i :: 0 <= i < |LayerDirs(wd)| ==> ' ' in LayerDirs(wd)[i]
    ensures var dirs := LayerDirs(wd);
            var counts := TraitCounts(wd, dirs);
            && ExclusionSet(input, dirs, LayerNames(dirs), wd).Ok?
            && AdjustedSize(Prod(counts), ExclusionSet(input, dirs, LayerNames(dirs), wd).value, counts).Ok?
  {
    var dirs := LayerDirs(wd);
    var counts := TraitCounts(wd, dirs);
    var names := LayerNames(dirs);
    CountsAligned(wd, dirs);
    AnswerRaises(input, dirs, names, wd);
    var exclusions := ExclusionSet(input, dirs, names, wd).value;
    forall p | p in exclusions
      ensures PyIndex(counts, p.0 as int - 1).Some?
    {
      AnswerPairsInRange(input, dirs, names, wd, p);
    }
  }

  /** Every combination `main` hands to the loop has one trait number of
      at least 1 per counted layer, and `trait_counts` has no more entries
      than `layer_dirs`. */
  lemma CandidatesFit(wd: WorkDir, exclusions: set<Pair>, adjusted: int, answer: SizeAnswer, draws: seq<nat>)
    ensures var dirs := LayerDirs(wd);
            forall c :: c in Candidates(TraitCounts(wd, dirs), exclusions, adjusted, answer, draws) ==>
              |c| <= |dirs| && Positive(c)
  {
    var dirs := LayerDirs(wd);
    var counts := TraitCounts(wd, dirs);
    LabelledLength(dirs);
    forall c | c in Candidates(counts, exclusions, adjusted, answer, draws)
      ensures |c| <= |dirs| && Positive(c)
    {
      assert InRange(c, counts);
    }
  }

  /** So the generation loop, run from `main`, raises nothing but the
      KeyError of an unlabelled layer directory: the IndexError of
      `layer_dirs[i]` and that of `get_trait_value` with an index below 1
      cannot happen there. */
  lemma ProduceRaisesKeyError(a: Answers, wd: WorkDir, draws: seq<nat>, exclusions: set<Pair>, adjusted: int)
    ensures var dirs := LayerDirs(wd);
            var r := Produce(SettingsOf(a, dirs, LayerNames(dirs), wd), TraitCounts(wd, dirs), exclusions, adjusted,
                             a.size, draws);
            r.Raised? ==> r.exc.KeyError?
  {
    var dirs := LayerDirs(wd);
    var s := SettingsOf(a, dirs, LayerNames(dirs), wd);
    var combos := Candidates(TraitCounts(wd, dirs), exclusions, adjusted, a.size, draws);
    var size := Request(a.size, adjusted).0;
    if Outcome(s, combos, size).Raised? {
      GenerationRaise(s, combos, size);
      var j :| 0 <= j < |Fresh(combos, {})|
               && TraitsFor(Fresh(combos, {})[j], s.dirs, s.names, s.wd).Raised?
               && TraitsFor(Fresh(combos, {})[j], s.dirs, s.names, s.wd).exc == Outcome(s, combos, size).exc;
      var c := Fresh(combos, {})[j];
      FreshSpec(combos, {});
      CandidatesFit(wd, exclusions, adjusted, a.size, draws);
      FittingRaisesKeyError(c, s.dirs, s.names, s.wd);
    }
  }

  /** With every layer directory labelled, the loop builds every
      dictionary it needs, whatever the sizes and exclusions. */
  lemma LabelledGeneration(a: Answers, wd: WorkDir, draws: seq<nat>, exclusions: set<Pair>, adjusted: int)
    requires forall i :: 0 <= i < |LayerDirs(wd)| ==> ' ' in LayerDirs(wd)[i]
    ensures var dirs := LayerDirs(wd);
            var counts := TraitCounts(wd, dirs);
            Produce(SettingsOf(a, dirs, LayerNames(dirs), wd), counts, exclusions, adjusted, a.size, draws).Ok?
  {
    var dirs := LayerDirs(wd);
    var counts := TraitCounts(wd, dirs);
    CountsAligned(wd, dirs);
    var combos := Candidates(counts, exclusions, adjusted, a.size, draws);
    var s := SettingsOf(a, dirs, LayerNames(dirs), wd);
    forall c | c in combos
      ensures |c| <= |s.dirs| && Positive(c)
    {
      assert InRange(c, counts);
    }
    GenerationOk(s, combos, Request(a.size, adjusted).0);
  }
}
