/** The generation loop of `main` (lines 203-233): one page and two
    metadata records per combination not seen before, numbered from 1,
    until as many distinct combinations as asked for have been emitted. */
module Generation {
  import opened Python
  import opened Listing
  import opened Combinations
  import opened Template
  import opened Metadata
  import opened TraitMap

  /** What the loop reads besides the combinations: the template, the
      answers to the first prompts and the layer directories. */
  datatype Settings = Settings(html: string, collectionName: string, width: string, height: string,
                               inscriptionId: string, dirs: seq<string>, names: map<string, string>, wd: WorkDir)

  /** One file written to `collection/`. */
  datatype Page = Page(fileName: string, content: string)

  /** What the loop leaves behind: the pages written and the two metadata
      lists. */
  datatype Output = Output(pages: seq<Page>, ow: seq<OwEntry>, dm: seq<DmEntry>)

  /** The trait dictionary each combination gets (lines 211-217). */
  function Dictionary(s: Settings): Combination -> Result<Traits>
  {
    c => TraitsFor(c, s.dirs, s.names, s.wd)
  }

  /** The page of artifact `index`, showing combination c (lines 210, 221-226). */
  function PageOf(s: Settings, index: nat, c: Combination): Page
  {
    Page(HtmlFileName(index),
         RenderPage(s.html, s.collectionName, index, s.width, s.height, s.inscriptionId, TraitIndexString(c)))
  }

  /** One item per emitted artifact, in order, the j-th made by `f` from
      its number j + 1 and the j-th emitted combination and dictionary. */
  function Numbered<T>(emitted: seq<(Combination, Traits)>, f: (nat, (Combination, Traits)) -> T): (r: seq<T>)
    ensures |r| == |emitted|
  {
    if emitted == [] then []
    else Numbered(emitted[..|emitted| - 1], f) + [f(|emitted|, emitted[|emitted| - 1])]
  }

  lemma {:induction false} NumberedAt<T>(emitted: seq<(Combination, Traits)>, f: (nat, (Combination, Traits)) -> T,
                                         j: nat)
    requires j < |emitted|
    ensures Numbered(emitted, f)[j] == f(j + 1, emitted[j])
  {
    var n := |emitted|;
    if j < n - 1 {
      NumberedAt(emitted[..n - 1], f, j);
      assert emitted[..n - 1][j] == emitted[j];
    }
  }

  lemma NumberedStep<T>(emitted: seq<(Combination, Traits)>, f: (nat, (Combination, Traits)) -> T,
                        x: (Combination, Traits))
    ensures Numbered(emitted + [x], f) == Numbered(emitted, f) + [f(|emitted| + 1, x)]
  {
    assert (emitted + [x])[..|emitted|] == emitted;
  }

  function PageMaker(s: Settings): (nat, (Combination, Traits)) -> Page
  {
    (index: nat, x: (Combination, Traits)) => PageOf(s, index, x.0)
  }

  function OwMaker(collectionName: string): (nat, (Combination, Traits)) -> OwEntry
  {
    (index: nat, x: (Combination, Traits)) => OwMetadataEntry(collectionName, index, x.1)
  }

  function DmMaker(collectionName: string): (nat, (Combination, Traits)) -> DmEntry
  {
    (index: nat, x: (Combination, Traits)) => DmMetadataEntry(collectionName, index, x.1)
  }

  /** The pages of the artifacts emitted, in order. */
  function Pages(s: Settings, emitted: seq<(Combination, Traits)>): seq<Page>
  {
    Numbered(emitted, PageMaker(s))
  }

  /** The schema-A records of the artifacts emitted, in order. */
  function OwRecords(collectionName: string, emitted: seq<(Combination, Traits)>): seq<OwEntry>
  {
    Numbered(emitted, OwMaker(collectionName))
  }

  /** The schema-B records of the artifacts emitted, in order. */
  function DmRecords(collectionName: string, emitted: seq<(Combination, Traits)>): seq<DmEntry>
  {
    Numbered(emitted, DmMaker(collectionName))
  }

  /** Everything written for the artifacts emitted. */
  function Written(s: Settings, emitted: seq<(Combination, Traits)>): Output
  {
    Output(Pages(s, emitted), OwRecords(s.collectionName, emitted), DmRecords(s.collectionName, emitted))
  }

  /** Page j + 1 shows the j-th emitted combination. */
  lemma PagesAt(s: Settings, emitted: seq<(Combination, Traits)>, j: nat)
    requires j < |emitted|
    ensures |Pages(s, emitted)| == |emitted|
    ensures Pages(s, emitted)[j] == PageOf(s, j + 1, emitted[j].0)
  {
    NumberedAt(emitted, PageMaker(s), j);
  }

  /** The schema-A record numbered j + 1 is made from the j-th emitted
      dictionary. */
  lemma OwRecordsAt(collectionName: string, emitted: seq<(Combination, Traits)>, j: nat)
    requires j < |emitted|
    ensures |OwRecords(collectionName, emitted)| == |emitted|
    ensures OwRecords(collectionName, emitted)[j] == OwMetadataEntry(collectionName, j + 1, emitted[j].1)
  {
    NumberedAt(emitted, OwMaker(collectionName), j);
  }

  /** The schema-B record numbered j + 1 is made from the j-th emitted
      dictionary. */
  lemma DmRecordsAt(collectionName: string, emitted: seq<(Combination, Traits)>, j: nat)
    requires j < |emitted|
    ensures |DmRecords(collectionName, emitted)| == |emitted|
    ensures DmRecords(collectionName, emitted)[j] == DmMetadataEntry(collectionName, j + 1, emitted[j].1)
  {
    NumberedAt(emitted, DmMaker(collectionName), j);
  }

  /** The loop's bookkeeping: `generated_combinations` and, in order, each
      combination emitted with its dictionary. */
  datatype Progress = Progress(seen: set<Combination>, emitted: seq<(Combination, Traits)>)

  /** The state before the first iteration (lines 198-203). */
  const Start := Progress({}, [])

  /** One artifact emitted for a combination not seen before. */
  function Emit(st: Progress, c: Combination, traits: Traits): Progress
  {
    Progress(st.seen + {c}, st.emitted + [(c, traits)])
  }

  /** The rest of the loop from state st: a combination seen before is
      skipped; otherwise its dictionary is built (which may raise), the
      artifact emitted, and the loop stops once `len(generated_combinations)
      >= collection_size` -- checked only after an emission, so a size
      below 1 still lets the first fresh combination through. */
  function Generate(dict: Combination -> Result<Traits>, combos: seq<Combination>, size: int, st: Progress)
    : Result<Progress>
    decreases |combos|
  {
    if combos == [] then Ok(st)
    else
      var c := combos[0];
      if c in st.seen then Generate(dict, combos[1..], size, st)
      else match dict(c)
        case Raised(e) => Raised(e)
        case Ok(traits) =>
          var next := Emit(st, c, traits);
          if |next.seen| >= size then Ok(next) else Generate(dict, combos[1..], size, next)
  }

  /** What `main` is left with after the loop: the pages and records, or
      the exception that stopped it. */
  function Outcome(s: Settings, combos: seq<Combination>, size: int): Result<Output>
  {
    match Generate(Dictionary(s), combos, size, Start)
    case Raised(e) => Raised(e)
    case Ok(st) => Ok(Written(s, st.emitted))
  }

  /** Lines 203-233. */
  method GenerateCollection(s: Settings, combos: seq<Combination>, size: int) returns (r: Result<Output>)
    ensures r == Outcome(s, combos, size)
  {
    ghost var dict := Dictionary(s);
    var index: nat := 1;
    var seen: set<Combination> := {};
    var pages: seq<Page> := [];
    var ow: seq<OwEntry> := [];
    var dm: seq<DmEntry> := [];
    ghost var emitted: seq<(Combination, Traits)> := [];
    var i := 0;
    while i < |combos|
      invariant 0 <= i <= |combos|
      invariant index == |emitted| + 1
      invariant pages == Pages(s, emitted)
      invariant ow == OwRecords(s.collectionName, emitted)
      invariant dm == DmRecords(s.collectionName, emitted)
      invariant Generate(dict, combos[i..], size, Progress(seen, emitted)) == Generate(dict, combos, size, Start)
    {
      var c := combos[i];
      assert combos[i..][1..] == combos[i + 1..];
      assert combos[i..][0] == c;
      if c in seen {
        i := i + 1;
        continue;
      }
      seen := seen + {c};
      var traitIndex := TraitIndexString(c);
      var traits := CollectTraits(c, s.dirs, s.names, s.wd);
      assert dict(c) == traits;
      if traits.Raised? {
        return Raised(traits.exc);
      }
      var content := UpdateTitle(s.html, s.collectionName, index);
      content := UpdateCanvasSize(content, s.width, s.height);
      content := UpdateInscriptionId(content, s.inscriptionId);
      content := UpdateTraitIndex(content, traitIndex);
      pages := pages + [Page(HtmlFileName(index), content)];
      ow := ow + [OwMetadataEntry(s.collectionName, index, traits.value)];
      dm := dm + [DmMetadataEntry(s.collectionName, index, traits.value)];
      ghost var prev := emitted;
      emitted := prev + [(c, traits.value)];
      WrittenStep(s, prev, c, traits.value);
      index := index + 1;
      if |seen| >= size {
        return Ok(Output(pages, ow, dm));
      }
      i := i + 1;
    }
    r := Ok(Output(pages, ow, dm));
  }

  /** One more artifact adds one page and one record of each kind, all
      numbered with the new count. */
  lemma WrittenStep(s: Settings, emitted: seq<(Combination, Traits)>, c: Combination, traits: Traits)
    ensures var e := emitted + [(c, traits)];
            && Pages(s, e) == Pages(s, emitted) + [PageOf(s, |e|, c)]
            && OwRecords(s.collectionName, e) == OwRecords(s.collectionName, emitted)
                                                 + [OwMetadataEntry(s.collectionName, |e|, traits)]
            && DmRecords(s.collectionName, e) == DmRecords(s.collectionName, emitted)
                                                 + [DmMetadataEntry(s.collectionName, |e|, traits)]
  {
    NumberedStep(emitted, PageMaker(s), (c, traits));
    NumberedStep(emitted, OwMaker(s.collectionName), (c, traits));
    NumberedStep(emitted, DmMaker(s.collectionName), (c, traits));
  }

  // ---------------------------------------------------------------------
  // What the loop emits, whatever the dictionaries

  /** The combinations of `combos` not in `seen`, each at its first
      occurrence, in order. */
  function Fresh(combos: seq<Combination>, seen: set<Combination>): seq<Combination>
  {
    if combos == [] then []
    else if combos[0] in seen then Fresh(combos[1..], seen)
    else [combos[0]] + Fresh(combos[1..], seen + {combos[0]})
  }

  /** The fresh combinations are distinct, not yet seen and taken from
      `combos`; if `combos` holds no repeat and nothing seen, they are
      `combos` itself. */
  lemma FreshSpec(combos: seq<Combination>, seen: set<Combination>)
    ensures Distinct(Fresh(combos, seen))
    ensures forall c :: c in Fresh(combos, seen) ==> c in combos && c !in seen
    ensures Distinct(combos) && (forall c :: c in combos ==> c !in seen) ==> Fresh(combos, seen) == combos
  {
    FreshDistinct(combos, seen);
    if Distinct(combos) && (forall c :: c in combos ==> c !in seen) {
      FreshIdentity(combos, seen);
    }
  }

  lemma {:induction false} FreshDistinct(combos: seq<Combination>, seen: set<Combination>)
    ensures Distinct(Fresh(combos, seen))
    ensures forall c :: c in Fresh(combos, seen) ==> c in combos && c !in seen
  {
    if combos != [] {
      var c := combos[0];
      var tail := combos[1..];
      assert forall x :: x in tail ==> x in combos;
      if c in seen {
        FreshDistinct(tail, seen);
      } else {
        FreshDistinct(tail, seen + {c});
        var rest := Fresh(tail, seen + {c});
        assert c !in rest;
        ConsDistinct(c, rest);
      }
    }
  }

  lemma {:induction false} FreshIdentity(combos: seq<Combination>, seen: set<Combination>)
    requires Distinct(combos) && forall c :: c in combos ==> c !in seen
    ensures Fresh(combos, seen) == combos
  {
    if combos != [] {
      var c := combos[0];
      var tail := combos[1..];
      assert forall i :: 0 <= i < |tail| ==> tail[i] == combos[i + 1];
      assert c !in tail;
      assert forall x :: x in tail ==> x in combos && x != c;
      FreshIdentity(tail, seen + {c});
    }
  }

  /** Every combination of `combos` that was not seen is emitted. */
  lemma {:induction false} FreshComplete(combos: seq<Combination>, seen: set<Combination>, c: Combination)
    requires c in combos && c !in seen
    ensures c in Fresh(combos, seen)
  {
    if combos[0] != c {
      assert c in combos[1..];
      if combos[0] in seen {
        FreshComplete(combos[1..], seen, c);
      } else {
        FreshComplete(combos[1..], seen + {combos[0]}, c);
      }
    }
  }

  /** Order of emission: reading one more combination appends it exactly
      when it is neither seen nor earlier in the list, so each combination
      is emitted at its first occurrence and in the order of `combos`. */
  lemma {:induction false} FreshAppend(combos: seq<Combination>, x: Combination, seen: set<Combination>)
    ensures Fresh(combos + [x], seen) == Fresh(combos, seen) + (if x in seen || x in combos then [] else [x])
    decreases |combos|
  {
    if combos == [] {
      assert [] + [x] == [x];
    } else {
      var c := combos[0];
      var tail := combos[1..];
      assert (combos + [x])[1..] == tail + [x];
      assert x in combos <==> x == c || x in tail;
      if c in seen {
        FreshAppend(tail, x, seen);
      } else {
        FreshAppend(tail, x, seen + {c});
      }
    }
  }

  /** The reference the loop is measured against: emit every combination
      of `todo`, in order, with no skipping and no stopping; raise with the
      first combination whose dictionary cannot be built. */
  function EmitAll(dict: Combination -> Result<Traits>, st: Progress, todo: seq<Combination>): Result<Progress>
    decreases |todo|
  {
    if todo == [] then Ok(st)
    else match dict(todo[0])
      case Raised(e) => Raised(e)
      case Ok(traits) => EmitAll(dict, Emit(st, todo[0], traits), todo[1..])
  }

  /** Emitting succeeds exactly when every dictionary can be built. */
  lemma {:induction false} EmitAllOk(dict: Combination -> Result<Traits>, st: Progress, todo: seq<Combination>)
    ensures EmitAll(dict, st, todo).Ok? <==> forall j :: 0 <= j < |todo| ==> dict(todo[j]).Ok?
    decreases |todo|
  {
    if todo != [] {
      assert forall j :: 0 < j < |todo| ==> todo[j] == todo[1..][j - 1];
      if dict(todo[0]).Ok? {
        EmitAllOk(dict, Emit(st, todo[0], dict(todo[0]).value), todo[1..]);
      }
    }
  }

  /** When emitting raises, it raises what the first dictionary that cannot
      be built raises. */
  lemma {:induction false} EmitAllRaise(dict: Combination -> Result<Traits>, st: Progress, todo: seq<Combination>)
    requires EmitAll(dict, st, todo).Raised?
    ensures exists j :: 0 <= j < |todo| && dict(todo[j]).Raised? && dict(todo[j]).exc == EmitAll(dict, st, todo).exc
                        && forall i :: 0 <= i < j ==> dict(todo[i]).Ok?
    decreases |todo|
  {
    if dict(todo[0]).Raised? {
      assert 0 < |todo| && dict(todo[0]).exc == EmitAll(dict, st, todo).exc;
    } else {
      var next := Emit(st, todo[0], dict(todo[0]).value);
      var tail := todo[1..];
      EmitAllRaise(dict, next, tail);
      var j :| 0 <= j < |tail| && dict(tail[j]).Raised? && dict(tail[j]).exc == EmitAll(dict, next, tail).exc
               && forall i :: 0 <= i < j ==> dict(tail[i]).Ok?;
      assert todo[j + 1] == tail[j];
      assert forall i :: 0 < i <= j ==> todo[i] == tail[i - 1];
    }
  }

  /** Emitting keeps what was emitted before and adds one item per
      combination. */
  lemma {:induction false} EmitAllShape(dict: Combination -> Result<Traits>, st: Progress, todo: seq<Combination>)
    requires EmitAll(dict, st, todo).Ok?
    ensures var st' := EmitAll(dict, st, todo).value;
            |st'.emitted| == |st.emitted| + |todo| && st'.emitted[..|st.emitted|] == st.emitted
    decreases |todo|
  {
    if todo != [] {
      var next := Emit(st, todo[0], dict(todo[0]).value);
      EmitAllShape(dict, next, todo[1..]);
      var st' := EmitAll(dict, next, todo[1..]).value;
      assert st'.emitted[..|st.emitted|] == st'.emitted[..|next.emitted|][..|st.emitted|];
    }
  }

  /** The j-th item emitted is the j-th combination with its dictionary. */
  lemma {:induction false} EmitAllAt(dict: Combination -> Result<Traits>, st: Progress, todo: seq<Combination>, j: nat)
    requires EmitAll(dict, st, todo).Ok? && j < |todo|
    ensures dict(todo[j]).Ok?
    ensures |st.emitted| + j < |EmitAll(dict, st, todo).value.emitted|
    ensures EmitAll(dict, st, todo).value.emitted[|st.emitted| + j] == (todo[j], dict(todo[j]).value)
    decreases |todo|
  {
    var next := Emit(st, todo[0], dict(todo[0]).value);
    var tail := todo[1..];
    EmitAllShape(dict, next, tail);
    var st' := EmitAll(dict, next, tail).value;
    if j == 0 {
      assert st'.emitted[|st.emitted|] == st'.emitted[..|next.emitted|][|st.emitted|];
    } else {
      EmitAllAt(dict, next, tail, j - 1);
      assert tail[j - 1] == todo[j];
      assert |next.emitted| + (j - 1) == |st.emitted| + j;
    }
  }

  /** The loop from state st (stopped short of the size unless nothing is
      seen yet) emits the first m combinations not seen before, m being what
      is left of the size but at least one, and at most what there is. */
  lemma {:induction false} GenerateEmits(dict: Combination -> Result<Traits>, rest: seq<Combination>, size: int,
                                         st: Progress)
    requires st.seen == {} || |st.seen| < size
    ensures var pending := Fresh(rest, st.seen);
            Generate(dict, rest, size, st) == EmitAll(dict, st, pending[..Min(|pending|, Max(size - |st.seen|, 1))])
    decreases |rest|
  {
    if rest == [] {
      return;
    }
    var pending := Fresh(rest, st.seen);
    var m := Min(|pending|, Max(size - |st.seen|, 1));
    var todo := pending[..m];
    var c, tail := rest[0], rest[1..];
    if c in st.seen {
      GenerateEmits(dict, tail, size, st);
      return;
    }
    var pending' := Fresh(tail, st.seen + {c});
    assert pending == [c] + pending';
    assert m >= 1 && todo[0] == c;
    match dict(c)
    case Raised(e) =>
    case Ok(traits) =>
      var next := Emit(st, c, traits);
      assert |next.seen| == |st.seen| + 1;
      if |next.seen| >= size {
        assert m == 1 && todo[1..] == [];
      } else {
        GenerateEmits(dict, tail, size, next);
        var m' := Min(|pending'|, Max(size - |next.seen|, 1));
        assert m == m' + 1;
        assert todo[1..] == pending'[..m'];
      }
  }

  /** The whole loop: it behaves as emitting, in order, the first K
      distinct combinations it is given, K being the requested size but at
      least one and at most the number available -- including raising with
      the first of those whose dictionary cannot be built. */
  lemma GenerationEmits(dict: Combination -> Result<Traits>, combos: seq<Combination>, size: int)
    ensures var pending := Fresh(combos, {});
            var k := Min(|pending|, Max(size, 1));
            && Distinct(pending[..k])
            && (forall c :: c in pending[..k] ==> c in combos)
            && Generate(dict, combos, size, Start) == EmitAll(dict, Start, pending[..k])
  {
    var pending := Fresh(combos, {});
    var k := Min(|pending|, Max(size, 1));
    GenerateEmits(dict, combos, size, Start);
    FreshSpec(combos, {});
    assert forall x :: x in pending[..k] ==> x in combos by {
      assert forall x :: x in pending[..k] ==> x in pending;
    }
    assert Distinct(pending[..k]) by {
      assert forall i :: 0 <= i < k ==> pending[..k][i] == pending[i];
    }
  }

  // ---------------------------------------------------------------------
  // What the loop writes

  /** When it does not raise, artifact j + 1 is the page `0000<j+1>.html`
      showing the j-th distinct combination, with its two records named
      "<collection name> #<j + 1>" and built from that combination's
      dictionary. */
  lemma GenerationArtifact(s: Settings, combos: seq<Combination>, size: int, j: nat)
    requires Outcome(s, combos, size).Ok? && j < |Outcome(s, combos, size).value.pages|
    ensures var out := Outcome(s, combos, size).value;
            && j < |Fresh(combos, {})|
            && var c := Fresh(combos, {})[j];
               && TraitsFor(c, s.dirs, s.names, s.wd).Ok?
               && var traits := TraitsFor(c, s.dirs, s.names, s.wd).value;
                  && |out.ow| == |out.pages| && |out.dm| == |out.pages|
                  && out.pages[j] == PageOf(s, j + 1, c)
                  && out.ow[j] == OwMetadataEntry(s.collectionName, j + 1, traits)
                  && out.dm[j] == DmMetadataEntry(s.collectionName, j + 1, traits)
  {
    var dict := Dictionary(s);
    var pending := Fresh(combos, {});
    var k := Min(|pending|, Max(size, 1));
    var todo := pending[..k];
    GenerationEmits(dict, combos, size);
    var st := EmitAll(dict, Start, todo).value;
    EmitAllShape(dict, Start, todo);
    EmitAllAt(dict, Start, todo, j);
    assert todo[j] == pending[j];
    assert dict(todo[j]) == TraitsFor(todo[j], s.dirs, s.names, s.wd);
    PagesAt(s, st.emitted, j);
    OwRecordsAt(s.collectionName, st.emitted, j);
    DmRecordsAt(s.collectionName, st.emitted, j);
  }

  /** With distinct combinations, as the generator supplies them, the loop
      emits `min(max(collection_size, 1), len(combinations))` artifacts, in
      the order given. */
  lemma GenerationCount(s: Settings, combos: seq<Combination>, size: int)
    requires Distinct(combos) && Outcome(s, combos, size).Ok?
    ensures |Outcome(s, combos, size).value.pages| == Min(|combos|, Max(size, 1))
    ensures forall j :: 0 <= j < |Outcome(s, combos, size).value.pages| ==>
              Outcome(s, combos, size).value.pages[j] == PageOf(s, j + 1, combos[j])
  {
    var dict := Dictionary(s);
    FreshSpec(combos, {});
    var k := Min(|combos|, Max(size, 1));
    GenerationEmits(dict, combos, size);
    EmitAllShape(dict, Start, combos[..k]);
    forall j | 0 <= j < k
      ensures Outcome(s, combos, size).value.pages[j] == PageOf(s, j + 1, combos[j])
    {
      GenerationArtifact(s, combos, size, j);
    }
  }

  /** Artifacts are numbered 1, 2, 3, ...: artifact j + 1 is written to
      its zero-padded "<j + 1>.html" and both of its records are named "<collection name>
      #<j + 1>", the OW attribute list holding the DM dictionary's items in
      order. */
  lemma GenerationNumbering(s: Settings, combos: seq<Combination>, size: int, j: nat)
    requires Outcome(s, combos, size).Ok? && j < |Outcome(s, combos, size).value.pages|
    ensures var out := Outcome(s, combos, size).value;
            && |out.ow| == |out.pages| && |out.dm| == |out.pages|
            && out.pages[j].fileName == HtmlFileName(j + 1)
            && out.ow[j].meta.name == DisplayName(s.collectionName, j + 1)
            && out.dm[j].name == out.ow[j].meta.name
            && ItemsOf(out.ow[j].meta.attributes) == out.dm[j].attributes
  {
    var st := Generate(Dictionary(s), combos, size, Start).value;
    WrittenNumbering(s, st.emitted, j);
  }

  /** No two pages of a run share a file name. */
  lemma GenerationFileNames(s: Settings, combos: seq<Combination>, size: int, i: nat, j: nat)
    requires Outcome(s, combos, size).Ok?
    requires i < |Outcome(s, combos, size).value.pages| && j < |Outcome(s, combos, size).value.pages|
    ensures var out := Outcome(s, combos, size).value;
            out.pages[i].fileName == out.pages[j].fileName <==> i == j
  {
    var st := Generate(Dictionary(s), combos, size, Start).value;
    WrittenFileNames(s, st.emitted, i, j);
  }

  /** The numbering facts for any sequence of emitted artifacts. */
  lemma WrittenNumbering(s: Settings, emitted: seq<(Combination, Traits)>, j: nat)
    requires j < |emitted|
    ensures var out := Written(s, emitted);
            && out.pages[j].fileName == HtmlFileName(j + 1)
            && out.ow[j].meta.name == DisplayName(s.collectionName, j + 1)
            && out.dm[j].name == out.ow[j].meta.name
            && ItemsOf(out.ow[j].meta.attributes) == out.dm[j].attributes
  {
    PagesAt(s, emitted, j);
    OwRecordsAt(s.collectionName, emitted, j);
    DmRecordsAt(s.collectionName, emitted, j);
    AttributesRoundTrip(emitted[j].1);
  }

  /** Distinct positions among emitted artifacts get distinct file names. */
  lemma WrittenFileNames(s: Settings, emitted: seq<(Combination, Traits)>, i: nat, j: nat)
    requires i < |emitted| && j < |emitted|
    ensures var out := Written(s, emitted);
            out.pages[i].fileName == out.pages[j].fileName <==> i == j
  {
    assert HtmlFileName(i + 1) != HtmlFileName(j + 1) || i == j by {
      if HtmlFileName(i + 1) == HtmlFileName(j + 1) {
        HtmlFileNameInjective(i + 1, j + 1);
      }
    }
    PagesAt(s, emitted, i);
    PagesAt(s, emitted, j);
  }

  /** The loop never raises when every layer directory has a label and
      every combination is a list of trait numbers no longer than the list
      of layer directories. */
  lemma GenerationOk(s: Settings, combos: seq<Combination>, size: int)
    requires forall i :: 0 <= i < |s.dirs| ==> s.dirs[i] in s.names
    requires forall c :: c in combos ==> |c| <= |s.dirs| && Positive(c)
    ensures Outcome(s, combos, size).Ok?
  {
    var dict := Dictionary(s);
    var pending := Fresh(combos, {});
    var todo := pending[..Min(|pending|, Max(size, 1))];
    GenerationEmits(dict, combos, size);
    forall j | 0 <= j < |todo| ensures dict(todo[j]).Ok? {
      assert todo[j] in todo;
      TraitsBuilt(todo[j], s.dirs, s.names, s.wd);
    }
    EmitAllOk(dict, Start, todo);
  }

  /** When the loop raises, it raises what building the dictionary of the
      first distinct combination that has none raises, before any later
      combination is looked at. */
  lemma GenerationRaise(s: Settings, combos: seq<Combination>, size: int)
    requires Outcome(s, combos, size).Raised?
    ensures exists j :: 0 <= j < |Fresh(combos, {})|
                        && TraitsFor(Fresh(combos, {})[j], s.dirs, s.names, s.wd).Raised?
                        && TraitsFor(Fresh(combos, {})[j], s.dirs, s.names, s.wd).exc == Outcome(s, combos, size).exc
                        && forall i :: 0 <= i < j ==> TraitsFor(Fresh(combos, {})[i], s.dirs, s.names, s.wd).Ok?
  {
    var dict := Dictionary(s);
    var pending := Fresh(combos, {});
    var todo := pending[..Min(|pending|, Max(size, 1))];
    GenerationEmits(dict, combos, size);
    EmitAllRaise(dict, Start, todo);
    var j :| 0 <= j < |todo| && dict(todo[j]).Raised? && dict(todo[j]).exc == EmitAll(dict, Start, todo).exc
             && forall i :: 0 <= i < j ==> dict(todo[i]).Ok?;
    assert forall i :: 0 <= i <= j ==> todo[i] == pending[i];
  }
}
