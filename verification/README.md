# A verified model of the HTML collection generator

`Heimylips/generatehtml.py` builds a generative art collection from layer
directories. Each directory in the working directory whose name starts with a
number is a layer. A layer is labelled by the text after its first space, and
each regular file in it is a trait. The script:

- enumerates every combination of one trait per layer, in the order of
  `itertools.product`;
- drops the combinations the user excludes;
- optionally shuffles them;
- for each combination not seen before, writes an HTML page from a template
  and appends two metadata records (schemas "OW" and "DM").

This project models that core in Dafny and proves what the script does with
its inputs. The modules follow the script:

| module | file | what it models |
|---|---|---|
| `Python` | python.dfy | exceptions as a `Result`, `None` as `Option`, negative indexing and slicing |
| `Text` | text.dfy | `str.split`, `split(' ', 1)`, `strip`, `replace`, `endswith`, `os.path.splitext(...)[0]` |
| `Numerals` | numerals.dfy | `str(n)`, `int(s)` on digits, `f"{n:0w}"` |
| `Sorting` | sorting.dfy | `sorted()` on names: code-point lexicographic order |
| `Listing` | listing.dfy | the directory listings as values, `get_trait_value`, the trait-name search |
| `Layers` | layers.dfy | layer discovery in `main` (lines 131-143) |
| `Sizes` | sizes.dfy | the maximum and adjusted sizes (lines 150-152, 167-173) |
| `Combinations` | combinations.dfy | `generate_combinations` |
| `Exclusions` | exclusions.dfy | `parse_exclusions` |
| `Template` | template.dfy | the `update_*` helpers, the file name of `save_html_file`, the trait-index string |
| `Metadata` | metadata.dfy | the trait dictionary and `generate_metadata_entry_ow` / `_dm` |
| `TraitMap` | traits.dfy | the trait dictionary of one combination (lines 211-217) |
| `Generation` | generation.dfy | the generation loop (lines 203-233) |
| `Prompts` | prompts.dfy | the inscription-id prompt (lines 123-128) |
| `Pipeline` | pipeline.dfy | `main` from layer discovery to the end of the generation loop (lines 130-233) |

The loops of the script are methods with loop invariants. Each method is
proved equal to a function, and the script's promises are proved as lemmas
about those functions:

- `DiscoverLayers`
- `MaxCollectionSize`
- `ExcludedTotal` / `AdjustedMaxSize`
- `ParseExclusions`
- `FindTraitIndex`
- `CollectTraits`
- `GenerateCollection`
- `PromptInscriptionId`
- `RunScript`, which chains the others as `main` does

Exceptions are part of the model: the method or function returns
`Raised(...)`. A run of `main` can raise:

- `KeyError` for a layer directory without a label, while reading the
  exclusions or in the generation loop;
- `IndexError` from `trait_counts[...]` in the adjusted size.

Two more are modelled for the functions taken on their own, but cannot arise
from `main` (`Pipeline.ProduceRaisesKeyError`): `IndexError` from
`layer_dirs[i]` in the dictionary loop, and `IndexError` from
`get_trait_value` with an index below 1. Every combination handed to the loop
has one trait number of at least 1 per entry of `trait_counts`, which has no
more entries than `layer_dirs`.

Files and directories are a value, `WorkDir`. It lists the top-level entries,
which are directories or not, and each directory's entries, which are regular
files or not.

## Model

| member | source | states |
|---|---|---|
| `Generation.GenerateCollection` | Heimylips/generatehtml.py:203-233 | The loop yields the pages and records of `Outcome`, or the exception that stopped it. |
| `Generation.GenerationEmits` | Heimylips/generatehtml.py:203-233 | The loop emits the first `min(max(size, 1), n)` distinct combinations of the list in list order, and nothing else. Here `n` is the number of distinct combinations. Because the size is checked only after an emission, a size of zero or less still lets the first new combination through when there is one; an empty list gives nothing. |
| `Generation.GenerateEmits` | Heimylips/generatehtml.py:205-233 | The same statement from any loop state: the rest of the loop emits the not-yet-seen combinations, up to the remaining size. |
| `Generation.GenerationArtifact` | Heimylips/generatehtml.py:210-230 | Artifact j + 1 comes from the j-th new combination. Its page is the rendered template with that combination's trait index. Both records hold that combination's trait dictionary, numbered j + 1. |
| `Generation.GenerationCount` | Heimylips/generatehtml.py:203-233 | For a duplicate-free list, exactly `min(len, max(size, 1))` pages are written, and page j + 1 shows the j-th combination. |
| `Generation.GenerationNumbering` | Heimylips/generatehtml.py:21 | Every artifact j + 1, the first included, has the file name for index j + 1. Both of its records carry the display name `"<collection> #<index>"`, and its OW attributes are the DM dictionary's items in order. |
| `Generation.GenerationFileNames` | Heimylips/generatehtml.py:21 | Two pages of one run share a file name exactly when they are the same page. |
| `Generation.WrittenNumbering` | Heimylips/generatehtml.py:221-230 | The same per-artifact numbering facts for any sequence of emitted artifacts. |
| `Generation.WrittenFileNames` | Heimylips/generatehtml.py:221-226 | Among any emitted artifacts, file names are equal exactly for the same artifact. |
| `Generation.GenerationOk` | Heimylips/generatehtml.py:211-217 | With every layer directory labelled, and every combination positive and no longer than the layer list, the loop cannot raise. |
| `Generation.GenerationRaise` | Heimylips/generatehtml.py:211-217 | When the loop raises, the exception is the one raised by building the dictionary of the first new combination that fails. Every earlier new combination was emitted. |
| `Generation.FreshSpec` | Heimylips/generatehtml.py:206-208 | The new combinations are duplicate-free, come from the list and were not seen. A duplicate-free list with nothing seen is kept whole. |
| `Generation.FreshComplete` | Heimylips/generatehtml.py:206-208 | Every combination of the list that was not seen is among the new ones. |
| `Generation.FreshAppend` | Heimylips/generatehtml.py:206-208 | The new combinations keep list order: one more combination at the end of the list adds itself at the end, unless it was seen or is a repeat. |
| `Generation.EmitAllOk` | Heimylips/generatehtml.py:211-230 | Emitting a list of combinations succeeds exactly when every one of their dictionaries builds. |
| `Generation.EmitAllRaise` | Heimylips/generatehtml.py:211-230 | A failed emission raises the exception of the first dictionary that fails. |
| `Generation.EmitAllAt` | Heimylips/generatehtml.py:228-230 | The j-th emitted artifact is the j-th combination with its dictionary. |
| `Generation.EmitAllShape` | Heimylips/generatehtml.py:228-230 | Emission only appends, one artifact per combination. |
| `Generation.PagesAt` | Heimylips/generatehtml.py:219-226 | Page j + 1 is the template rendered for the j-th emitted combination under index j + 1. |
| `Generation.OwRecordsAt` | Heimylips/generatehtml.py:228 | OW record j + 1 is built from the j-th emitted dictionary. |
| `Generation.DmRecordsAt` | Heimylips/generatehtml.py:229 | DM record j + 1 is built from the j-th emitted dictionary. |
| `TraitMap.CollectTraits` | Heimylips/generatehtml.py:211-217 | The loop that builds one combination's dictionary computes `TraitsFor`. |
| `TraitMap.TraitsOk` | Heimylips/generatehtml.py:212-214 | The dictionary builds exactly when each layer of the combination has a directory, the directory has a label and its value is read without raising. |
| `TraitMap.TraitsRaise` | Heimylips/generatehtml.py:212-215 | A failure is one of three, at the first failing layer: IndexError past the end of `layer_dirs`, KeyError for an unlabelled directory, or the exception of `get_trait_value`. |
| `TraitMap.TraitsStuck` | Heimylips/generatehtml.py:211-217 | Once raised, later layers change nothing. |
| `TraitMap.TraitsLookup` | Heimylips/generatehtml.py:216-217 | A dictionary built without failure has distinct keys. Each label reads back the last truthy value stored under it. |
| `TraitMap.FittingRaisesKeyError` | Heimylips/generatehtml.py:211-215 | For a positive combination no longer than the layer list, the dictionary loop can fail only with KeyError. |
| `TraitMap.TraitsBuilt` | Heimylips/generatehtml.py:211-217 | A positive combination, against labelled directories at least as many as its layers, always builds. |
| `TraitMap.DistinctLabels` | Heimylips/generatehtml.py:211-217 | With distinct labels, each layer's label maps to the value `get_trait_value` gives for that layer when that value is truthy, and is absent otherwise. |
| `TraitMap.PositiveValues` | Heimylips/generatehtml.py:53-55 | A positive trait index never makes `get_trait_value` raise. |
| `TraitMap.LastValueOwn` | Heimylips/generatehtml.py:216-217 | Among distinct labels, the last value stored under a layer's label is that layer's own value, when truthy. |
| `TraitMap.LastValueNone` | Heimylips/generatehtml.py:216-217 | A key that is no layer's label is never stored. |
| `Listing.GetTraitValueSpec` | Heimylips/generatehtml.py:51-55 | For index >= 1 the call never raises. It returns a value exactly when index <= the number of regular files, and that value is the stem of one of those files. |
| `Listing.GetTraitValueRank` | Heimylips/generatehtml.py:51-55 | For index in `1..n` the value is the stem of the file of rank `index`: fewer than `index` files sort below it and at least `index` sort at or below it; with distinct names exactly `index - 1` sort below it. |
| `Listing.GetTraitValueBelowOne` | Heimylips/generatehtml.py:53-54 | For index <= 0 it raises exactly when `index - 1` falls off the front of the file list. Index 0 returns the stem of the last file. |
| `Listing.FindTraitIndex` | Heimylips/generatehtml.py:77-80 | The search loop finds the 1-based position of the first listing entry whose stem is the trait name. |
| `Listing.FirstMatchSpec` | Heimylips/generatehtml.py:77-80 | The position found has that stem and no earlier entry has it. Nothing is found exactly when no entry has that stem. |
| `Listing.ExclusionIndexNamesTrait` | Heimylips/generatehtml.py:77-80 | In a directory of files only, `get_trait_value` at the position found returns the trait name. |
| `Listing.OnlyFilesListing` | Heimylips/generatehtml.py:52 | When a directory holds regular files only, the file filter keeps every entry. |
| `Layers.DiscoverLayers` | Heimylips/generatehtml.py:131-143 | The discovery loop returns the sorted layer directories, the file count of each labelled one and the label map. |
| `Layers.LayerDirsSpec` | Heimylips/generatehtml.py:131 | The layer directories are sorted. They are exactly the directory entries whose name up to the first space is a number. |
| `Layers.LayerCandidatesSpec` | Heimylips/generatehtml.py:131 | The filter keeps exactly the directory entries with a numeric prefix. |
| `Layers.Label` | Heimylips/generatehtml.py:134-136 | A directory has a label exactly when its name contains a space. |
| `Layers.LayerNamesSpec` | Heimylips/generatehtml.py:134-140 | `layer_names` holds exactly the layer directories with a space, each mapped to the text after the first space. |
| `Layers.CountsAligned` | Heimylips/generatehtml.py:137-142 | When every directory is labelled, `trait_counts[i]` is the file count of `layer_dirs[i]`. |
| `Layers.CountsShift` | Heimylips/generatehtml.py:137-142 | A skipped directory shifts `trait_counts` against `layer_dirs`. The count at its position belongs to the next directory. |
| `Layers.LabelledAll` | Heimylips/generatehtml.py:137-142 | When every directory is labelled, none is skipped. |
| `Sizes.MaxCollectionSize` | Heimylips/generatehtml.py:150-152 | The loop computes the product of the trait counts. |
| `Sizes.MaxIsSpaceSize` | Heimylips/generatehtml.py:150-152 | That product is the number of combinations `itertools.product` yields. |
| `Sizes.ExcludedTotal` | Heimylips/generatehtml.py:168-170 | The loop multiplies `trait_counts[layer - 1]` over the exclusion set, whatever the set's iteration order. It fails exactly when some layer number is out of range. |
| `Sizes.AdjustedMaxSize` | Heimylips/generatehtml.py:167-173 | The adjusted size (`AdjustedSize`) is the maximum when there are no exclusions, and the maximum minus that product otherwise. IndexError is raised for a layer number past the counts. |
| `Sizes.ExcludedProductPositive` | Heimylips/generatehtml.py:168-170 | With non-empty layers the excluded product is at least 1. |
| `Sizes.AdjustedUndercounts` | Heimylips/generatehtml.py:167-173 | Unless there are exactly two layers, any exclusion makes the adjusted size smaller than the number of combinations actually left. |
| `Sizes.AdjustedMaxExample` | Heimylips/generatehtml.py:167-173 | A concrete case: counts [2, 1] with exclusion (1, 1) give an excluded product of 2, hence adjusted size 0, while one combination survives the filter. |
| `Combinations.GenerateCombinations` | Heimylips/generatehtml.py:25-33 | Without shuffling, the result is the `[:size]` slice, Python's negative slice included, of the non-excluded product. In both modes it has that slice's length, is duplicate-free, and holds in-range, non-excluded combinations only. |
| `Combinations.OrderedGeneration` | Heimylips/generatehtml.py:25-33 | Without shuffling, the result is a prefix of the valid combinations in strictly increasing lexicographic order, and `min(size, n)` long for size >= 0. |
| `Combinations.ShuffledGeneration` | Heimylips/generatehtml.py:29-31 | With shuffling, the result is a prefix of a permutation of the valid combinations, of the same length as without shuffling. |
| `Combinations.ValidCombinationsSpec` | Heimylips/generatehtml.py:26-27 | A combination is kept exactly when each entry i lies in `1..trait_counts[i]` and the whole tuple is not in the exclusion set. The list is increasing and duplicate-free. |
| `Combinations.ValidIgnoresExclusions` | Heimylips/generatehtml.py:27 | With other than two layers the filter removes nothing, because the exclusion set holds pairs. |
| `Combinations.ProductMembers` | Heimylips/generatehtml.py:26 | The product holds exactly the tuples with entry i in `1..trait_counts[i]`. |
| `Combinations.ProductLength` | Heimylips/generatehtml.py:26 | The product has `Prod(trait_counts)` elements. |
| `Combinations.ProductIncreasing` | Heimylips/generatehtml.py:26 | The product comes in lexicographic order, last layer fastest. |
| `Combinations.RemoveExcluded` | Heimylips/generatehtml.py:27 | The filter keeps exactly the non-excluded tuples. |
| `Combinations.RemoveExcludedIncreasing` | Heimylips/generatehtml.py:27 | The filter keeps the order. |
| `Combinations.Shuffle` | Heimylips/generatehtml.py:30 | Shuffling permutes, and keeps a duplicate-free list duplicate-free. |
| `Exclusions.ParseExclusions` | Heimylips/generatehtml.py:57-110 | The loop over the comma-separated entries computes `ExclusionSet`: the union of what each entry adds, or the first KeyError. |
| `Exclusions.AddEntry` | Heimylips/generatehtml.py:61-109 | One entry adds its pairs to the set, or raises. |
| `Exclusions.AddNamedTrait` | Heimylips/generatehtml.py:74-82 | The two-part form adds `(layer, position)` when the trait is found, or raises KeyError. |
| `Exclusions.AddLayerExclusion` | Heimylips/generatehtml.py:95-107 | The three-part form adds the pairs of `LayerPairs` when the trait is found, or raises KeyError. |
| `Exclusions.AddLayer` | Heimylips/generatehtml.py:104-107 | The inner loop adds every trait index of the excluded layer together with the specific trait. |
| `Exclusions.LayerPairsMembers` | Heimylips/generatehtml.py:104-107 | The three-part form excludes exactly every index of the layer, plus the specific trait unless the layer is empty. |
| `Exclusions.EmptyAnswer` | Heimylips/generatehtml.py:57-110 | An empty answer excludes nothing. |
| `Exclusions.AnswerConcat` | Heimylips/generatehtml.py:59-60 | When both parts succeed, the set of "x,y" is the union of the sets of x and y. The order of entries does not matter, and repeating an entry changes nothing. |
| `Exclusions.AnswerPairsInRange` | Heimylips/generatehtml.py:70-107 | Every pair has a layer number in `1..len(layer_dirs)` and a trait index within that layer's listing. |
| `Exclusions.AnswerRaises` | Heimylips/generatehtml.py:75 | Parsing raises only KeyError for an unlabelled layer directory. With every directory labelled it never raises. |
| `Exclusions.EntryRaises` | Heimylips/generatehtml.py:75 | An entry raises only KeyError for an unlabelled layer directory. |
| `Exclusions.ExcludeTraitRaises` | Heimylips/generatehtml.py:74-75 | The two-part form raises only for the named layer's missing label. |
| `Exclusions.ExcludeLayerRaises` | Heimylips/generatehtml.py:95-96 | The three-part form raises only for the specific layer's missing label. |
| `Exclusions.NamedTraitExcluded` | Heimylips/generatehtml.py:77-82 | In a directory of files only, an excluded trait index is the index whose `get_trait_value` is the trait name. |
| `Exclusions.AccumulateRaises` | Heimylips/generatehtml.py:60-110 | The reading raises exactly when some entry raises, and then with the exception of the first entry that raises; every earlier entry succeeded. |
| `Exclusions.AnswerFirstRaise` | Heimylips/generatehtml.py:59-110 | A failing answer raises the exception of its first failing comma-separated entry, and every earlier entry parses. |
| `Exclusions.AccumulateMembers` | Heimylips/generatehtml.py:60-110 | Every pair of the result comes from some entry. |
| `Template.UpdateTitleSubstitutes` | Heimylips/generatehtml.py:7-8 | Every occurrence of the title placeholder, scanning from the left, is replaced by `<title>{name} #{index}</title>`, keeping the text between occurrences. So a template without one is unchanged, and a single one is spliced in place. |
| `Template.UpdateCanvasSizeSubstitutes` | Heimylips/generatehtml.py:10-12 | Every width placeholder is substituted by `width: {w}px;` first, then every height placeholder by `height: {h}px;` in that result, each in the sense above. |
| `Template.UpdateInscriptionIdSubstitutes` | Heimylips/generatehtml.py:14-15 | Every script placeholder is substituted by the script tag naming `/content/{inscription_id}`. |
| `Template.UpdateTraitIndexSubstitutes` | Heimylips/generatehtml.py:17-18 | Every trait-index placeholder is substituted by the div holding the trait-index string. |
| `Template.RenderPlain` | Heimylips/generatehtml.py:221-225 | A template without any placeholder is written unchanged. |
| `Template.ReplaceSubstitutes` | Heimylips/generatehtml.py:8 | `str.replace` cuts the text at the left-to-right occurrences of the pattern and joins the pieces with the new text, whatever the number of occurrences. A text without the pattern is unchanged, and a single occurrence is spliced in place. |
| `Template.TraitIndexRoundTrip` | Heimylips/generatehtml.py:210 | For values 0..99, the trait-index string has two digits per layer and decodes back to the combination. |
| `Template.TraitIndexComplete` | Heimylips/generatehtml.py:210 | Every even-length digit string is the trait-index string of what it decodes to. |
| `Template.TwoDigits` | Heimylips/generatehtml.py:210 | Two digits are the `:02` format of their value. |
| `Template.HtmlFileNameShape` | Heimylips/generatehtml.py:21 | For indices up to 99999, the file name is five digits that read back as the index, followed by ".html". |
| `Template.HtmlFileNameInjective` | Heimylips/generatehtml.py:21 | Distinct indices get distinct file names. |
| `Template.DisplayNameInjective` | Heimylips/generatehtml.py:39 | Distinct indices get distinct display names. |
| `Metadata.RecordsAgree` | Heimylips/generatehtml.py:35-49 | Both records carry an empty id and the same display name. The OW attribute list holds the DM dictionary's items in order, each trait type once, with the value the dictionary gives it. |
| `Metadata.AttributesRoundTrip` | Heimylips/generatehtml.py:40 | The attribute list loses nothing: its items read back as the dictionary. |
| `Metadata.PutLookup` | Heimylips/generatehtml.py:217 | `traits[k] = v` makes k read v and leaves every other key as it was. |
| `Metadata.PutKeys` | Heimylips/generatehtml.py:217 | An existing key keeps its place and a new key goes last, as a Python dict orders them. |
| `Metadata.PutDistinct` | Heimylips/generatehtml.py:217 | Writing a key never duplicates one. |
| `Prompts.PromptInscriptionId` | Heimylips/generatehtml.py:123-128 | The prompt loop keeps the first answer that ends with "i0", after rejecting every earlier one. It obtains none only when no answer is valid. |
| `Prompts.ValidInscriptionIdShape` | Heimylips/generatehtml.py:124 | An id is accepted exactly when it is some text followed by "i0". |
| `Text.SplitJoin` | Heimylips/generatehtml.py:59 | `str.split(sep)` inverts joining parts that contain no separator. |
| `Text.JoinSplit` | Heimylips/generatehtml.py:59 | Joining the parts of a split gives back the text. |
| `Text.SplitOnce` | Heimylips/generatehtml.py:131-134 | `split(' ', 1)` gives one part exactly when there is no space. Otherwise it gives the text before the first space and everything after it. |
| `Text.StripSpec` | Heimylips/generatehtml.py:61 | `strip()` removes leading and trailing whitespace only. The result neither starts nor ends with whitespace. |
| `Text.ReplaceUnique` | Heimylips/generatehtml.py:8 | One occurrence of the placeholder is replaced in place. |
| `Text.ReplaceAbsent` | Heimylips/generatehtml.py:8 | A text without the placeholder is unchanged. |
| `Text.ReplaceSplit` | Heimylips/generatehtml.py:8 | `s.replace(p, n)` equals `n.join(s.split(p))` for a non-empty pattern. |
| `Text.JoinSplitOn` | Heimylips/generatehtml.py:8 | Joining the pieces of `s.split(p)` with p gives back s. |
| `Text.SplitOnDecomposes` | Heimylips/generatehtml.py:8 | The pieces of `s.split(p)` rebuild s, and no occurrence of p starts inside a piece or overlaps its end. |
| `Text.SplitOnUnique` | Heimylips/generatehtml.py:8 | Any cut of s with those properties is the one `s.split(p)` makes. |
| `Text.ReplaceSelf` | Heimylips/generatehtml.py:8 | Replacing a pattern by itself gives back the text, however many times the pattern occurs. |
| `Text.StemOfSpec` | Heimylips/generatehtml.py:54 | `os.path.splitext(f)[0]` is a prefix of f that drops at most the last extension of the last path component. |
| `Text.StemOfAppend` | Heimylips/generatehtml.py:54 | The stem of "name.ext" is "name". |
| `Numerals.ParseDecimal` | Heimylips/generatehtml.py:8 | `str(n)` is a digit string without a leading zero that `int()` reads back as n. |
| `Numerals.ParseZeroPad` | Heimylips/generatehtml.py:21 | The zero-padded format reads back as the number. |
| `Numerals.DecimalLength` | Heimylips/generatehtml.py:21 | `str(n)` has at most k digits exactly when n < 10^k. |
| `Sorting.SortSpec` | Heimylips/generatehtml.py:52 | `sorted()` returns an ordered permutation of the names. |
| `Sorting.SortedUnique` | Heimylips/generatehtml.py:52 | Only one ordered permutation exists, so the sorted order does not depend on the order of `os.listdir`. |
| `Sorting.SortedRank` | Heimylips/generatehtml.py:52-54 | In an ordered list, the name at position p has at most p names below it and more than p at or below it; exactly p below it when the names are distinct. |
| `Sorting.SortRank` | Heimylips/generatehtml.py:52-54 | The same rank for `sorted(names)[p]`, counted in the unsorted names. |
| `Sorting.CountSort` | Heimylips/generatehtml.py:52 | Sorting changes no count of names with a given property. |
| `Sorting.SortDistinct` | Heimylips/generatehtml.py:52 | Sorting distinct names gives distinct names. |
| `Sorting.StrLessTotal` | Heimylips/generatehtml.py:52 | The string order is total. |
| `Sorting.StrLessTransitive` | Heimylips/generatehtml.py:52 | The string order is transitive. |
| `Pipeline.RunScript` | Heimylips/generatehtml.py:130-233 | The run chains discovery, the maximum, the exclusion answer, the adjusted size, the continue prompt, the size answer, `generate_combinations` and the generation loop, and returns what `Script` gives: the first exception, a cancellation, or the pages and records. |
| `Pipeline.ProducePageCount` | Heimylips/generatehtml.py:181-233 | The number of pages is `min(m, max(k, 1))`, where m is the length of the valid combinations cut to the adjusted size and k the number asked for (the adjusted size for "max"). So never more pages are written than the valid combinations cut to the adjusted size. For a non-negative adjusted size that means no more than the adjusted size, so a larger custom number is not reached. A negative adjusted size cuts combinations from the end of the list instead. |
| `Pipeline.ProduceInOrder` | Heimylips/generatehtml.py:181-205 | Never more pages than valid combinations. With "max", page j + 1 shows the j-th valid combination in `itertools.product` order. |
| `Pipeline.AdjustedZeroGeneratesNothing` | Heimylips/generatehtml.py:204-233 | With counts [2, 1], exclusion (1, 1) and the resulting adjusted size 0, the list handed to the loop is empty and nothing is written, whatever the size answer. |
| `Pipeline.CandidatesFit` | Heimylips/generatehtml.py:137-143 | Every combination handed to the loop has entries of at least 1 and no more entries than there are layer directories. |
| `Pipeline.ProduceRaisesKeyError` | Heimylips/generatehtml.py:204-217 | Run from `main`, the generation loop raises nothing but the KeyError of an unlabelled layer directory. |
| `Pipeline.ScriptNeverRaises` | Heimylips/generatehtml.py:130-233 | When every layer directory is labelled, the run raises nothing, whatever the answers. |
| `Pipeline.LabelledSizes` | Heimylips/generatehtml.py:161-173 | With every directory labelled, the exclusion answer parses and the adjusted size is computed without an exception. |
| `Pipeline.LabelledGeneration` | Heimylips/generatehtml.py:204-233 | With every directory labelled, generating from any exclusion set and adjusted size raises nothing. |
| `Python.PyIndex` | Heimylips/generatehtml.py:54 | `s[i]` exists exactly for `-len(s) <= i < len(s)`. A negative index counts from the end. |
| `Python.PyTake` | Heimylips/generatehtml.py:31-33 | `s[:n]` is a prefix of length `min(n, len)` for n >= 0, and `max(0, len + n)` for negative n. |

## Left out

- Reading `index.html` and writing the pages, `OW.json` and `DM.json`. The model returns the pages (file name and content) and the two record lists instead of writing them.
- Console output (`print`) and creating the output directories: they do not affect what is generated.
- The prompts for collection name, canvas height and width, the exclusion answer, the continue answer and the size answer are inputs (`Pipeline.Answers`).
- Pipeline.RunScript: the answers are taken already read. `.lower()` on the continue and size answers is not modelled: the continue answer is a boolean and the size answer is either "max" or a number. A non-numeric size answer (the ValueError of `int()`) is therefore not modelled. The randomize flag that answer decides is passed to `GenerateCombinations`; the generation loop takes the resulting size.
- `random.shuffle`: the random draws are a parameter. The shuffle is a Fisher-Yates pass that uses `draw % (i + 1)` and 0 once the draws run out. Only what holds for every draw sequence (a permutation) is proved.
- Combinations.Shuffle: states only that the result is a permutation, not CPython's exact random order.
- Exceptions from the file system (a directory removed while the script runs, permissions). A directory that is not listed has empty contents in the model.
- `str.isdigit` and `str.strip` are modelled on ASCII digits and the ASCII whitespace set. Unicode digits and Unicode spaces are not modelled.
- `sorted()` on names compares code points one by one. Locale collation is not involved in Python either.
- A partial output before an exception: when building a dictionary raises, the files already written stay on disk in the script. The model returns the exception only.
- `Heimylips/metadata.py` is not part of this model: it reads images through an external imaging library and writes JSON.

## Behaviour kept as written

In these places the code does something other than what a reader might expect. The model follows the code:

- the exclusion filter tests whole-tuple membership, so with other than two layers nothing is removed (`ValidIgnoresExclusions`);
- the adjusted size subtracts a product of counts over the exclusion set, not the number of removed combinations (`AdjustedUndercounts`, `AdjustedMaxExample`);
- the size is checked only after an artifact is emitted, so a size of zero or less still produces one artifact when the list handed to the loop holds a combination (`GenerationEmits`);
- a skipped, unlabelled layer directory shifts `trait_counts` against `layer_dirs` (`CountsShift`);
- the list of combinations is cut to the adjusted size before the loop, so never more pages are written than the valid combinations so cut; for a non-negative adjusted size, a custom size larger than it cannot be reached (`ProducePageCount`);
- a negative adjusted size drops combinations from the end, as Python's `[:n]` does (`PyTake`).
