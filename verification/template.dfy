/** The artifact renderer: the four literal substitutions applied to the
    HTML template, the trait-index string and the artifact file name. */
module Template {
  import opened Text
  import opened Numerals

  const TitlePlaceholder := "<title>Your Collection Name 001</title>"
  const WidthPlaceholder := "width: 100vw;"
  const HeightPlaceholder := "height: 100vh;"
  const ScriptPlaceholder := "<script src=\"/content/stitched_image.png\"></script>"
  const TraitIndexPlaceholder := "<div id=\"traitindex\">010101</div>"

  /** `"<collection_name> #<index>"`, the display name shared by the page
      title and both metadata records. */
  function DisplayName(collectionName: string, index: nat): string
  {
    collectionName + " #" + Decimal(index)
  }

  /** Different indices give different display names. */
  lemma DisplayNameInjective(collectionName: string, i: nat, j: nat)
    requires DisplayName(collectionName, i) == DisplayName(collectionName, j)
    ensures i == j
  {
    var prefix := collectionName + " #";
    assert Decimal(i) == DisplayName(collectionName, i)[|prefix|..];
    assert Decimal(j) == DisplayName(collectionName, j)[|prefix|..];
    DecimalInjective(i, j);
  }

  /** What a placeholder becomes: however the template is cut at the
      occurrences of the placeholder met scanning from the left (a cut
      always exists, `SplitOnDecomposes`, and is unique, `SplitOnUnique`),
      the result is the same pieces with the new text between them. In
      particular: the template itself without an occurrence, the splice of
      the new text at a single occurrence. */
  ghost predicate Substituted(t: string, placeholder: string, text: string, r: string)
    requires |placeholder| > 0
  {
    && (forall parts :: Decomposes(t, placeholder, parts) ==> r == JoinOn(parts, text))
    && ((forall i: nat :: !OccursAt(t, placeholder, i)) ==> r == t)
    && (forall k: nat :: OccursAt(t, placeholder, k) && (forall i: nat :: OccursAt(t, placeholder, i) ==> i == k)
          ==> r == t[..k] + text + t[k + |placeholder|..])
  }

  lemma ReplaceSubstitutes(t: string, placeholder: string, text: string)
    requires |placeholder| > 0
    ensures Substituted(t, placeholder, text, ReplaceAll(t, placeholder, text))
  {
    forall parts | Decomposes(t, placeholder, parts)
      ensures ReplaceAll(t, placeholder, text) == JoinOn(parts, text)
    {
      SplitOnUnique(t, placeholder, parts);
      ReplaceSplit(t, placeholder, text);
    }
    if forall i: nat :: !OccursAt(t, placeholder, i) {
      ReplaceAbsent(t, placeholder, text);
    }
    forall k: nat | OccursAt(t, placeholder, k) && (forall i: nat :: OccursAt(t, placeholder, i) ==> i == k)
      ensures ReplaceAll(t, placeholder, text) == t[..k] + text + t[k + |placeholder|..]
    {
      ReplaceUnique(t, placeholder, text, k);
    }
  }

  /** `update_title`: the title placeholder becomes the display name. */
  function UpdateTitle(html: string, collectionName: string, index: nat): string
  {
    ReplaceAll(html, TitlePlaceholder, "<title>" + DisplayName(collectionName, index) + "</title>")
  }

  /** The title element is replaced by one naming the artifact, and nothing
      else changes. */
  lemma UpdateTitleSubstitutes(html: string, collectionName: string, index: nat)
    ensures Substituted(html, TitlePlaceholder, "<title>" + DisplayName(collectionName, index) + "</title>",
                        UpdateTitle(html, collectionName, index))
  {
    ReplaceSubstitutes(html, TitlePlaceholder, "<title>" + DisplayName(collectionName, index) + "</title>");
  }

  /** `update_canvas_size`: the width rule, then the height rule, take the
      given pixel values (inserted verbatim). */
  function UpdateCanvasSize(html: string, width: string, height: string): string
  {
    ReplaceAll(ReplaceAll(html, WidthPlaceholder, "width: " + width + "px;"), HeightPlaceholder, "height: " + height + "px;")
  }

  /** The width rule is replaced first, then the height rule of the result. */
  lemma UpdateCanvasSizeSubstitutes(html: string, width: string, height: string)
    ensures Substituted(html, WidthPlaceholder, "width: " + width + "px;",
                        ReplaceAll(html, WidthPlaceholder, "width: " + width + "px;"))
    ensures Substituted(ReplaceAll(html, WidthPlaceholder, "width: " + width + "px;"),
                        HeightPlaceholder, "height: " + height + "px;", UpdateCanvasSize(html, width, height))
  {
    var w := "width: " + width + "px;";
    ReplaceSubstitutes(html, WidthPlaceholder, w);
    ReplaceSubstitutes(ReplaceAll(html, WidthPlaceholder, w), HeightPlaceholder, "height: " + height + "px;");
  }

  /** `update_inscription_id`: the script source points at the content
      identifier. */
  function UpdateInscriptionId(html: string, inscriptionId: string): string
  {
    ReplaceAll(html, ScriptPlaceholder, "<script src=\"/content/" + inscriptionId + "\"></script>")
  }

  lemma UpdateInscriptionIdSubstitutes(html: string, inscriptionId: string)
    ensures Substituted(html, ScriptPlaceholder, "<script src=\"/content/" + inscriptionId + "\"></script>",
                        UpdateInscriptionId(html, inscriptionId))
  {
    ReplaceSubstitutes(html, ScriptPlaceholder, "<script src=\"/content/" + inscriptionId + "\"></script>");
  }

  /** `update_trait_index`: the trait-index element holds the given string. */
  function UpdateTraitIndex(html: string, traitIndex: string): string
  {
    ReplaceAll(html, TraitIndexPlaceholder, "<div id=\"traitindex\">" + traitIndex + "</div>")
  }

  lemma UpdateTraitIndexSubstitutes(html: string, traitIndex: string)
    ensures Substituted(html, TraitIndexPlaceholder, "<div id=\"traitindex\">" + traitIndex + "</div>",
                        UpdateTraitIndex(html, traitIndex))
  {
    ReplaceSubstitutes(html, TraitIndexPlaceholder, "<div id=\"traitindex\">" + traitIndex + "</div>");
  }

  /** The page of one artifact: the four updates in the order the
      generation loop applies them. */
  function RenderPage(html: string, collectionName: string, index: nat, width: string, height: string,
                      inscriptionId: string, traitIndex: string): string
  {
    var t := UpdateTitle(html, collectionName, index);
    var t := UpdateCanvasSize(t, width, height);
    var t := UpdateInscriptionId(t, inscriptionId);
    UpdateTraitIndex(t, traitIndex)
  }

  /** A template holding none of the placeholders is written out as it is. */
  lemma RenderPlain(html: string, collectionName: string, index: nat, width: string, height: string,
                    inscriptionId: string, traitIndex: string)
    requires forall i: nat :: !OccursAt(html, TitlePlaceholder, i) && !OccursAt(html, WidthPlaceholder, i)
                              && !OccursAt(html, HeightPlaceholder, i) && !OccursAt(html, ScriptPlaceholder, i)
                              && !OccursAt(html, TraitIndexPlaceholder, i)
    ensures RenderPage(html, collectionName, index, width, height, inscriptionId, traitIndex) == html
  {
    UpdateTitleSubstitutes(html, collectionName, index);
    UpdateCanvasSizeSubstitutes(html, width, height);
    UpdateInscriptionIdSubstitutes(html, inscriptionId);
    UpdateTraitIndexSubstitutes(html, traitIndex);
  }

  // ---------------------------------------------------------------------
  // Encodings

  /** The trait-index string: every value formatted `:02`, concatenated in
      layer order. */
  function TraitIndexString(combination: seq<nat>): string
  {
    if combination == [] then "" else ZeroPad(combination[0], 2) + TraitIndexString(combination[1..])
  }

  /** Reads a trait-index string back two characters at a time. */
  function DecodeTraitIndex(s: string): seq<nat>
    requires |s| % 2 == 0 && AllDigits(s)
  {
    if s == [] then [] else [ParseDigits(s[..2])] + DecodeTraitIndex(s[2..])
  }

  /** For values 0..99 the trait-index string has two digits per layer and
      reads back as the combination. */
  lemma {:induction false} TraitIndexRoundTrip(combination: seq<nat>)
    requires forall i :: 0 <= i < |combination| ==> combination[i] < 100
    ensures |TraitIndexString(combination)| == 2 * |combination|
    ensures AllDigits(TraitIndexString(combination))
    ensures DecodeTraitIndex(TraitIndexString(combination)) == combination
    decreases |combination|
  {
    if combination != [] {
      var head := ZeroPad(combination[0], 2);
      var rest := combination[1..];
      TraitIndexRoundTrip(rest);
      DecimalLength(combination[0], 2);
      assert |head| == 2;
      AppendDigits(head, TraitIndexString(rest));
      var s := TraitIndexString(combination);
      assert s[..2] == head && s[2..] == TraitIndexString(rest);
      ParseZeroPad(combination[0], 2);
      assert [combination[0]] + rest == combination;
    }
  }

  /** Every even-length digit string is the trait-index string of what it
      decodes to. */
  lemma {:induction false} TraitIndexComplete(s: string)
    requires |s| % 2 == 0 && AllDigits(s)
    ensures TraitIndexString(DecodeTraitIndex(s)) == s
    decreases |s|
  {
    if s != [] {
      TwoDigits(s[..2]);
      TraitIndexComplete(s[2..]);
      assert DecodeTraitIndex(s)[1..] == DecodeTraitIndex(s[2..]);
      assert s == s[..2] + s[2..];
    }
  }

  /** Two digits are the `:02` format of their value. */
  lemma TwoDigits(s: string)
    requires |s| == 2 && AllDigits(s)
    ensures ZeroPad(ParseDigits(s), 2) == s
  {
    var a, b := DigitValue(s[0]), DigitValue(s[1]);
    ParseTwo(s);
    PadTwo(a, b);
    assert s == [DigitChar(a), DigitChar(b)];
  }

  lemma ParseTwo(s: string)
    requires |s| == 2 && AllDigits(s)
    ensures ParseDigits(s) == 10 * DigitValue(s[0]) + DigitValue(s[1])
  {
    assert s[..1] == [s[0]] && s[..1][..0] == [];
  }

  lemma PadTwo(a: nat, b: nat)
    requires a < 10 && b < 10
    ensures ZeroPad(10 * a + b, 2) == [DigitChar(a), DigitChar(b)]
  {
    if a == 0 {
      assert Decimal(b) == [DigitChar(b)];
    } else {
      TwoDigitDivMod(a, b);
      assert Decimal(10 * a + b) == Decimal(a) + [DigitChar(b)];
    }
  }

  lemma TwoDigitDivMod(a: nat, b: nat)
    requires 1 <= a < 10 && b < 10
    ensures 10 <= 10 * a + b && (10 * a + b) / 10 == a && (10 * a + b) % 10 == b
  {
  }

  /** `save_html_file`'s name for artifact `index`: `f"{index:05}.html"`. */
  function HtmlFileName(index: nat): string
  {
    ZeroPad(index, 5) + ".html"
  }

  /** For indices 1..99999 the name is 10 characters, five digits that read
      back as the index followed by ".html"; distinct indices never share a
      file. */
  lemma HtmlFileNameShape(index: nat)
    requires index <= 99999
    ensures |HtmlFileName(index)| == 10
    ensures AllDigits(HtmlFileName(index)[..5]) && ParseDigits(HtmlFileName(index)[..5]) == index
    ensures EndsWith(HtmlFileName(index), ".html")
  {
    DecimalLength(index, 5);
    ParseZeroPad(index, 5);
    assert HtmlFileName(index)[..5] == ZeroPad(index, 5);
  }

  lemma HtmlFileNameInjective(i: nat, j: nat)
    requires HtmlFileName(i) == HtmlFileName(j)
    ensures i == j
  {
    var a, b := HtmlFileName(i), HtmlFileName(j);
    assert ZeroPad(i, 5) == a[..|a| - 5];
    assert ZeroPad(j, 5) == b[..|b| - 5];
    ParseZeroPad(i, 5);
    ParseZeroPad(j, 5);
  }
}
