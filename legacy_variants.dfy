/**
 * `generate_variants` of the older resolver: the scored spellings it tries
 * for one query, in the order it appends them.
 */
module LegacyVariants {
  import opened Text
  import opened Opt
  import opened CategoryNormalization
  import opened LegacyNames

  /** `(variant, score, description)`. */
  datatype Variant = Variant(text: string, score: int, description: string)

  const VassdragSuffixes: seq<string> :=
    ["vassdraget", "vassdragene", "vassdrag", "vasdrag", "elv", "elva", "vann", "vatn", "sjø", "tjern", "bekk", "å"]
  const NormalizedCategories: seq<string> := ["ELV_SAMISK", "VANN_SAMISK", "ELV", "VANN", "DAL", "FJORD", "FJELL"]
  const DirectionalPrefixes: seq<string> :=
    ["nordre", "søndre", "østre", "vestre", "øvre", "nedre", "gamle", "nørdre", "søndre"]
  const StemSuffixes: seq<string> := ["vassdragene", "vassdraget", "vassdrag", "vasdrag", "reguleringen"]
  const PrimarySuffixes: seq<string> := ["ELV", "VANN", "vassdraget"]
  const SecondarySuffixes: seq<string> := ["FJORD", "DAL", "FJELL"]
  const FossSuffixes: seq<string> := ["fossen", "foss", "faldene", "fallet", "fall", "fossan", "fosane"]
  const FossPrimary: seq<string> := ["vassdraget", "ELV", "VANN"]
  const FossSecondary: seq<string> := ["DAL", "FJORD"]

  /** The first ending of the list that the text ends with (the `for … if endswith … break` loops). */
  function FirstEnding(text: string, endings: seq<string>): (r: Option<string>)
    ensures r.Some? ==> r.value in endings && EndsWith(text, r.value)
    ensures r.None? <==> forall k :: 0 <= k < |endings| ==> !EndsWith(text, endings[k])
  {
    if |endings| == 0 then None
    else if EndsWith(text, endings[0]) then Some(endings[0])
    else
      var r := FirstEnding(text, endings[1..]);
      assert forall k :: 1 <= k < |endings| ==> endings[k] == endings[1..][k - 1];
      r
  }

  // ---------------------------------------------------------------------
  // The groups, in the order the source appends them
  // ---------------------------------------------------------------------

  /** 1b: the three added endings, when the name has no watercourse ending and is longer than three. */
  function AddedEndings(original: string): seq<Variant> {
    if FirstEnding(Lower(original), VassdragSuffixes).None? && |original| > 3 then
      [Variant(original + "vassdraget", 99, "add_vassdraget"),
       Variant(original + "ELV", 98, "add_ELV"),
       Variant(original + "VANN", 97, "add_VANN")]
    else []
  }

  /** 2: the normalised name, then its stem before the first category it ends with. */
  function NormalizedVariants(original: string, normalized: string): seq<Variant> {
    if normalized != [] && normalized != original then
      [Variant(normalized, 90, "normalized")] +
      match FirstEnding(normalized, NormalizedCategories)
      case Some(category) =>
        var stem := normalized[..|normalized| - |category|];
        if stem != [] && stem != original then [Variant(stem, 85, "normalized_stem")] else []
      case None => []
    else []
  }

  /** 3: without a leading direction word, then that name normalised. */
  function DirectionalVariants(original: string, endingMap: EndingMap): seq<Variant> {
    DirectionalOfWords(Words(original), endingMap)
  }

  /** Step 3 on the words of the name. */
  function DirectionalOfWords(words: seq<string>, endingMap: EndingMap): seq<Variant> {
    if |words| > 1 && Lower(words[0]) in DirectionalPrefixes then
      var without := Join(words[1..], " ");
      DirectionalTail(without, NormalizeVassdragNavnOf(without, endingMap))
    else []
  }

  /** The name without its direction word, then its normalised form when that differs. */
  function DirectionalTail(without: string, normalized: string): seq<Variant> {
    if without != [] then
      [Variant(without, 87, "no_directional")] + IfChanged(normalized, without, 86, "no_directional_normalized")
    else []
  }

  /** A variant for a rewritten text, made only when the text is non-empty and differs from its base. */
  function IfChanged(text: string, base: string, score: int, description: string): seq<Variant> {
    if text != [] && text != base then [Variant(text, score, description)] else []
  }

  /** 4: without hyphens. */
  function HyphenVariants(original: string): seq<Variant> {
    if '-' in original then [Variant(Replace(original, "-", ""), 80, "no_hyphen")] else []
  }

  /** The stem before the first of the stem endings, or the whole name. */
  function StemOf(original: string): (string, Option<string>) {
    match FirstEnding(Lower(original), StemSuffixes)
    case Some(suffix) => (original[..|original| - |suffix|], Some(suffix))
    case None => (original, None)
  }

  /** The four spellings built from one ending, with their four scores. */
  function SuffixForms(stem: string, suffix: string, s1: int, s2: int, s3: int, s4: int): seq<Variant> {
    [Variant(stem + suffix, s1, "stem+" + suffix), Variant(stem + "s" + suffix, s2, "stem+s+" + suffix)]
    + (if |stem| > 2 then [Variant(stem[..|stem| - 1] + suffix, s3, "stem-1+" + suffix)] else [])
    + [Variant(stem + "a" + suffix, s4, "stem+a+" + suffix)]
  }

  /** One `for suffix in …` loop over a prefix of its endings. */
  function SuffixLoop(stem: string, suffixes: seq<string>, s1: int, s2: int, s3: int, s4: int): seq<Variant> {
    if |suffixes| == 0 then []
    else SuffixLoop(stem, suffixes[..|suffixes| - 1], s1, s2, s3, s4) + SuffixForms(stem, suffixes[|suffixes| - 1], s1, s2, s3, s4)
  }

  /** The normalised stem and the bare stem, made only when a stem ending was cut. */
  function StemOnly(stem: string, suffixFound: Option<string>, normalized: string, endingMap: EndingMap): seq<Variant> {
    if suffixFound.Some? then
      var sn := NormalizeVassdragNavnOf(stem, endingMap);
      (if sn != [] && sn != stem && sn != normalized then [Variant(sn, 88, "stem_normalized")] else [])
      + [Variant(stem, 82, "stem_only")]
    else []
  }

  /** The 30-point bare stem, for a stem that differs from the name although no ending was cut. */
  function BareStem(original: string, stem: string, suffixFound: Option<string>): seq<Variant> {
    if stem != original && suffixFound.None? then [Variant(stem, 30, "stem_only")] else []
  }

  /** 4-7: the stem and the stem with endings; nothing when the stem is empty. */
  function StemVariants(original: string, normalized: string, endingMap: EndingMap): seq<Variant> {
    var (stem, suffixFound) := StemOf(original);
    if stem == [] then []
    else
      StemOnly(stem, suffixFound, normalized, endingMap)
      + SuffixLoop(stem, PrimarySuffixes, 75, 55, 50, 45)
      + SuffixLoop(stem, SecondarySuffixes, 65, 45, 40, 35)
      + BareStem(original, stem, suffixFound)
  }

  /** A stem with each ending of a list, one score for all. */
  function WithEndings(stem: string, tag: string, suffixes: seq<string>, score: int): seq<Variant> {
    if |suffixes| == 0 then []
    else
      WithEndings(stem, tag, suffixes[..|suffixes| - 1], score)
      + [Variant(stem + suffixes[|suffixes| - 1], score, tag + "+" + suffixes[|suffixes| - 1])]
  }

  /** The stem without its final "s", when it ends with one, alone and with endings. */
  function ShortStemVariants(fossStem: string): seq<Variant> {
    if EndsWith(fossStem, "s") then
      var shortStem := fossStem[..|fossStem| - 1];
      [Variant(shortStem, 30, "foss_short_stem")]
      + WithEndings(shortStem, "foss_short_stem", FossPrimary, 35)
      + WithEndings(shortStem, "foss_short_stem", FossSecondary, 25)
    else []
  }

  /** The waterfall stem alone and with endings, then its short form. */
  function FossStemVariants(fossStem: string): seq<Variant> {
    [Variant(fossStem, 30, "foss_stem")]
    + WithEndings(fossStem, "foss_stem", FossPrimary, 35)
    + WithEndings(fossStem, "foss_stem", FossSecondary, 25)
    + ShortStemVariants(fossStem)
  }

  /** 9: the waterfall stems, for the first waterfall ending only. */
  function FossVariants(original: string): seq<Variant> {
    match FirstEnding(Lower(original), FossSuffixes)
    case None => []
    case Some(fossSuffix) => FossStemVariants(original[..|original| - |fossSuffix|])
  }

  /** `generate_variants(original_name, ending_map)`. */
  function VariantsOf(original: string, endingMap: EndingMap): seq<Variant> {
    var normalized := NormalizeVassdragNavnOf(original, endingMap);
    [Variant(original, 100, "original")]
    + AddedEndings(original)
    + NormalizedVariants(original, normalized)
    + DirectionalVariants(original, endingMap)
    + HyphenVariants(original)
    + StemVariants(original, normalized, endingMap)
    + FossVariants(original)
  }

  // ---------------------------------------------------------------------
  // Properties
  // ---------------------------------------------------------------------

  /** Every score of a list lies in [lo, hi]. */
  predicate ScoresWithin(vs: seq<Variant>, lo: int, hi: int) {
    forall k :: 0 <= k < |vs| ==> lo <= vs[k].score <= hi
  }

  lemma ScoresWithinAppend(a: seq<Variant>, b: seq<Variant>, lo: int, hi: int)
    requires ScoresWithin(a, lo, hi) && ScoresWithin(b, lo, hi)
    ensures ScoresWithin(a + b, lo, hi)
  {
    forall k | 0 <= k < |a + b| ensures lo <= (a + b)[k].score <= hi {
      if k < |a| { assert (a + b)[k] == a[k]; } else { assert (a + b)[k] == b[k - |a|]; }
    }
  }

  lemma {:induction false} SuffixLoopScores(stem: string, suffixes: seq<string>, s1: int, s2: int, s3: int, s4: int, lo: int, hi: int)
    requires lo <= s1 <= hi && lo <= s2 <= hi && lo <= s3 <= hi && lo <= s4 <= hi
    ensures ScoresWithin(SuffixLoop(stem, suffixes, s1, s2, s3, s4), lo, hi)
    decreases |suffixes|
  {
    if |suffixes| > 0 {
      SuffixLoopScores(stem, suffixes[..|suffixes| - 1], s1, s2, s3, s4, lo, hi);
      ScoresWithinAppend(SuffixLoop(stem, suffixes[..|suffixes| - 1], s1, s2, s3, s4),
        SuffixForms(stem, suffixes[|suffixes| - 1], s1, s2, s3, s4), lo, hi);
    }
  }

  lemma {:induction false} WithEndingsScores(stem: string, tag: string, suffixes: seq<string>, score: int)
    ensures ScoresWithin(WithEndings(stem, tag, suffixes, score), score, score)
    decreases |suffixes|
  {
    if |suffixes| > 0 {
      WithEndingsScores(stem, tag, suffixes[..|suffixes| - 1], score);
      ScoresWithinAppend(WithEndings(stem, tag, suffixes[..|suffixes| - 1], score),
        [Variant(stem + suffixes[|suffixes| - 1], score, tag + "+" + suffixes[|suffixes| - 1])], score, score);
    }
  }

  lemma ScoresWithin4(a: seq<Variant>, b: seq<Variant>, c: seq<Variant>, d: seq<Variant>, lo: int, hi: int)
    requires ScoresWithin(a, lo, hi) && ScoresWithin(b, lo, hi) && ScoresWithin(c, lo, hi) && ScoresWithin(d, lo, hi)
    ensures ScoresWithin(a + b + c + d, lo, hi)
  {
    ScoresWithinAppend(a, b, lo, hi);
    ScoresWithinAppend(a + b, c, lo, hi);
    ScoresWithinAppend(a + b + c, d, lo, hi);
  }

  lemma ScoresWithinWiden(a: seq<Variant>, lo: int, hi: int, lo2: int, hi2: int)
    requires ScoresWithin(a, lo, hi) && lo2 <= lo && hi <= hi2
    ensures ScoresWithin(a, lo2, hi2)
  {
  }

  /**
   * The stem step scores from 35 to 88: the 30-point bare stem is never
   * made, since the stem differs from the name only when an ending was cut.
   */
  lemma StemVariantsScores(original: string, normalized: string, endingMap: EndingMap)
    ensures ScoresWithin(StemVariants(original, normalized, endingMap), 35, 88)
  {
    var (stem, suffixFound) := StemOf(original);
    if stem != [] {
      SuffixLoopScores(stem, PrimarySuffixes, 75, 55, 50, 45, 35, 88);
      SuffixLoopScores(stem, SecondarySuffixes, 65, 45, 40, 35, 35, 88);
      StemOnlyScores(stem, suffixFound, normalized, endingMap);
      NoBareStem(original);
      ScoresWithin4(StemOnly(stem, suffixFound, normalized, endingMap),
        SuffixLoop(stem, PrimarySuffixes, 75, 55, 50, 45),
        SuffixLoop(stem, SecondarySuffixes, 65, 45, 40, 35),
        BareStem(original, stem, suffixFound), 35, 88);
    }
  }

  lemma StemOnlyScores(stem: string, suffixFound: Option<string>, normalized: string, endingMap: EndingMap)
    ensures ScoresWithin(StemOnly(stem, suffixFound, normalized, endingMap), 82, 88)
  {
  }

  /** The stem differs from the name only when a stem ending was cut. */
  lemma NoBareStem(original: string)
    ensures BareStem(original, StemOf(original).0, StemOf(original).1) == []
  {
  }

  lemma ShortStemScores(fossStem: string)
    ensures ScoresWithin(ShortStemVariants(fossStem), 25, 35)
  {
    if EndsWith(fossStem, "s") {
      var shortStem := fossStem[..|fossStem| - 1];
      WithEndingsScores(shortStem, "foss_short_stem", FossPrimary, 35);
      WithEndingsScores(shortStem, "foss_short_stem", FossSecondary, 25);
      ScoresWithinWiden(WithEndings(shortStem, "foss_short_stem", FossPrimary, 35), 35, 35, 25, 35);
      ScoresWithinWiden(WithEndings(shortStem, "foss_short_stem", FossSecondary, 25), 25, 25, 25, 35);
      ScoresWithinAppend([Variant(shortStem, 30, "foss_short_stem")],
        WithEndings(shortStem, "foss_short_stem", FossPrimary, 35), 25, 35);
      ScoresWithinAppend([Variant(shortStem, 30, "foss_short_stem")] + WithEndings(shortStem, "foss_short_stem", FossPrimary, 35),
        WithEndings(shortStem, "foss_short_stem", FossSecondary, 25), 25, 35);
    }
  }

  /** The waterfall step scores from 25 to 35. */
  lemma FossVariantsScores(original: string)
    ensures ScoresWithin(FossVariants(original), 25, 35)
  {
    match FirstEnding(Lower(original), FossSuffixes)
    case None =>
    case Some(fossSuffix) =>
      var fossStem := original[..|original| - |fossSuffix|];
      WithEndingsScores(fossStem, "foss_stem", FossPrimary, 35);
      WithEndingsScores(fossStem, "foss_stem", FossSecondary, 25);
      ScoresWithinWiden(WithEndings(fossStem, "foss_stem", FossPrimary, 35), 35, 35, 25, 35);
      ScoresWithinWiden(WithEndings(fossStem, "foss_stem", FossSecondary, 25), 25, 25, 25, 35);
      ShortStemScores(fossStem);
      ScoresWithin4([Variant(fossStem, 30, "foss_stem")], WithEndings(fossStem, "foss_stem", FossPrimary, 35),
        WithEndings(fossStem, "foss_stem", FossSecondary, 25), ShortStemVariants(fossStem), 25, 35);
  }

  lemma AddedEndingsScores(original: string)
    ensures ScoresWithin(AddedEndings(original), 97, 99)
  {
  }

  lemma NormalizedVariantsScores(original: string, normalized: string)
    ensures ScoresWithin(NormalizedVariants(original, normalized), 85, 90)
  {
  }

  lemma DirectionalVariantsScores(original: string, endingMap: EndingMap)
    ensures ScoresWithin(DirectionalVariants(original, endingMap), 86, 87)
  {
    DirectionalOfWordsScores(Words(original), endingMap);
  }

  lemma DirectionalOfWordsScores(words: seq<string>, endingMap: EndingMap)
    ensures ScoresWithin(DirectionalOfWords(words, endingMap), 86, 87)
  {
    if |words| > 1 && Lower(words[0]) in DirectionalPrefixes {
      var without := Join(words[1..], " ");
      DirectionalTailScores(without, NormalizeVassdragNavnOf(without, endingMap));
    }
  }

  lemma DirectionalTailScores(without: string, normalized: string)
    ensures ScoresWithin(DirectionalTail(without, normalized), 86, 87)
  {
    if without != [] {
      IfChangedScores(normalized, without, 86, "no_directional_normalized");
      ScoresWithinAppend([Variant(without, 87, "no_directional")],
                         IfChanged(normalized, without, 86, "no_directional_normalized"), 86, 87);
    }
  }

  lemma IfChangedScores(text: string, base: string, score: int, description: string)
    ensures ScoresWithin(IfChanged(text, base, score, description), score, score)
  {
  }

  lemma HyphenVariantsScores(original: string)
    ensures ScoresWithin(HyphenVariants(original), 80, 80)
  {
  }

  /** Steps 1b to 4 score from 80 to 99. */
  lemma EarlyScores(original: string, normalized: string, endingMap: EndingMap)
    ensures ScoresWithin(AddedEndings(original) + NormalizedVariants(original, normalized)
      + DirectionalVariants(original, endingMap) + HyphenVariants(original), 80, 99)
  {
    var a, b, c, d := AddedEndings(original), NormalizedVariants(original, normalized),
      DirectionalVariants(original, endingMap), HyphenVariants(original);
    AddedEndingsScores(original);
    NormalizedVariantsScores(original, normalized);
    DirectionalVariantsScores(original, endingMap);
    HyphenVariantsScores(original);
    ScoresWithinWiden(a, 97, 99, 80, 99);
    ScoresWithinWiden(b, 85, 90, 80, 99);
    ScoresWithinWiden(c, 86, 87, 80, 99);
    ScoresWithinWiden(d, 80, 80, 80, 99);
    ScoresWithin4(a, b, c, d, 80, 99);
  }

  /**
   * The first variant is the name itself with 100 and "original"; every
   * later variant scores from 25 to 99, so the original is the only one
   * with full score.
   */
  lemma VariantsSpec(original: string, endingMap: EndingMap)
    ensures |VariantsOf(original, endingMap)| > 0
    ensures VariantsOf(original, endingMap)[0] == Variant(original, 100, "original")
    ensures ScoresWithin(VariantsOf(original, endingMap)[1..], 25, 99)
  {
    var normalized := NormalizeVassdragNavnOf(original, endingMap);
    var early := AddedEndings(original) + NormalizedVariants(original, normalized)
      + DirectionalVariants(original, endingMap) + HyphenVariants(original);
    var stem := StemVariants(original, normalized, endingMap);
    var foss := FossVariants(original);
    EarlyScores(original, normalized, endingMap);
    StemVariantsScores(original, normalized, endingMap);
    FossVariantsScores(original);
    ScoresWithinWiden(early, 80, 99, 25, 99);
    ScoresWithinWiden(stem, 35, 88, 25, 99);
    ScoresWithinWiden(foss, 25, 35, 25, 99);
    ScoresWithinAppend(early, stem, 25, 99);
    ScoresWithinAppend(early + stem, foss, 25, 99);
    HeadAndRest(Variant(original, 100, "original"), AddedEndings(original), NormalizedVariants(original, normalized),
      DirectionalVariants(original, endingMap), HyphenVariants(original), stem, foss);
  }

  /** The seven groups after the first variant, regrouped. */
  lemma HeadAndRest(first: Variant, a: seq<Variant>, b: seq<Variant>, c: seq<Variant>, d: seq<Variant>, e: seq<Variant>, f: seq<Variant>)
    ensures ([first] + a + b + c + d + e + f)[0] == first
    ensures ([first] + a + b + c + d + e + f)[1..] == a + b + c + d + e + f
  {
    assert [first] + a + b + c + d + e + f == [first] + (a + b + c + d + e + f);
  }

  /** A name with a watercourse ending, or of at most three characters, gets no added endings. */
  lemma AddedEndingsOnlyForBareNames(original: string)
    requires |original| <= 3 || exists k :: 0 <= k < |VassdragSuffixes| && EndsWith(Lower(original), VassdragSuffixes[k])
    ensures AddedEndings(original) == []
  {
  }

  /** The hyphen-free variant has no hyphen. */
  lemma HyphenVariantsClean(original: string)
    ensures forall v :: v in HyphenVariants(original) ==> '-' !in v.text
  {
    ReplaceRemovesChar(original, '-', "");
  }

  // ---------------------------------------------------------------------
  // The imperative form
  // ---------------------------------------------------------------------

  /** One `for suffix in …` loop of the stem step. */
  method AppendSuffixLoop(variants0: seq<Variant>, stem: string, suffixes: seq<string>, s1: int, s2: int, s3: int, s4: int)
    returns (variants: seq<Variant>)
    ensures variants == variants0 + SuffixLoop(stem, suffixes, s1, s2, s3, s4)
  {
    variants := variants0;
    var k := 0;
    while k < |suffixes|
      invariant 0 <= k <= |suffixes|
      invariant variants == variants0 + SuffixLoop(stem, suffixes[..k], s1, s2, s3, s4)
    {
      var suffix := suffixes[k];
      assert suffixes[..k + 1][..k] == suffixes[..k];
      ghost var before := variants;
      variants := variants + [Variant(stem + suffix, s1, "stem+" + suffix)];
      variants := variants + [Variant(stem + "s" + suffix, s2, "stem+s+" + suffix)];
      if |stem| > 2 {
        variants := variants + [Variant(stem[..|stem| - 1] + suffix, s3, "stem-1+" + suffix)];
      }
      variants := variants + [Variant(stem + "a" + suffix, s4, "stem+a+" + suffix)];
      assert variants == before + SuffixForms(stem, suffix, s1, s2, s3, s4);
      k := k + 1;
    }
    assert suffixes[..k] == suffixes;
  }

  /** A stem with each ending of a list. */
  method AppendWithEndings(variants0: seq<Variant>, stem: string, tag: string, suffixes: seq<string>, score: int)
    returns (variants: seq<Variant>)
    ensures variants == variants0 + WithEndings(stem, tag, suffixes, score)
  {
    variants := variants0;
    var k := 0;
    while k < |suffixes|
      invariant 0 <= k <= |suffixes|
      invariant variants == variants0 + WithEndings(stem, tag, suffixes[..k], score)
    {
      assert suffixes[..k + 1][..k] == suffixes[..k];
      variants := variants + [Variant(stem + suffixes[k], score, tag + "+" + suffixes[k])];
      k := k + 1;
    }
    assert suffixes[..k] == suffixes;
  }

  /** A `for … if text.endswith(e): … break` search. */
  method FindFirstEnding(text: string, endings: seq<string>) returns (r: Option<string>)
    ensures r == FirstEnding(text, endings)
  {
    var k := 0;
    while k < |endings|
      invariant 0 <= k <= |endings|
      invariant FirstEnding(text, endings) == FirstEnding(text, endings[k..])
    {
      assert endings[k..][1..] == endings[k + 1..];
      if EndsWith(text, endings[k]) {
        return Some(endings[k]);
      }
      k := k + 1;
    }
    return None;
  }

  /** Steps 4-7. */
  method AppendStemVariants(variants0: seq<Variant>, original: string, normalized: string, endingMap: EndingMap)
    returns (variants: seq<Variant>)
    ensures variants == variants0 + StemVariants(original, normalized, endingMap)
  {
    variants := variants0;
    var lowerName := Lower(original);
    var suffixFound := FindFirstEnding(lowerName, StemSuffixes);
    var stem := if suffixFound.Some? then original[..|original| - |suffixFound.value|] else original;
    assert (stem, suffixFound) == StemOf(original);
    if stem != [] {
      variants := AppendStemOnly(variants, stem, suffixFound, normalized, endingMap);
      variants := AppendSuffixLoop(variants, stem, PrimarySuffixes, 75, 55, 50, 45);
      variants := AppendSuffixLoop(variants, stem, SecondarySuffixes, 65, 45, 40, 35);
      ghost var before := variants;
      if stem != original && suffixFound.None? {
        variants := variants + [Variant(stem, 30, "stem_only")];
      }
      assert variants == before + BareStem(original, stem, suffixFound);
      Concat4(variants0, StemOnly(stem, suffixFound, normalized, endingMap),
        SuffixLoop(stem, PrimarySuffixes, 75, 55, 50, 45), SuffixLoop(stem, SecondarySuffixes, 65, 45, 40, 35),
        BareStem(original, stem, suffixFound));
    }
  }

  /** Appending four lists one after another appends their concatenation. */
  lemma Concat4(v: seq<Variant>, a: seq<Variant>, b: seq<Variant>, c: seq<Variant>, d: seq<Variant>)
    ensures v + a + b + c + d == v + (a + b + c + d)
  {
  }

  /** The short-stem part of step 9. */
  method AppendShortStem(variants0: seq<Variant>, fossStem: string) returns (variants: seq<Variant>)
    ensures variants == variants0 + ShortStemVariants(fossStem)
  {
    variants := variants0;
    if EndsWith(fossStem, "s") {
      var shortStem := fossStem[..|fossStem| - 1];
      variants := variants + [Variant(shortStem, 30, "foss_short_stem")];
      variants := AppendWithEndings(variants, shortStem, "foss_short_stem", FossPrimary, 35);
      variants := AppendWithEndings(variants, shortStem, "foss_short_stem", FossSecondary, 25);
    }
  }

  /** Step 9. */
  method AppendFossVariants(variants0: seq<Variant>, original: string) returns (variants: seq<Variant>)
    ensures variants == variants0 + FossVariants(original)
  {
    variants := variants0;
    var found := FindFirstEnding(Lower(original), FossSuffixes);
    if found.Some? {
      var fossStem := original[..|original| - |found.value|];
      assert FossVariants(original) == FossStemVariants(fossStem);
      variants := variants + [Variant(fossStem, 30, "foss_stem")];
      variants := AppendWithEndings(variants, fossStem, "foss_stem", FossPrimary, 35);
      variants := AppendWithEndings(variants, fossStem, "foss_stem", FossSecondary, 25);
      variants := AppendShortStem(variants, fossStem);
      Concat4(variants0, [Variant(fossStem, 30, "foss_stem")], WithEndings(fossStem, "foss_stem", FossPrimary, 35),
        WithEndings(fossStem, "foss_stem", FossSecondary, 25), ShortStemVariants(fossStem));
    }
  }

  /** Step 1b. */
  method AppendAddedEndings(variants0: seq<Variant>, original: string) returns (variants: seq<Variant>)
    ensures variants == variants0 + AddedEndings(original)
  {
    variants := variants0;
    var hasVassdragSuffix := FindFirstEnding(Lower(original), VassdragSuffixes);
    if hasVassdragSuffix.None? && |original| > 3 {
      variants := variants + [Variant(original + "vassdraget", 99, "add_vassdraget")];
      variants := variants + [Variant(original + "ELV", 98, "add_ELV")];
      variants := variants + [Variant(original + "VANN", 97, "add_VANN")];
    }
  }

  /** Step 2. */
  method AppendNormalized(variants0: seq<Variant>, original: string, normalized: string) returns (variants: seq<Variant>)
    ensures variants == variants0 + NormalizedVariants(original, normalized)
  {
    variants := variants0;
    if normalized != [] && normalized != original {
      variants := variants + [Variant(normalized, 90, "normalized")];
      var category := FindFirstEnding(normalized, NormalizedCategories);
      if category.Some? {
        var stemFromNormalized := normalized[..|normalized| - |category.value|];
        if stemFromNormalized != [] && stemFromNormalized != original {
          variants := variants + [Variant(stemFromNormalized, 85, "normalized_stem")];
        }
      }
    }
  }

  /** Step 3. */
  method AppendDirectional(variants0: seq<Variant>, original: string, endingMap: EndingMap) returns (variants: seq<Variant>)
    ensures variants == variants0 + DirectionalVariants(original, endingMap)
  {
    var words := Words(original);
    variants := AppendDirectionalWords(variants0, words, endingMap);
  }

  /** Step 3 on the words of the name. */
  method AppendDirectionalWords(variants0: seq<Variant>, words: seq<string>, endingMap: EndingMap) returns (variants: seq<Variant>)
    ensures variants == variants0 + DirectionalOfWords(words, endingMap)
  {
    variants := variants0;
    if |words| > 1 {
      var firstWordLower := Lower(words[0]);
      if firstWordLower in DirectionalPrefixes {
        var withoutDirectional := Join(words[1..], " ");
        if withoutDirectional != [] {
          var normalizedNoDir := NormalizeVassdragNavn(withoutDirectional, endingMap);
          var extra: seq<Variant> := [];
          if normalizedNoDir != [] && normalizedNoDir != withoutDirectional {
            extra := [Variant(normalizedNoDir, 86, "no_directional_normalized")];
          }
          assert [Variant(withoutDirectional, 87, "no_directional")] + extra
              == DirectionalTail(withoutDirectional, normalizedNoDir);
          variants := variants + ([Variant(withoutDirectional, 87, "no_directional")] + extra);
        }
      }
    }
  }

  /** Step 4. */
  method AppendHyphen(variants0: seq<Variant>, original: string) returns (variants: seq<Variant>)
    ensures variants == variants0 + HyphenVariants(original)
  {
    variants := variants0;
    if '-' in original {
      variants := variants + [Variant(Replace(original, "-", ""), 80, "no_hyphen")];
    }
  }

  /** The cut-stem variants of steps 4-7. */
  method AppendStemOnly(variants0: seq<Variant>, stem: string, suffixFound: Option<string>, normalized: string, endingMap: EndingMap)
    returns (variants: seq<Variant>)
    ensures variants == variants0 + StemOnly(stem, suffixFound, normalized, endingMap)
  {
    variants := variants0;
    if suffixFound.Some? {
      var stemNormalized := NormalizeVassdragNavn(stem, endingMap);
      var added: seq<Variant> := [];
      if stemNormalized != [] && stemNormalized != stem && stemNormalized != normalized {
        added := [Variant(stemNormalized, 88, "stem_normalized")];
      }
      added := added + [Variant(stem, 82, "stem_only")];
      assert added == StemOnly(stem, suffixFound, normalized, endingMap);
      variants := variants + added;
    }
  }

  /** `generate_variants` as written. */
  method GenerateVariants(original: string, endingMap: EndingMap) returns (variants: seq<Variant>)
    ensures variants == VariantsOf(original, endingMap)
  {
    variants := [Variant(original, 100, "original")];
    variants := AppendAddedEndings(variants, original);
    var normalized := NormalizeVassdragNavn(original, endingMap);
    variants := AppendNormalized(variants, original, normalized);
    variants := AppendDirectional(variants, original, endingMap);
    variants := AppendHyphen(variants, original);
    variants := AppendStemVariants(variants, original, normalized, endingMap);
    variants := AppendFossVariants(variants, original);
  }
}
