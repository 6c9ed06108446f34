/**
 * Name handling of the older resolver (`resolve_vassdrag.py`): the
 * ending-to-category normalisation, the phonetic fold with its
 * doubled-consonant rule, and the bonus by watercourse-number length.
 */
module LegacyNames {
  import opened Text
  import opened Opt
  import opened Suffixes
  import opened CategoryNormalization
  import opened Phonetics

  // ---------------------------------------------------------------------
  // normalize_vassdrag_navn
  // ---------------------------------------------------------------------

  /** The longest key of at most `n` letters that the word ends with, case-insensitively. */
  function LongestEndingUpTo(word: string, keys: set<string>, n: nat): (r: Option<string>)
    requires n < |word|
    ensures r.Some? ==> r.value in keys && SuffixMatches(word, r.value) && |r.value| <= n
    ensures forall e :: e in keys && SuffixMatches(word, e) && |e| <= n ==> r.Some? && |e| <= |r.value|
    decreases n
  {
    var e := Lower(word)[|word| - n..];
    if e in keys then Some(e)
    else if n == 0 then None
    else LongestEndingUpTo(word, keys, n - 1)
  }

  /**
   * The longest key that the lowered word ends with and that is strictly
   * shorter than the word: what the first hit in a longest-first scan finds.
   */
  function LongestEnding(word: string, keys: set<string>): (r: Option<string>)
    ensures r.Some? ==> r.value in keys && SuffixMatches(word, r.value)
    ensures forall e :: e in keys && SuffixMatches(word, e) ==> r.Some? && |e| <= |r.value|
  {
    if |word| == 0 then None else LongestEndingUpTo(word, keys, |word| - 1)
  }

  /** One word: its longest ending replaced by that ending's category, the stem keeping its case. */
  function NormalizeWordByEnding(word: string, endingMap: EndingMap): string {
    match LongestEnding(word, endingMap.Keys)
    case Some(e) => word[..|word| - |e|] + endingMap[e]
    case None => word
  }

  /** Every word normalised, in order. */
  function NormalizeEachWord(ws: seq<string>, endingMap: EndingMap): (r: seq<string>)
    decreases |ws|
  {
    if |ws| == 0 then []
    else NormalizeEachWord(ws[..|ws| - 1], endingMap) + [NormalizeWordByEnding(ws[|ws| - 1], endingMap)]
  }

  lemma {:induction false} NormalizeEachWordAt(ws: seq<string>, endingMap: EndingMap)
    ensures |NormalizeEachWord(ws, endingMap)| == |ws|
    ensures forall k :: 0 <= k < |ws| ==> NormalizeEachWord(ws, endingMap)[k] == NormalizeWordByEnding(ws[k], endingMap)
    decreases |ws|
  {
    if |ws| > 0 {
      NormalizeEachWordAt(ws[..|ws| - 1], endingMap);
    }
  }

  /** `normalize_vassdrag_navn(text, ending_map)`. */
  function NormalizeVassdragNavnOf(text: string, endingMap: EndingMap): string {
    var stripped := Strip(text);
    if stripped == [] then [] else Join(NormalizeEachWord(Words(stripped), endingMap), " ")
  }

  /** Two endings of one word with the same length are the same ending. */
  lemma SameLengthEnding(word: string, a: string, b: string)
    requires SuffixMatches(word, a) && SuffixMatches(word, b) && |a| == |b|
    ensures a == b
  {
  }

  /** In a longest-first list of the keys, the first applicable ending is the longest one. */
  lemma FirstMatchIsLongest(word: string, endings: seq<string>, keys: set<string>, k: nat)
    requires (set x | x in endings) == keys && LongestFirst(endings)
    requires k < |endings| && SuffixMatches(word, endings[k])
    requires forall j :: 0 <= j < k ==> !SuffixMatches(word, endings[j])
    ensures LongestEnding(word, keys) == Some(endings[k])
  {
    assert endings[k] in keys;
    var l := LongestEnding(word, keys).value;
    assert l in (set x | x in endings);
    var i :| 0 <= i < |endings| && endings[i] == l;
    assert k <= i;
    SameLengthEnding(word, l, endings[k]);
  }

  /** No applicable ending in the list of keys: no longest one either. */
  lemma NoMatchNoEnding(word: string, endings: seq<string>, keys: set<string>)
    requires (set x | x in endings) == keys
    requires forall j :: 0 <= j < |endings| ==> !SuffixMatches(word, endings[j])
    ensures LongestEnding(word, keys) == None
  {
  }

  /**
   * Blank text gives ""; otherwise, with space-free categories, the result
   * has exactly as many words as the text, and each is the word itself when
   * no key applies, else its stem before the longest applicable key followed
   * by that key's category.
   */
  lemma NormalizeVassdragNavnSpec(text: string, endingMap: EndingMap)
    ensures Strip(text) == [] <==> NormalizeVassdragNavnOf(text, endingMap) == []
    ensures SpaceFreeCategories(endingMap) ==>
      Words(NormalizeVassdragNavnOf(text, endingMap)) == NormalizeEachWord(Words(Strip(text)), endingMap)
  {
    var stripped := Strip(text);
    if stripped != [] {
      WordsEmptyIffBlank(stripped);
      StripOfStripped(stripped);
      var ws := NormalizeEachWord(Words(stripped), endingMap);
      NormalizeEachWordAt(Words(stripped), endingMap);
      NormalizedWordNonEmpty(Words(stripped)[0], endingMap);
      JoinHeadNonEmpty(ws);
      if SpaceFreeCategories(endingMap) {
        forall k | 0 <= k < |ws| ensures ws[k] != [] && NoSpace(ws[k]) {
          NormalizedWordIsWord(Words(stripped)[k], endingMap);
        }
        WordsOfJoin(ws);
      }
    } else {
      assert Words([]) == [];
    }
  }

  lemma NormalizedWordNonEmpty(w: string, endingMap: EndingMap)
    requires w != []
    ensures NormalizeWordByEnding(w, endingMap) != []
  {
    match LongestEnding(w, endingMap.Keys)
    case Some(e) => assert |w[..|w| - |e|]| > 0;
    case None =>
  }

  lemma NormalizedWordIsWord(w: string, endingMap: EndingMap)
    requires w != [] && NoSpace(w) && SpaceFreeCategories(endingMap)
    ensures NormalizeWordByEnding(w, endingMap) != [] && NoSpace(NormalizeWordByEnding(w, endingMap))
  {
    NormalizedWordNonEmpty(w, endingMap);
    match LongestEnding(w, endingMap.Keys)
    case Some(e) =>
      var r := w[..|w| - |e|] + endingMap[e];
      assert NoSpace(endingMap[e]);
      forall i | 0 <= i < |r| ensures !IsSpace(r[i]) {
        if i < |w| - |e| { assert r[i] == w[i]; } else { assert r[i] == endingMap[e][i - (|w| - |e|)]; }
      }
    case None =>
  }

  /** A join whose first word is not empty is not empty. */
  lemma JoinHeadNonEmpty(ws: seq<string>)
    requires |ws| > 0 && ws[0] != []
    ensures Join(ws, " ") != []
  {
  }

  // ---------------------------------------------------------------------
  // The imperative form
  // ---------------------------------------------------------------------

  /** The replacement the first applicable ending of a longest-first list makes. */
  lemma FirstMatchReplaces(word: string, endings: seq<string>, endingMap: EndingMap, k: nat)
    requires (set x | x in endings) == endingMap.Keys && LongestFirst(endings)
    requires k < |endings| && SuffixMatches(word, endings[k])
    requires forall j :: 0 <= j < k ==> !SuffixMatches(word, endings[j])
    ensures endings[k] in endingMap
    ensures NormalizeWordByEnding(word, endingMap) == word[..|word| - |endings[k]|] + endingMap[endings[k]]
  {
    FirstMatchIsLongest(word, endings, endingMap.Keys, k);
  }

  /** No applicable ending in the list: the word is kept. */
  lemma NoMatchKeeps(word: string, endings: seq<string>, endingMap: EndingMap)
    requires (set x | x in endings) == endingMap.Keys
    requires forall j :: 0 <= j < |endings| ==> !SuffixMatches(word, endings[j])
    ensures NormalizeWordByEnding(word, endingMap) == word
  {
    NoMatchNoEnding(word, endings, endingMap.Keys);
  }

  /** The inner loop: the first ending of a longest-first list that applies, then `break`. */
  method NormalizeWordWith(word: string, endingsSorted: seq<string>, endingMap: EndingMap) returns (w: string)
    requires (set x | x in endingsSorted) == endingMap.Keys && LongestFirst(endingsSorted)
    ensures w == NormalizeWordByEnding(word, endingMap)
  {
    var k := 0;
    while k < |endingsSorted|
      invariant 0 <= k <= |endingsSorted|
      invariant forall j :: 0 <= j < k ==> !SuffixMatches(word, endingsSorted[j])
    {
      var ending := endingsSorted[k];
      // the lowered word ends with the key and is longer than it
      if SuffixMatches(word, ending) {
        FirstMatchReplaces(word, endingsSorted, endingMap, k);
        var cut := |word| - |ending|;
        var category := endingMap[ending];
        return word[..cut] + category;
      }
      k := k + 1;
    }
    NoMatchKeeps(word, endingsSorted, endingMap);
    return word;
  }

  /** The loop over the words, each normalised by the inner loop. */
  method NormalizeWords(words: seq<string>, endingsSorted: seq<string>, endingMap: EndingMap)
    returns (normalizedWords: seq<string>)
    requires (set x | x in endingsSorted) == endingMap.Keys && LongestFirst(endingsSorted)
    ensures normalizedWords == NormalizeEachWord(words, endingMap)
  {
    normalizedWords := [];
    var i := 0;
    while i < |words|
      invariant 0 <= i <= |words|
      invariant normalizedWords == NormalizeEachWord(words[..i], endingMap)
    {
      var w := NormalizeWordWith(words[i], endingsSorted, endingMap);
      assert words[..i + 1][..i] == words[..i];
      normalizedWords := normalizedWords + [w];
      i := i + 1;
    }
    assert words[..i] == words;
  }

  /** `normalize_vassdrag_navn`: the keys sorted longest first, then word by word. */
  method NormalizeVassdragNavn(text: string, endingMap: EndingMap) returns (r: string)
    ensures r == NormalizeVassdragNavnOf(text, endingMap)
  {
    var stripped := Strip(text);
    if stripped == [] {
      return [];
    }
    var words := Words(stripped);
    var endingsSorted := LongestFirstOrder(endingMap.Keys);
    var normalizedWords := NormalizeWords(words, endingsSorted, endingMap);
    r := Join(normalizedWords, " ");
  }

  // ---------------------------------------------------------------------
  // phonetic_normalize
  // ---------------------------------------------------------------------

  const Consonants: string := "bcdfghjklmnpqrstvwxz"

  /** The doubled-consonant loop: a pair of equal consonants becomes one, and the scan skips both. */
  function FoldPairs(s: string): string
    decreases |s|
  {
    if |s| == 0 then []
    else if |s| >= 2 && s[0] == s[1] && s[0] in Consonants then [s[0]] + FoldPairs(s[2..])
    else [s[0]] + FoldPairs(s[1..])
  }

  /** `phonetic_normalize(text)`. */
  function PhoneticNormalizeOf(text: string): string {
    if text == [] then [] else FoldPairs(Rewritten(text))
  }

  /** `s` without its consonants. */
  function NonConsonants(s: string): string {
    if |s| == 0 then [] else (if s[0] in Consonants then [] else [s[0]]) + NonConsonants(s[1..])
  }

  /** The fold keeps every character other than a consonant, in order, and keeps the first character. */
  lemma {:induction false} FoldPairsSpec(s: string)
    ensures NonConsonants(FoldPairs(s)) == NonConsonants(s)
    ensures forall c :: c in FoldPairs(s) ==> c in s
    ensures |s| > 0 ==> |FoldPairs(s)| > 0 && FoldPairs(s)[0] == s[0]
    decreases |s|
  {
    if |s| >= 2 && s[0] == s[1] && s[0] in Consonants {
      FoldPairsSpec(s[2..]);
      assert s[1..][1..] == s[2..];
      assert ([s[0]] + FoldPairs(s[2..]))[1..] == FoldPairs(s[2..]);
    } else if |s| > 0 {
      FoldPairsSpec(s[1..]);
      assert ([s[0]] + FoldPairs(s[1..]))[1..] == FoldPairs(s[1..]);
    }
  }

  /** A text without consonants, doubled vowels included, passes the fold unchanged. */
  lemma {:induction false} FoldPairsNoConsonants(s: string)
    requires forall i :: 0 <= i < |s| ==> s[i] !in Consonants
    ensures FoldPairs(s) == s
    decreases |s|
  {
    if |s| > 0 {
      FoldPairsNoConsonants(s[1..]);
    }
  }

  /** The result has no blank and no hyphen and does not start with 'c'; "" gives "". */
  lemma PhoneticNormalizeSpec(text: string)
    ensures text == [] ==> PhoneticNormalizeOf(text) == []
    ensures ' ' !in PhoneticNormalizeOf(text) && '-' !in PhoneticNormalizeOf(text)
    ensures PhoneticNormalizeOf(text) == [] || PhoneticNormalizeOf(text)[0] != 'c'
  {
    if text != [] {
      var a := ApplyRewrites(Lower(text), Rewrites);
      var w := Rewritten(text);
      RewritesNoBlankOrHyphen(text);
      assert forall c :: c in w ==> c in a || c == 'k' by {
        forall c | c in w ensures c in a || c == 'k' {
          var i :| 0 <= i < |w| && w[i] == c;
          if i > 0 { assert w[i] == a[i]; }
        }
      }
      FoldPairsSpec(w);
    }
  }

  /** `phonetic_normalize` as written: the replacement loop, the leading c, then the index-stepping loop. */
  method PhoneticNormalize(text: string) returns (r: string)
    ensures r == PhoneticNormalizeOf(text)
  {
    if text == [] {
      return [];
    }
    var normalized := RewriteText(text);
    r := FoldDoubledConsonants(normalized);
  }

  /** The index-stepping loop that writes one letter for each doubled consonant. */
  method FoldDoubledConsonants(normalized: string) returns (r: string)
    ensures r == FoldPairs(normalized)
  {
    r := [];
    var i := 0;
    while i < |normalized|
      invariant 0 <= i <= |normalized|
      invariant r + FoldPairs(normalized[i..]) == FoldPairs(normalized)
    {
      var c := normalized[i];
      FoldStep(normalized, i, r);
      if i < |normalized| - 1 && c == normalized[i + 1] && c in Consonants {
        r := r + [c];
        i := i + 2;
      } else {
        r := r + [c];
        i := i + 1;
      }
    }
    assert normalized[i..] == [];
  }

  /** A doubled consonant starts at position i. */
  predicate DoubledAt(s: string, i: nat) {
    i < |s| - 1 && s[i] == s[i + 1] && s[i] in Consonants
  }

  /** One step of the fold, read at position i. */
  lemma FoldPairsAt(s: string, i: nat)
    requires i < |s|
    ensures DoubledAt(s, i) ==> FoldPairs(s[i..]) == [s[i]] + FoldPairs(s[i + 2..])
    ensures !DoubledAt(s, i) ==> FoldPairs(s[i..]) == [s[i]] + FoldPairs(s[i + 1..])
  {
    var t := s[i..];
    assert t[0] == s[i];
    if |t| >= 2 {
      assert t[1] == s[i + 1];
      assert t[2..] == s[i + 2..];
    }
    assert t[1..] == s[i + 1..];
  }

  /** The same step after the letters `r` already written. */
  lemma FoldStep(s: string, i: nat, r: string)
    requires i < |s| && r + FoldPairs(s[i..]) == FoldPairs(s)
    ensures DoubledAt(s, i) ==> (r + [s[i]]) + FoldPairs(s[i + 2..]) == FoldPairs(s)
    ensures !DoubledAt(s, i) ==> (r + [s[i]]) + FoldPairs(s[i + 1..]) == FoldPairs(s)
  {
    FoldPairsAt(s, i);
    var j := if DoubledAt(s, i) then i + 2 else i + 1;
    Associate(r, [s[i]], FoldPairs(s[j..]));
  }

  lemma Associate(a: string, b: string, c: string)
    ensures (a + b) + c == a + (b + c)
  {
  }

  // ---------------------------------------------------------------------
  // levenshtein_distance
  // ---------------------------------------------------------------------

  /**
   * `levenshtein_distance`: the shorter string goes second by a recursive
   * call with the arguments swapped; otherwise the rows of the table are
   * built for s1[..1], s1[..2], ... against s2.
   */
  method LevenshteinDistance(s1: string, s2: string) returns (d: nat)
    ensures d == EditDistance.Lev(s1, s2)
    decreases if |s1| < |s2| then 1 else 0
  {
    if |s1| < |s2| {
      d := LevenshteinDistance(s2, s1);
      EditDistance.LevSymmetric(s2, s1);
      return;
    }
    if |s2| == 0 {
      EditDistance.LevBounds(s1, s2);
      return |s1|;
    }
    var previousRow: seq<nat> := seq(|s2| + 1, j requires 0 <= j <= |s2| => j);
    forall j | 0 <= j <= |s2| ensures previousRow[j] == EditDistance.Lev(s1[..0], s2[..j]) {
      EditDistance.LevBounds(s1[..0], s2[..j]);
    }
    var i := 0;
    while i < |s1|
      invariant 0 <= i <= |s1|
      invariant IsRow(s1, s2, i, previousRow)
    {
      previousRow := NextRow(s1, s2, i + 1, previousRow);
      i := i + 1;
    }
    d := previousRow[|s2|];
    assert s1[..|s1|] == s1 && s2[..|s2|] == s2;
  }

  // ---------------------------------------------------------------------
  // calculate_vassdragsnr_bonus
  // ---------------------------------------------------------------------

  /** 10 points for a number of three characters or fewer, two fewer per extra character, nothing from eight on. */
  function VassdragsnrBonus(vnr: string): (b: int)
    ensures b == if |vnr| <= 3 then 10 else if |vnr| >= 8 then 0 else 16 - 2 * |vnr|
  {
    var length := |vnr|;
    if length <= 3 then 10
    else if length == 4 then 8
    else if length == 5 then 6
    else if length == 6 then 4
    else if length == 7 then 2
    else 0
  }

  /** A longer number never gets a larger bonus, and every bonus lies between 0 and 10. */
  lemma VassdragsnrBonusMonotone(a: string, b: string)
    requires |a| <= |b|
    ensures VassdragsnrBonus(a) >= VassdragsnrBonus(b)
    ensures 0 <= VassdragsnrBonus(b) <= 10
  {
  }
}
