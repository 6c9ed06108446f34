/**
 * Category normalisation of the new resolver: every word whose known ending
 * maps to a category is rewritten to stem + category (ELV, VANN, FJORD, DAL,
 * FJELL, ...), the stem before the first category token is extracted, and a
 * normalised name can have its ELV/VANN/FJORD tail exchanged.
 */
module CategoryNormalization {
  import opened Text
  import opened Opt
  import opened Suffixes
  import opened OrderedDict

  /** Map from ending to category, as loaded from `ending_map.json`. */
  type EndingMap = map<string, string>

  /** The Sami river and lake categories count as plain ELV and VANN. */
  function Collapse(mapped: string): string {
    if mapped == "ELV_SAMISK" then "ELV"
    else if mapped == "VANN_SAMISK" then "VANN"
    else mapped
  }

  /** The (collapsed) category of a word's ending, when it has one with a non-empty mapping. */
  function WordCategory(word: string, endingMap: EndingMap, suffixes: seq<string>): (c: Option<string>)
    ensures c.Some? ==> c.value != [] && c.value != "ELV_SAMISK" && c.value != "VANN_SAMISK"
  {
    var (_, suffix) := SplitSuffix(word, suffixes);
    var key := Lower(suffix);
    if suffix != [] && key in endingMap && endingMap[key] != [] then Some(Collapse(endingMap[key]))
    else None
  }

  function NormalizeWord(word: string, endingMap: EndingMap, suffixes: seq<string>): string {
    match WordCategory(word, endingMap, suffixes)
    case Some(c) => SplitSuffix(word, suffixes).0 + c
    case None => word
  }

  function NormalizeWords(ws: seq<string>, endingMap: EndingMap, suffixes: seq<string>): (r: seq<string>)
    ensures |r| == |ws|
    ensures forall i :: 0 <= i < |ws| ==> r[i] == NormalizeWord(ws[i], endingMap, suffixes)
  {
    seq(|ws|, i requires 0 <= i < |ws| => NormalizeWord(ws[i], endingMap, suffixes))
  }

  function Categories(ws: seq<string>, endingMap: EndingMap, suffixes: seq<string>): (r: seq<Option<string>>)
    ensures |r| == |ws|
    ensures forall i :: 0 <= i < |ws| ==> r[i] == WordCategory(ws[i], endingMap, suffixes)
  {
    seq(|ws|, i requires 0 <= i < |ws| => WordCategory(ws[i], endingMap, suffixes))
  }

  /** The last present value: what `last_category` holds after the loop. */
  function LastSome<T>(s: seq<Option<T>>): Option<T> {
    if |s| == 0 then None
    else if s[|s| - 1].Some? then s[|s| - 1]
    else LastSome(s[..|s| - 1])
  }

  // ---------------------------------------------------------------------
  // The regular expression `(.*?)(ELV|VANN|FJORD|DAL|FJELL)(?:\b|$)`
  // ---------------------------------------------------------------------

  const CategoryTokens: seq<string> := ["ELV", "VANN", "FJORD", "DAL", "FJELL"]

  /** Literal t occurs at k and is followed by the end of the text or a non-word character. */
  predicate TokenAt(s: string, t: string, k: int) {
    0 <= k && k + |t| <= |s| && s[k..k + |t|] == t && (k + |t| == |s| || !IsWordChar(s[k + |t|]))
  }

  predicate HasTokenAt(s: string, tokens: seq<string>, k: int) {
    exists i :: 0 <= i < |tokens| && TokenAt(s, tokens[i], k)
  }

  /** The smallest position at or after k where one of the tokens occurs at a boundary. */
  function FirstTokenFrom(s: string, tokens: seq<string>, k: nat): (r: Option<nat>)
    ensures r.Some? ==> k <= r.value < |s| + 1 && HasTokenAt(s, tokens, r.value)
    ensures r.Some? ==> forall j :: k <= j < r.value ==> !HasTokenAt(s, tokens, j)
    ensures r.None? ==> forall j :: k <= j ==> !HasTokenAt(s, tokens, j)
    decreases |s| + 1 - k
  {
    if k > |s| then None
    else if HasTokenAt(s, tokens, k) then Some(k)
    else FirstTokenFrom(s, tokens, k + 1)
  }

  /**
   * Where the match of `(.*?)` starts when the token is at k: `.` does not match
   * a newline, so the group begins just after the last newline before k.
   */
  function LineStart(s: string, k: nat): (st: nat)
    requires k <= |s|
    ensures st <= k && forall i :: st <= i < k ==> s[i] != '\n'
    ensures st > 0 ==> s[st - 1] == '\n'
  {
    if k == 0 then 0
    else if s[k - 1] == '\n' then k
    else LineStart(s, k - 1)
  }

  /** Group 1 of the search, when the pattern matches. */
  function PrefixBeforeToken(s: string, tokens: seq<string>): Option<string> {
    match FirstTokenFrom(s, tokens, 0)
    case None => None
    case Some(k) => if k <= |s| then Some(s[LineStart(s, k)..k]) else None
  }

  // ---------------------------------------------------------------------
  // _normalize_name
  // ---------------------------------------------------------------------

  datatype Normalized = Normalized(name: string, category: Option<string>, stem: string)

  /** The words rewritten one by one and joined with single spaces. */
  function NormalizedText(name: string, endingMap: EndingMap, suffixes: seq<string>): string {
    Join(NormalizeWords(Words(name), endingMap, suffixes), " ")
  }

  /** Group 1 of the category search, stripped, or the whole text when there is no category token. */
  function StemOf(normalized: string): string {
    match PrefixBeforeToken(normalized, CategoryTokens)
    case Some(p) => Strip(p)
    case None => normalized
  }

  /** `_normalize_name`: (normalised name, last category, stem before the first category token). */
  function NormalizeName(name: string, endingMap: EndingMap, suffixes: seq<string>): (r: Normalized)
    ensures name == [] ==> r == Normalized([], None, [])
  {
    if name == [] then Normalized([], None, [])
    else
      var normalized := NormalizedText(name, endingMap, suffixes);
      Normalized(normalized, LastSome(Categories(Words(name), endingMap, suffixes)), StemOf(normalized))
  }

  /** Category values carry no whitespace (true of every category name the map uses). */
  ghost predicate SpaceFreeCategories(endingMap: EndingMap) {
    forall k :: k in endingMap ==> NoSpace(endingMap[k])
  }

  lemma NormalizeWordIsWord(word: string, endingMap: EndingMap, suffixes: seq<string>)
    requires word != [] && NoSpace(word) && SpaceFreeCategories(endingMap)
    ensures NormalizeWord(word, endingMap, suffixes) != []
    ensures NoSpace(NormalizeWord(word, endingMap, suffixes))
  {
    SplitSuffixSpec(word, suffixes);
    var (stem, suffix) := SplitSuffix(word, suffixes);
    match WordCategory(word, endingMap, suffixes)
    case Some(c) =>
      assert NoSpace(endingMap[Lower(suffix)]);
      assert NoSpace(stem) by {
        assert forall i :: 0 <= i < |stem| ==> stem[i] == word[i];
      }
    case None =>
  }

  /**
   * Word by word: the normalised name has exactly as many words as the input,
   * and word i is input word i, or its stem followed by the collapsed category
   * of its ending when that ending is mapped.
   */
  lemma NormalizeNameWordwise(name: string, endingMap: EndingMap, suffixes: seq<string>)
    requires SpaceFreeCategories(endingMap)
    ensures var ws := Words(name);
      var out := Words(NormalizeName(name, endingMap, suffixes).name);
      |out| == |ws|
      && forall i :: 0 <= i < |ws| ==>
           match WordCategory(ws[i], endingMap, suffixes)
           case None => out[i] == ws[i]
           case Some(c) =>
             var (stem, suffix) := SplitSuffix(ws[i], suffixes);
             out[i] == stem + c && suffix != [] && stem != []
             && Lower(suffix) in endingMap && c == Collapse(endingMap[Lower(suffix)])
  {
    var ws := Words(name);
    if name == [] {
      assert ws == [];
    } else {
      var nws := NormalizeWords(ws, endingMap, suffixes);
      forall k | 0 <= k < |nws| ensures nws[k] != [] && NoSpace(nws[k]) {
        NormalizeWordIsWord(ws[k], endingMap, suffixes);
      }
      WordsOfJoin(nws);
      forall i | 0 <= i < |ws| {
        SplitSuffixSpec(ws[i], suffixes);
      }
    }
  }

  /** The reported category is the last present one; None when there is none. */
  lemma {:induction false} LastSomeSpec<T>(s: seq<Option<T>>)
    ensures LastSome(s).None? <==> forall i :: 0 <= i < |s| ==> s[i].None?
    ensures LastSome(s).Some? ==>
      exists i :: 0 <= i < |s| && s[i] == LastSome(s) && forall j :: i < j < |s| ==> s[j].None?
  {
    if |s| > 0 && s[|s| - 1].None? {
      var p := s[..|s| - 1];
      LastSomeSpec(p);
      assert forall i :: 0 <= i < |p| ==> p[i] == s[i];
      if LastSome(p).Some? {
        var i :| 0 <= i < |p| && p[i] == LastSome(p) && forall j :: i < j < |p| ==> p[j].None?;
        assert s[i] == LastSome(s);
      }
    }
  }

  /** The normalised text of whitespace-free words joined by spaces holds no newline. */
  lemma NormalizedTextNoNewline(name: string, endingMap: EndingMap, suffixes: seq<string>)
    requires SpaceFreeCategories(endingMap)
    ensures '\n' !in NormalizedText(name, endingMap, suffixes)
  {
    var ws := Words(name);
    var nws := NormalizeWords(ws, endingMap, suffixes);
    forall k | 0 <= k < |nws| ensures NoSpace(nws[k]) {
      NormalizeWordIsWord(ws[k], endingMap, suffixes);
    }
    JoinSpaceOnly(nws, '\n');
  }

  /** Without newlines, group 1 is the whole prefix before the first token. */
  lemma StemOfSpec(s: string)
    requires '\n' !in s
    ensures match FirstTokenFrom(s, CategoryTokens, 0)
      case None => StemOf(s) == s
      case Some(k) =>
        k < |s| && StemOf(s) == Strip(s[..k])
        && forall j :: 0 <= j < k ==> !HasTokenAt(s, CategoryTokens, j)
  {
    match FirstTokenFrom(s, CategoryTokens, 0)
    case None =>
    case Some(k) =>
      TokenBeforeEnd(s, CategoryTokens, k);
      forall j | 0 <= j < k ensures s[j] != '\n' {
        assert s[j] in s;
      }
      LineStartNoNewline(s, k);
  }

  lemma TokenBeforeEnd(s: string, tokens: seq<string>, k: int)
    requires forall i :: 0 <= i < |tokens| ==> tokens[i] != []
    requires HasTokenAt(s, tokens, k)
    ensures 0 <= k < |s|
  {
    var i :| 0 <= i < |tokens| && TokenAt(s, tokens[i], k);
  }

  lemma LineStartNoNewline(s: string, k: nat)
    requires k <= |s| && forall j :: 0 <= j < k ==> s[j] != '\n'
    ensures LineStart(s, k) == 0
  {
  }

  /**
   * The stem: the normalised name holds no newline, so the stem is the
   * stripped prefix of the normalised name before the first category token
   * that ends at a word boundary, or the whole normalised name when there is
   * no such token.
   */
  lemma NormalizeNameStem(name: string, endingMap: EndingMap, suffixes: seq<string>)
    requires SpaceFreeCategories(endingMap)
    ensures var r := NormalizeName(name, endingMap, suffixes);
      match FirstTokenFrom(r.name, CategoryTokens, 0)
      case None => r.stem == r.name
      case Some(k) =>
        k < |r.name| && r.stem == Strip(r.name[..k])
        && forall j :: 0 <= j < k ==> !HasTokenAt(r.name, CategoryTokens, j)
  {
    if name != [] {
      NormalizedTextNoNewline(name, endingMap, suffixes);
      StemOfSpec(NormalizedText(name, endingMap, suffixes));
    }
  }

  /** The reported category is that of the last word that has one, None when no word has one. */
  lemma NormalizeNameCategory(name: string, endingMap: EndingMap, suffixes: seq<string>)
    ensures var ws := Words(name);
      var c := NormalizeName(name, endingMap, suffixes).category;
      (c.None? <==> forall i :: 0 <= i < |ws| ==> WordCategory(ws[i], endingMap, suffixes).None?)
      && (c.Some? ==> exists i :: 0 <= i < |ws| && WordCategory(ws[i], endingMap, suffixes) == c
                        && forall j :: i < j < |ws| ==> WordCategory(ws[j], endingMap, suffixes).None?)
  {
    CategoryOfNormalized(name, endingMap, suffixes);
    LastCategorySpec(Words(name), endingMap, suffixes);
  }

  lemma CategoryOfNormalized(name: string, endingMap: EndingMap, suffixes: seq<string>)
    ensures NormalizeName(name, endingMap, suffixes).category == LastSome(Categories(Words(name), endingMap, suffixes))
  {
    if name == [] {
      assert Words(name) == [];
    }
  }

  /** The last category among the words' categories, and where it comes from. */
  lemma LastCategorySpec(ws: seq<string>, endingMap: EndingMap, suffixes: seq<string>)
    ensures var c := LastSome(Categories(ws, endingMap, suffixes));
      (c.None? <==> forall i :: 0 <= i < |ws| ==> WordCategory(ws[i], endingMap, suffixes).None?)
      && (c.Some? ==> exists i :: 0 <= i < |ws| && WordCategory(ws[i], endingMap, suffixes) == c
                        && forall j :: i < j < |ws| ==> WordCategory(ws[j], endingMap, suffixes).None?)
  {
    LastSomeSpec(Categories(ws, endingMap, suffixes));
  }

  // ---------------------------------------------------------------------
  // _swap_normalized_tail
  // ---------------------------------------------------------------------

  /** The categories a tail may be exchanged with. */
  function SwapTargets(category: string): seq<string> {
    if category == "ELV" then ["VANN", "FJORD"]
    else if category == "VANN" then ["ELV", "FJORD"]
    else if category == "FJORD" then ["ELV", "VANN"]
    else []
  }

  predicate Swappable(category: string) {
    category == "ELV" || category == "VANN" || category == "FJORD"
  }

  /** `_swap_normalized_tail`: the prefix before the category joined with each of the other two. */
  function SwapNormalizedTail(name: string, category: Option<string>): seq<string> {
    if category.None? || category.value == [] || !Swappable(category.value) then []
    else match PrefixBeforeToken(name, [category.value])
      case None => []
      case Some(prefix) =>
        var targets := SwapTargets(category.value);
        [prefix + targets[0], prefix + targets[1]]
  }

  /**
   * No swaps unless the category is ELV, VANN or FJORD and occurs in the name
   * at a word boundary; otherwise exactly two names: the text from the start
   * of the line up to its first such occurrence, followed by each of the
   * other two categories.
   */
  lemma SwapNormalizedTailSpec(name: string, category: Option<string>)
    ensures var r := SwapNormalizedTail(name, category);
      (r != [] <==> category.Some? && Swappable(category.value)
                    && exists k :: TokenAt(name, category.value, k))
      && (r != [] ==>
            |r| == 2
            && exists st: nat, k: nat ::
                 st <= k <= |name| && TokenAt(name, category.value, k)
                 && (forall j :: 0 <= j < k ==> !TokenAt(name, category.value, j))
                 && (forall i :: st <= i < k ==> name[i] != '\n')
                 && (st > 0 ==> name[st - 1] == '\n')
                 && r[0] == name[st..k] + SwapTargets(category.value)[0]
                 && r[1] == name[st..k] + SwapTargets(category.value)[1])
    ensures category.Some? && Swappable(category.value) ==>
      var t := SwapTargets(category.value);
      |t| == 2 && t[0] != t[1] && category.value !in t && (forall x :: x in t ==> Swappable(x))
  {
    var r := SwapNormalizedTail(name, category);
    if category.Some? && Swappable(category.value) {
      var c := category.value;
      match FirstTokenFrom(name, [c], 0)
      case None =>
        forall k | TokenAt(name, c, k) ensures false {
          assert TokenAt(name, [c][0], k);
          assert HasTokenAt(name, [c], k);
        }
      case Some(k) =>
        assert HasTokenAt(name, [c], k);
        assert TokenAt(name, c, k);
        forall j | 0 <= j < k ensures !TokenAt(name, c, j) {
          assert !HasTokenAt(name, [c], j);
          assert [c][0] == c;
        }
        var st := LineStart(name, k);
        assert r[0] == name[st..k] + SwapTargets(c)[0];
    }
  }

  // ---------------------------------------------------------------------
  // _generate_normalized_candidates
  // ---------------------------------------------------------------------

  function NormalizeAll(cands: seq<string>, endingMap: EndingMap, suffixes: seq<string>): (ns: seq<Normalized>)
    ensures |ns| == |cands|
    ensures forall i :: 0 <= i < |cands| ==> ns[i] == NormalizeName(cands[i], endingMap, suffixes)
  {
    seq(|cands|, i requires 0 <= i < |cands| => NormalizeName(cands[i], endingMap, suffixes))
  }

  /** The dict the loop builds from a sequence of normalisation results. */
  function Collect(ns: seq<Normalized>): (d: ODict<string, (Option<string>, string)>)
    ensures Valid(d)
  {
    if |ns| == 0 then Empty()
    else
      var d := Collect(ns[..|ns| - 1]);
      var n := ns[|ns| - 1];
      if n.name != [] then Put(d, n.name, (n.category, n.stem)) else d
  }

  function NormalizedCandidates(cands: seq<string>, endingMap: EndingMap, suffixes: seq<string>)
    : ODict<string, (Option<string>, string)>
  {
    Collect(NormalizeAll(cands, endingMap, suffixes))
  }

  /**
   * `_generate_normalized_candidates`: maps each non-empty normalised name to
   * (category, stem), in order of first appearance.
   */
  method GenerateNormalizedCandidates(cands: seq<string>, endingMap: EndingMap, suffixes: seq<string>)
    returns (d: ODict<string, (Option<string>, string)>)
    ensures d == NormalizedCandidates(cands, endingMap, suffixes)
  {
    ghost var ns := NormalizeAll(cands, endingMap, suffixes);
    d := Empty();
    var i := 0;
    while i < |cands|
      invariant 0 <= i <= |cands|
      invariant d == Collect(ns[..i])
    {
      var n := NormalizeName(cands[i], endingMap, suffixes);
      assert ns[..i + 1][..i] == ns[..i];
      if n.name != [] {
        d := Put(d, n.name, (n.category, n.stem));
      }
      i := i + 1;
    }
    assert ns[..|cands|] == ns;
  }

  /** The non-empty normalised names, in order, with repetitions. */
  function NonEmptyNames(ns: seq<Normalized>): seq<string> {
    if |ns| == 0 then []
    else
      var p := NonEmptyNames(ns[..|ns| - 1]);
      var n := ns[|ns| - 1].name;
      if n != [] then p + [n] else p
  }

  /** The keys are the distinct non-empty normalised names, in order of first appearance. */
  lemma {:induction false} CollectKeys(ns: seq<Normalized>)
    ensures Collect(ns).keys == Dedup(NonEmptyNames(ns))
  {
    if |ns| > 0 {
      var p := ns[..|ns| - 1];
      CollectKeys(p);
      var f := NonEmptyNames(p);
      var n := ns[|ns| - 1].name;
      if n != [] {
        assert (f + [n])[..|f + [n]| - 1] == f;
      }
    }
  }

  /** Each key holds the (category, stem) of the last result with that name. */
  lemma {:induction false} CollectValues(ns: seq<Normalized>, j: nat)
    requires j < |ns| && ns[j].name != []
    requires forall j' :: j < j' < |ns| ==> ns[j'].name != ns[j].name
    ensures ns[j].name in Collect(ns).values
    ensures Collect(ns).values[ns[j].name] == (ns[j].category, ns[j].stem)
  {
    var p := ns[..|ns| - 1];
    if j < |ns| - 1 {
      assert p[j] == ns[j];
      forall j' | j < j' < |p| ensures p[j'].name != p[j].name {
        assert p[j'] == ns[j'];
      }
      CollectValues(p, j);
    }
  }

  lemma NormalizedCandidatesSpec(cands: seq<string>, endingMap: EndingMap, suffixes: seq<string>, j: nat)
    requires j < |cands|
    requires NormalizeName(cands[j], endingMap, suffixes).name != []
    requires forall j' :: j < j' < |cands| ==>
      NormalizeName(cands[j'], endingMap, suffixes).name != NormalizeName(cands[j], endingMap, suffixes).name
    ensures var d := NormalizedCandidates(cands, endingMap, suffixes);
      var n := NormalizeName(cands[j], endingMap, suffixes);
      d.keys == Dedup(NonEmptyNames(NormalizeAll(cands, endingMap, suffixes)))
      && n.name in d.values && d.values[n.name] == (n.category, n.stem)
  {
    var ns := NormalizeAll(cands, endingMap, suffixes);
    CollectKeys(ns);
    CollectValues(ns, j);
  }
}
