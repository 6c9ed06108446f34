/**
 * The name-mapping script (`map_names.py`): each non-blank line, stripped,
 * is rewritten word by word with the ending-to-category map, the names no
 * ending applies to are kept apart, and both lists are sorted by their
 * reversed text so that names with the same ending come together.
 */
module NameMapping {
  import opened Text
  import opened Opt
  import opened Suffixes
  import opened CategoryNormalization
  import opened Sorting
  import LegacyNames

  // ---------------------------------------------------------------------
  // replace_with_category
  // ---------------------------------------------------------------------

  /** Some element satisfies `p` (snoc form, as a loop with a flag sees it). */
  predicate Any<T>(s: seq<T>, p: T -> bool)
    decreases |s|
  {
    |s| > 0 && (Any(s[..|s| - 1], p) || p(s[|s| - 1]))
  }

  lemma {:induction false} AnyIff<T>(s: seq<T>, p: T -> bool)
    ensures Any(s, p) <==> exists k :: 0 <= k < |s| && p(s[k])
    decreases |s|
  {
    if |s| > 0 {
      var init := s[..|s| - 1];
      AnyIff(init, p);
      if Any(init, p) {
        var k :| 0 <= k < |init| && p(init[k]);
        assert s[k] == init[k];
      }
      if exists k :: 0 <= k < |s| && p(s[k]) {
        var k :| 0 <= k < |s| && p(s[k]);
        if k < |init| { assert init[k] == s[k]; }
      }
    }
  }

  /** The word has an ending the rewrite applies to. */
  predicate Maps(w: string, endingMap: EndingMap) {
    LegacyNames.LongestEnding(w, endingMap.Keys).Some?
  }

  predicate AnyMapped(ws: seq<string>, endingMap: EndingMap) {
    Any(ws, w => Maps(w, endingMap))
  }

  lemma AnyMappedIff(ws: seq<string>, endingMap: EndingMap)
    ensures AnyMapped(ws, endingMap) <==> exists k :: 0 <= k < |ws| && Maps(ws[k], endingMap)
  {
    AnyIff(ws, w => Maps(w, endingMap));
  }

  /**
   * `replace_with_category(text, ending_map)`: `None` for blank text and for
   * text none of whose words has an applicable ending, otherwise the words
   * rewritten and joined by single spaces.
   */
  function MapNameOf(text: string, endingMap: EndingMap): Option<string> {
    var stripped := Strip(text);
    if stripped == [] then None
    else
      var words := Words(stripped);
      if AnyMapped(words, endingMap) then Some(Join(LegacyNames.NormalizeEachWord(words, endingMap), " "))
      else None
  }

  /**
   * `None` exactly for blank text or text none of whose words has an
   * applicable ending (`AnyMappedIff` spells out "any").
   */
  lemma MapNameNone(text: string, endingMap: EndingMap)
    ensures MapNameOf(text, endingMap).None? <==> (Strip(text) == [] || !AnyMapped(Words(Strip(text)), endingMap))
  {
  }

  /**
   * A result is never empty and is the older resolver's rewrite of the text,
   * which with space-free categories keeps the words one for one.
   */
  lemma MapNameSome(text: string, endingMap: EndingMap)
    requires MapNameOf(text, endingMap).Some?
    ensures MapNameOf(text, endingMap).value != []
    ensures MapNameOf(text, endingMap).value == LegacyNames.NormalizeVassdragNavnOf(text, endingMap)
    ensures SpaceFreeCategories(endingMap) ==>
      Words(MapNameOf(text, endingMap).value) == LegacyNames.NormalizeEachWord(Words(Strip(text)), endingMap)
  {
    LegacyNames.NormalizeVassdragNavnSpec(text, endingMap);
  }

  /** A non-blank name it gives `None` for has no word the rewrite would change. */
  lemma MapNameNoneKeeps(text: string, endingMap: EndingMap)
    requires Strip(text) != [] && MapNameOf(text, endingMap).None?
    ensures LegacyNames.NormalizeEachWord(Words(Strip(text)), endingMap) == Words(Strip(text))
  {
    var ws := Words(Strip(text));
    AnyMappedIff(ws, endingMap);
    LegacyNames.NormalizeEachWordAt(ws, endingMap);
    var r := LegacyNames.NormalizeEachWord(ws, endingMap);
    forall k | 0 <= k < |ws| ensures r[k] == ws[k] {
      assert !Maps(ws[k], endingMap);
    }
  }

  /** The inner loop over the longest-first endings, with the `replaced` flag. */
  method MapWord(word: string, endingsSorted: seq<string>, endingMap: EndingMap) returns (w: string, replaced: bool)
    requires (set x | x in endingsSorted) == endingMap.Keys && LongestFirst(endingsSorted)
    ensures w == LegacyNames.NormalizeWordByEnding(word, endingMap)
    ensures replaced <==> Maps(word, endingMap)
  {
    w := word;
    replaced := false;
    var k := 0;
    while k < |endingsSorted|
      invariant 0 <= k <= |endingsSorted|
      invariant forall j :: 0 <= j < k ==> !SuffixMatches(word, endingsSorted[j])
    {
      var ending := endingsSorted[k];
      if SuffixMatches(word, ending) {
        LegacyNames.FirstMatchReplaces(word, endingsSorted, endingMap, k);
        LegacyNames.FirstMatchIsLongest(word, endingsSorted, endingMap.Keys, k);
        var cut := |word| - |ending|;
        w := word[..cut] + endingMap[ending];
        replaced := true;
        return;
      }
      k := k + 1;
    }
    LegacyNames.NoMatchKeeps(word, endingsSorted, endingMap);
    LegacyNames.NoMatchNoEnding(word, endingsSorted, endingMap.Keys);
  }

  /** The loop over the words: the rewritten words, and whether any was rewritten. */
  method MapWords(words: seq<string>, endingsSorted: seq<string>, endingMap: EndingMap)
    returns (mappedWords: seq<string>, mappedAny: bool)
    requires (set x | x in endingsSorted) == endingMap.Keys && LongestFirst(endingsSorted)
    ensures mappedWords == LegacyNames.NormalizeEachWord(words, endingMap)
    ensures mappedAny == AnyMapped(words, endingMap)
  {
    mappedWords := [];
    mappedAny := false;
    var i := 0;
    while i < |words|
      invariant 0 <= i <= |words|
      invariant mappedWords == LegacyNames.NormalizeEachWord(words[..i], endingMap)
      invariant mappedAny == AnyMapped(words[..i], endingMap)
    {
      var w, replaced := MapWord(words[i], endingsSorted, endingMap);
      assert words[..i + 1][..i] == words[..i];
      if replaced {
        mappedAny := true;
      }
      mappedWords := mappedWords + [w];
      i := i + 1;
    }
    assert words[..i] == words;
  }

  method MapName(text: string, endingMap: EndingMap) returns (r: Option<string>)
    ensures r == MapNameOf(text, endingMap)
  {
    var stripped := Strip(text);
    if stripped == [] {
      return None;
    }
    var words := Words(stripped);
    var endingsSorted := LongestFirstOrder(endingMap.Keys);
    var mappedWords, mappedAny := MapWords(words, endingsSorted, endingMap);
    var result := Join(mappedWords, " ");
    r := if mappedAny then Some(result) else None;
  }

  // ---------------------------------------------------------------------
  // main: the split into mapped and unmapped names
  // ---------------------------------------------------------------------

  /** Python truthiness of `mapped_name`. */
  predicate Truthy(r: Option<string>) {
    r.Some? && r.value != []
  }

  lemma MapNameTruthy(text: string, endingMap: EndingMap)
    ensures Truthy(MapNameOf(text, endingMap)) <==> MapNameOf(text, endingMap).Some?
  {
    if MapNameOf(text, endingMap).Some? {
      MapNameSome(text, endingMap);
    }
  }

  datatype Partition = Partition(mapped: seq<(string, string)>, notMapped: seq<string>)

  /** One stripped, non-blank name added to the list its mapping sends it to. */
  function AddName(p: Partition, name: string, r: Option<string>): Partition {
    if Truthy(r) then Partition(p.mapped + [(name, r.value)], p.notMapped)
    else Partition(p.mapped, p.notMapped + [name])
  }

  /** The loop over the input lines, for any mapping `f`. */
  function PartitionWith(lines: seq<string>, f: string -> Option<string>): Partition
    decreases |lines|
  {
    if |lines| == 0 then Partition([], [])
    else
      var p := PartitionWith(lines[..|lines| - 1], f);
      var name := Strip(lines[|lines| - 1]);
      if name == [] then p else AddName(p, name, f(name))
  }

  function PartitionOf(lines: seq<string>, endingMap: EndingMap): Partition {
    PartitionWith(lines, n => MapNameOf(n, endingMap))
  }

  /** The stripped, non-blank lines in order. */
  function NonBlankNames(lines: seq<string>): (names: seq<string>)
    decreases |lines|
  {
    if |lines| == 0 then []
    else
      var name := Strip(lines[|lines| - 1]);
      NonBlankNames(lines[..|lines| - 1]) + (if name == [] then [] else [name])
  }

  function Firsts(ps: seq<(string, string)>): (r: seq<string>)
    ensures |r| == |ps| && forall k :: 0 <= k < |ps| ==> r[k] == ps[k].0
  {
    seq(|ps|, k requires 0 <= k < |ps| => ps[k].0)
  }

  /** Every non-blank line lands, stripped, in exactly one of the two lists. */
  lemma {:induction false} PartitionWithCount(lines: seq<string>, f: string -> Option<string>)
    ensures multiset(Firsts(PartitionWith(lines, f).mapped)) + multiset(PartitionWith(lines, f).notMapped)
      == multiset(NonBlankNames(lines))
    decreases |lines|
  {
    if |lines| > 0 {
      var init := lines[..|lines| - 1];
      PartitionWithCount(init, f);
      var name := Strip(lines[|lines| - 1]);
      if name != [] {
        assert NonBlankNames(lines) == NonBlankNames(init) + [name];
        AddNameCount(PartitionWith(init, f), name, f(name));
      } else {
        assert NonBlankNames(lines) == NonBlankNames(init) + [];
      }
    }
  }

  /** Adding a name adds it once to the two lists together. */
  lemma AddNameCount(p: Partition, name: string, r: Option<string>)
    ensures multiset(Firsts(AddName(p, name, r).mapped)) + multiset(AddName(p, name, r).notMapped)
      == multiset(Firsts(p.mapped)) + multiset(p.notMapped) + multiset{name}
  {
    if Truthy(r) {
      assert Firsts(p.mapped + [(name, r.value)]) == Firsts(p.mapped) + [name];
    }
  }

  /**
   * The first list holds non-blank stripped names paired with their truthy
   * mapping; the second the non-blank stripped names whose mapping is not.
   */
  lemma {:induction false} PartitionWithMembers(lines: seq<string>, f: string -> Option<string>)
    ensures forall e :: e in PartitionWith(lines, f).mapped ==>
      e.0 != [] && IsStripped(e.0) && Truthy(f(e.0)) && e.1 == f(e.0).value
    ensures forall n :: n in PartitionWith(lines, f).notMapped ==> n != [] && IsStripped(n) && !Truthy(f(n))
    decreases |lines|
  {
    if |lines| > 0 {
      var init := lines[..|lines| - 1];
      PartitionWithMembers(init, f);
      var name := Strip(lines[|lines| - 1]);
      assert IsStripped(name);
      if name != [] {
        AddNameMembers(PartitionWith(init, f), name, f);
      }
    }
  }

  lemma AddNameMembers(p: Partition, name: string, f: string -> Option<string>)
    requires IsStripped(name) && name != []
    requires forall e :: e in p.mapped ==> e.0 != [] && IsStripped(e.0) && Truthy(f(e.0)) && e.1 == f(e.0).value
    requires forall n :: n in p.notMapped ==> n != [] && IsStripped(n) && !Truthy(f(n))
    ensures forall e :: e in AddName(p, name, f(name)).mapped ==>
      e.0 != [] && IsStripped(e.0) && Truthy(f(e.0)) && e.1 == f(e.0).value
    ensures forall n :: n in AddName(p, name, f(name)).notMapped ==> n != [] && IsStripped(n) && !Truthy(f(n))
  {
  }

  /** One pass of the line loop. */
  lemma PartitionWithStep(lines: seq<string>, i: nat, f: string -> Option<string>, r: Option<string>)
    requires i < |lines| && Strip(lines[i]) != [] && r == f(Strip(lines[i]))
    ensures PartitionWith(lines[..i + 1], f) == AddName(PartitionWith(lines[..i], f), Strip(lines[i]), r)
  {
    assert lines[..i + 1][..i] == lines[..i];
  }

  lemma PartitionWithSkip(lines: seq<string>, i: nat, f: string -> Option<string>)
    requires i < |lines| && Strip(lines[i]) == []
    ensures PartitionWith(lines[..i + 1], f) == PartitionWith(lines[..i], f)
  {
    assert lines[..i + 1][..i] == lines[..i];
  }

  /**
   * The mapped list pairs each name with its (some) mapping; the other list
   * holds exactly the non-blank names the mapping gives `None` for.
   */
  lemma PartitionSpec(lines: seq<string>, endingMap: EndingMap)
    ensures multiset(Firsts(PartitionOf(lines, endingMap).mapped)) + multiset(PartitionOf(lines, endingMap).notMapped)
      == multiset(NonBlankNames(lines))
    ensures forall e :: e in PartitionOf(lines, endingMap).mapped ==>
      e.0 != [] && IsStripped(e.0) && MapNameOf(e.0, endingMap) == Some(e.1)
    ensures forall n :: n in PartitionOf(lines, endingMap).notMapped ==>
      n != [] && IsStripped(n) && MapNameOf(n, endingMap) == None
  {
    var f := n => MapNameOf(n, endingMap);
    PartitionWithCount(lines, f);
    PartitionWithMembers(lines, f);
    forall n | n in PartitionOf(lines, endingMap).notMapped
      ensures MapNameOf(n, endingMap) == None
    {
      MapNameTruthy(n, endingMap);
    }
  }

  /** The `for line in infile` loop. */
  method PartitionNames(lines: seq<string>, endingMap: EndingMap)
    returns (mapped: seq<(string, string)>, notMapped: seq<string>)
    ensures Partition(mapped, notMapped) == PartitionOf(lines, endingMap)
  {
    ghost var f := n => MapNameOf(n, endingMap);
    mapped := [];
    notMapped := [];
    var i := 0;
    while i < |lines|
      invariant 0 <= i <= |lines|
      invariant Partition(mapped, notMapped) == PartitionWith(lines[..i], f)
    {
      var name := Strip(lines[i]);
      if name == [] {
        PartitionWithSkip(lines, i, f);
      } else {
        var mappedName := MapName(name, endingMap);
        PartitionWithStep(lines, i, f, mappedName);
        if mappedName.Some? && mappedName.value != [] {
          mapped := mapped + [(name, mappedName.value)];
        } else {
          notMapped := notMapped + [name];
        }
      }
      i := i + 1;
    }
    assert lines[..i] == lines;
  }

  // ---------------------------------------------------------------------
  // main: the two backsorted lists
  // ---------------------------------------------------------------------

  /** Ordered by the reversed mapped name (`key=lambda x: x[1][::-1]`). */
  predicate MappedBefore(a: (string, string), b: (string, string)) {
    StrLess(Reverse(a.1), Reverse(b.1))
  }

  /** Ordered by the reversed name (`key=lambda n: n[::-1]`). */
  predicate NameBefore(a: string, b: string) {
    StrLess(Reverse(a), Reverse(b))
  }

  function SortMapped(mapped: seq<(string, string)>): seq<(string, string)> {
    SortBy(mapped, MappedBefore)
  }

  function SortNotMapped(names: seq<string>): seq<string> {
    SortBy(names, NameBefore)
  }

  /** The mapped list sorted is a permutation of it, ordered by reversed mapped name. */
  lemma SortMappedSpec(mapped: seq<(string, string)>)
    ensures multiset(SortMapped(mapped)) == multiset(mapped)
    ensures forall i, j :: 0 <= i < j < |SortMapped(mapped)| ==>
      !StrLess(Reverse(SortMapped(mapped)[j].1), Reverse(SortMapped(mapped)[i].1))
  {
    forall a: (string, string), b: (string, string), c: (string, string) | MappedBefore(a, b) && MappedBefore(b, c)
      ensures MappedBefore(a, c)
    {
      StrLessTransitive(Reverse(a.1), Reverse(b.1), Reverse(c.1));
    }
    forall a: (string, string) ensures !MappedBefore(a, a) {
      StrLessIrreflexive(Reverse(a.1));
    }
    SortBySorted(mapped, MappedBefore);
    SortByPermutation(mapped, MappedBefore);
  }

  /** The unmapped list sorted is a permutation of it, ordered by reversed name. */
  lemma SortNotMappedSpec(names: seq<string>)
    ensures multiset(SortNotMapped(names)) == multiset(names)
    ensures forall i, j :: 0 <= i < j < |SortNotMapped(names)| ==>
      !StrLess(Reverse(SortNotMapped(names)[j]), Reverse(SortNotMapped(names)[i]))
  {
    forall a: string, b: string, c: string | NameBefore(a, b) && NameBefore(b, c)
      ensures NameBefore(a, c)
    {
      StrLessTransitive(Reverse(a), Reverse(b), Reverse(c));
    }
    forall a: string ensures !NameBefore(a, a) {
      StrLessIrreflexive(Reverse(a));
    }
    SortBySorted(names, NameBefore);
    SortByPermutation(names, NameBefore);
  }

  /** `main` without the file handling: the two lists it writes, in order. */
  method MapNames(lines: seq<string>, endingMap: EndingMap)
    returns (mappedSorted: seq<(string, string)>, notMappedSorted: seq<string>)
    ensures mappedSorted == SortMapped(PartitionOf(lines, endingMap).mapped)
    ensures notMappedSorted == SortNotMapped(PartitionOf(lines, endingMap).notMapped)
  {
    var mapped, notMapped := PartitionNames(lines, endingMap);
    mappedSorted := SortMapped(mapped);
    notMappedSorted := SortNotMapped(notMapped);
  }
}
