/**
 * Suffix handling of the new resolver: the table of known name endings
 * ("haleord") and the split/join of a word into stem and ending.
 */
module Suffixes {
  import opened Text

  /** The four spellings of "vassdrag" that are always treated as endings. */
  const ExtraSuffixes: set<string> := {"vassdraget", "vassdrag", "vassdragene", "vassdragets"}

  /** No later entry is longer than an earlier one. */
  predicate LongestFirst(s: seq<string>) {
    forall i, j :: 0 <= i < j < |s| ==> |s[i]| >= |s[j]|
  }

  lemma LongestExists(xs: set<string>)
    requires xs != {}
    ensures exists x :: x in xs && forall y :: y in xs ==> |y| <= |x|
  {
    var x :| x in xs;
    if xs != {x} {
      LongestExists(xs - {x});
      var m :| m in xs - {x} && forall y :: y in xs - {x} ==> |y| <= |m|;
      if |x| > |m| {
        assert forall y :: y in xs ==> |y| <= |x|;
      } else {
        assert forall y :: y in xs ==> |y| <= |m|;
      }
    } else {
      assert forall y :: y in xs ==> |y| <= |x|;
    }
  }

  /**
   * The keys of the ending map together with the "vassdrag" spellings, longest
   * first. Python sorts a set here, so the order among endings of equal length
   * follows set iteration order; the method leaves it unspecified.
   */
  method CollectSuffixes(endingMap: map<string, string>) returns (r: seq<string>)
    ensures (set x | x in r) == endingMap.Keys + ExtraSuffixes
    ensures Distinct(r)
    ensures LongestFirst(r)
  {
    r := LongestFirstOrder(endingMap.Keys + ExtraSuffixes);
  }

  /** `sorted(xs, key=len, reverse=True)` for a set. */
  method LongestFirstOrder(all: set<string>) returns (r: seq<string>)
    ensures (set x | x in r) == all
    ensures Distinct(r)
    ensures LongestFirst(r)
  {
    var remaining := all;
    r := [];
    while remaining != {}
      invariant remaining <= all
      invariant forall x :: x in r <==> x in all && x !in remaining
      invariant Distinct(r)
      invariant LongestFirst(r)
      invariant forall i, y :: 0 <= i < |r| && y in remaining ==> |y| <= |r[i]|
      decreases |remaining|
    {
      LongestExists(remaining);
      var x :| x in remaining && forall y :: y in remaining ==> |y| <= |x|;
      r := r + [x];
      remaining := remaining - {x};
    }
  }

  /** A known ending s applies to word: the lowered word ends with s and is longer. */
  predicate SuffixMatches(word: string, s: string) {
    EndsWith(Lower(word), s) && |word| > |s|
  }

  /** Index of the first ending in the list that applies to word, or |suffixes|. */
  function FirstMatchIndex(word: string, suffixes: seq<string>): (k: nat)
    ensures k <= |suffixes|
    ensures k < |suffixes| ==> SuffixMatches(word, suffixes[k])
    ensures forall i :: 0 <= i < k ==> !SuffixMatches(word, suffixes[i])
  {
    if |suffixes| == 0 then 0
    else if SuffixMatches(word, suffixes[0]) then 0
    else 1 + FirstMatchIndex(word, suffixes[1..])
  }

  /** `_split_suffix`: (stem, ending) for the first applicable ending, else (word, ""). */
  function SplitSuffix(word: string, suffixes: seq<string>): (string, string) {
    var k := FirstMatchIndex(word, suffixes);
    if k == |suffixes| then (word, [])
    else
      var cut := |word| - |suffixes[k]|;
      (word[..cut], word[cut..])
  }

  /**
   * What the split promises: the pieces concatenate to the word; a non-empty
   * ending is a listed ending (case-insensitively), is the first applicable
   * one, and leaves a non-empty stem; an empty ending means no listed ending
   * before the first empty one applies.
   */
  lemma SplitSuffixSpec(word: string, suffixes: seq<string>)
    ensures SplitSuffix(word, suffixes).0 + SplitSuffix(word, suffixes).1 == word
    ensures var (stem, suffix) := SplitSuffix(word, suffixes);
      suffix != [] ==>
        stem != [] && Lower(suffix) in suffixes
        && exists k :: 0 <= k < |suffixes| && suffixes[k] == Lower(suffix)
             && SuffixMatches(word, suffixes[k])
             && forall i :: 0 <= i < k ==> !SuffixMatches(word, suffixes[i])
    ensures SplitSuffix(word, suffixes).1 == [] ==>
      SplitSuffix(word, suffixes).0 == word
      && forall i :: 0 <= i < |suffixes| && suffixes[i] != [] ==>
           !SuffixMatches(word, suffixes[i]) || exists k :: 0 <= k < i && suffixes[k] == []
  {
    var k := FirstMatchIndex(word, suffixes);
    if k < |suffixes| {
      var cut := |word| - |suffixes[k]|;
      assert word[..cut] + word[cut..] == word;
      LowerSlice(word, cut, |word|);
      assert Lower(word[cut..]) == suffixes[k];
      if suffixes[k] == [] {
        forall i | 0 <= i < |suffixes| && suffixes[i] != [] && SuffixMatches(word, suffixes[i])
          ensures exists k' :: 0 <= k' < i && suffixes[k'] == []
        {
          assert k < i;
        }
      }
    }
  }

  /**
   * With a longest-first list without duplicates the chosen ending is the
   * longest applicable one, and an empty ending means none applies.
   */
  lemma SplitSuffixLongest(word: string, suffixes: seq<string>, s: string)
    requires LongestFirst(suffixes)
    requires s in suffixes && s != [] && SuffixMatches(word, s)
    ensures SplitSuffix(word, suffixes).1 != []
    ensures |SplitSuffix(word, suffixes).1| >= |s|
  {
    var k := FirstMatchIndex(word, suffixes);
    var i :| 0 <= i < |suffixes| && suffixes[i] == s;
    assert k <= i;
    assert |suffixes[k]| >= |s|;
  }

  function DropTrailingHyphen(s: string): string {
    if |s| > 0 && s[|s| - 1] == '-' then s[..|s| - 1] else s
  }

  function DropLeadingHyphen(s: string): string {
    if |s| > 0 && s[0] == '-' then s[1..] else s
  }

  /**
   * `_join_stem_suffix`: the stripped stem glued to the ending, with at most
   * one hyphen dropped on each side of the joint; a blank stem yields the
   * ending alone.
   */
  function JoinStemSuffix(stem: string, suffix: string): (r: string)
    ensures Strip(stem) == [] ==> r == suffix
    ensures Strip(stem) != [] ==> |r| >= |Strip(stem)| - 1
  {
    var st := Strip(stem);
    if st == [] then suffix
    else DropTrailingHyphen(st) + DropLeadingHyphen(suffix)
  }

  /** Joining is concatenation for a clean stem and ending. */
  lemma JoinIsConcat(stem: string, suffix: string)
    requires stem != [] && IsStripped(stem) && stem[|stem| - 1] != '-'
    requires suffix == [] || suffix[0] != '-'
    ensures JoinStemSuffix(stem, suffix) == stem + suffix
  {
    StripOfStripped(stem);
  }

  /**
   * Round trip: joining the two halves of a split gives the word back whenever
   * the stem carries no surrounding blanks or joint hyphen.
   */
  lemma SplitJoinRoundTrip(word: string, suffixes: seq<string>)
    requires var (stem, suffix) := SplitSuffix(word, suffixes);
      stem != [] && IsStripped(stem) && stem[|stem| - 1] != '-'
      && (suffix == [] || suffix[0] != '-')
    ensures JoinStemSuffix(SplitSuffix(word, suffixes).0, SplitSuffix(word, suffixes).1) == word
  {
    SplitSuffixSpec(word, suffixes);
    var (stem, suffix) := SplitSuffix(word, suffixes);
    JoinIsConcat(stem, suffix);
  }
}
