/**
 * `resolve_vassdrag`: clean the text, split it into watercourse names,
 * score each name against the prepared index, optionally reward nearness
 * to a reference point, keep the results with at least 30 points and sort
 * them best first, ties by watercourse number.
 */
module Resolver {
  import opened Text
  import opened Opt
  import opened Sorting
  import opened Regine
  import opened Suffixes
  import opened NameSplitting
  import opened CategoryNormalization
  import opened IndexPreparation
  import opened MatchScoring
  import opened CoordinateBonus

  // ---------------------------------------------------------------------
  // Cleaning the text
  // ---------------------------------------------------------------------

  /**
   * `\bw\b` with `re.IGNORECASE` matches at `i`: the word is there in any
   * case, with no word character right before or right after it.
   */
  predicate WordAt(s: string, i: nat, w: string) {
    i + |w| <= |s| && Lower(s[i..i + |w|]) == w
    && (i == 0 || !IsWordChar(s[i - 1]))
    && (i + |w| == |s| || !IsWordChar(s[i + |w|]))
  }

  /** `re.sub(r"\bw\b", "", s[i..], flags=re.IGNORECASE)`, scanning left to right. */
  function RemoveWordFrom(s: string, w: string, i: nat): (r: string)
    requires i <= |s| && w != []
    ensures |r| <= |s| - i
    ensures forall c :: c in r ==> c in s[i..]
    ensures (forall k :: i <= k < |s| ==> !WordAt(s, k, w)) ==> r == s[i..]
    decreases |s| - i
  {
    if i == |s| then []
    else if WordAt(s, i, w) then RemoveWordFrom(s, w, i + |w|)
    else
      var rest := RemoveWordFrom(s, w, i + 1);
      assert s[i..] == [s[i]] + s[i + 1..];
      [s[i]] + rest
  }

  function RemoveWord(s: string, w: string): string
    requires w != []
  {
    RemoveWordFrom(s, w, 0)
  }

  /** `s` without its whitespace characters. */
  function NoSpaces(s: string): string {
    if |s| == 0 then [] else (if IsSpace(s[0]) then [] else [s[0]]) + NoSpaces(s[1..])
  }

  lemma {:induction false} NoSpacesRun(s: string, i: nat, j: nat)
    requires i <= j <= |s|
    requires forall k :: i <= k < j ==> IsSpace(s[k])
    ensures NoSpaces(s[i..]) == NoSpaces(s[j..])
    decreases j - i
  {
    if i < j {
      assert s[i..][1..] == s[i + 1..];
      NoSpacesRun(s, i + 1, j);
    }
  }

  /**
   * `re.sub(r"\s{2,}", " ", s[i..])`: every run of two or more whitespace
   * characters becomes one space. No two whitespace characters are left
   * side by side, and everything else is kept in order.
   */
  function CollapseFrom(s: string, i: nat): (r: string)
    requires i <= |s|
    ensures r != [] ==> i < |s| && (IsSpace(r[0]) <==> IsSpace(s[i]))
    ensures SingleSpaced(r)
    ensures NoSpaces(r) == NoSpaces(s[i..])
    decreases |s| - i
  {
    if i == |s| then []
    else if IsSpace(s[i]) && SpaceRunEnd(s, i) - i >= 2 then
      var j := SpaceRunEnd(s, i);
      var rest := CollapseFrom(s, j);
      NoSpacesRun(s, i, j);
      assert (" " + rest)[1..] == rest;
      " " + rest
    else
      var rest := CollapseFrom(s, i + 1);
      assert ([s[i]] + rest)[1..] == rest;
      assert s[i..][1..] == s[i + 1..];
      assert IsSpace(s[i]) ==> SpaceRunEnd(s, i) == i + 1;
      [s[i]] + rest
  }

  function Collapse(s: string): string {
    CollapseFrom(s, 0)
  }

  /** No two whitespace characters side by side. */
  predicate SingleSpaced(s: string) {
    forall k :: 0 <= k < |s| - 1 ==> !(IsSpace(s[k]) && IsSpace(s[k + 1]))
  }

  lemma StripSingleSpaced(s: string)
    requires SingleSpaced(s)
    ensures SingleSpaced(Strip(s))
  {
    var l := LStrip(s);
    var r := RStrip(l);
    var off := |s| - |l|;
    forall k | 0 <= k < |r| - 1 ensures !(IsSpace(r[k]) && IsSpace(r[k + 1])) {
      assert r[k] == l[k] == s[off + k];
      assert r[k + 1] == l[k + 1] == s[off + k + 1];
    }
  }

  /** The text `resolve_vassdrag` goes on with, before it returns `[]` on an empty one. */
  function Preprocess(text: string): string {
    Strip(Collapse(RemoveWord(RemoveWord(text, "kraftverk"), "kraftselskap")))
  }

  // ---------------------------------------------------------------------
  // The declarative pipeline
  // ---------------------------------------------------------------------

  /** `all_results`: the results of every name, extended in turn. */
  function ScoreAll(names: seq<string>, pi: PreparedIndex, endingMap: EndingMap, suffixes: seq<string>)
    : seq<MatchResult>
    requires WellFormed(pi)
  {
    if |names| == 0 then []
    else
      var n := |names| - 1;
      ScoreAll(names[..n], pi, endingMap, suffixes) + ScoreSingleNameOf(names[n], pi, endingMap, suffixes)
  }

  const MinScore: int := 30

  /** `[result for result in all_results if result.score >= 30]`. */
  function KeepScoring(rs: seq<MatchResult>): (r: seq<MatchResult>)
    ensures forall k :: 0 <= k < |r| ==> r[k].score >= MinScore
    ensures forall x :: x in r <==> x in rs && x.score >= MinScore
  {
    if |rs| == 0 then []
    else
      var n := |rs| - 1;
      var p := KeepScoring(rs[..n]);
      assert rs == rs[..n] + [rs[n]];
      p + (if rs[n].score >= MinScore then [rs[n]] else [])
  }

  /** `key=lambda item: (-item.score, item.entry.get("vassdragsnr"))`: higher score first, then the smaller number. */
  predicate ResultBefore(a: MatchResult, b: MatchResult) {
    a.score > b.score || (a.score == b.score && StrLess(VnrOfResult(a), VnrOfResult(b)))
  }

  /** The results before the score filter: every name's results, with the coordinate bonus when a point is given. */
  function AllResults(t: string, es: seq<Entry>, endingMap: EndingMap, suffixes: seq<string>,
                      coord: Option<(real, real)>, dist: Distance): seq<MatchResult>
  {
    var pi := PreparedIndexOf(es, endingMap, suffixes);
    PreparedIndexWellFormed(es, endingMap, suffixes);
    var all := ScoreAll(SplitNamesOf(t, suffixes), pi, endingMap, suffixes);
    if coord.Some? then CoordinateBonusOf(all, coord.value, dist) else all
  }

  /** What `resolve_vassdrag` returns (as `MatchResult`s, before `as_dict`), for a given suffix table. */
  function ResolveOf(text: string, es: seq<Entry>, endingMap: EndingMap, suffixes: seq<string>,
                     coord: Option<(real, real)>, dist: Distance): seq<MatchResult>
  {
    var t := Preprocess(text);
    if t == [] then []
    else SortBy(KeepScoring(AllResults(t, es, endingMap, suffixes, coord, dist)), ResultBefore)
  }

  // ---------------------------------------------------------------------
  // Properties
  // ---------------------------------------------------------------------

  /** The sort key is a strict order. */
  lemma ResultBeforeStrict()
    ensures forall a, b, c :: ResultBefore(a, b) && ResultBefore(b, c) ==> ResultBefore(a, c)
    ensures forall a :: !ResultBefore(a, a)
  {
    forall a, b, c | ResultBefore(a, b) && ResultBefore(b, c) ensures ResultBefore(a, c) {
      if a.score == b.score == c.score {
        StrLessTransitive(VnrOfResult(a), VnrOfResult(b), VnrOfResult(c));
      }
    }
    forall a ensures !ResultBefore(a, a) {
      StrLessIrreflexive(VnrOfResult(a));
    }
  }

  /** A list sorted by the key runs from the highest score down, ties by increasing number. */
  lemma SortedByKey(rs: seq<MatchResult>)
    requires SortedBy(rs, ResultBefore)
    ensures forall i, j :: 0 <= i < j < |rs| ==> rs[i].score >= rs[j].score
    ensures forall i, j :: 0 <= i < j < |rs| && rs[i].score == rs[j].score ==>
      !StrLess(VnrOfResult(rs[j]), VnrOfResult(rs[i]))
  {
    forall i, j | 0 <= i < j < |rs| ensures rs[i].score >= rs[j].score {
      assert !ResultBefore(rs[j], rs[i]);
    }
  }

  /**
   * The result is the 30-or-more part of all results, each exactly as often
   * as there, best first and ties by watercourse number; an empty cleaned
   * text gives no result.
   */
  lemma {:induction false} ResolveSpec(text: string, es: seq<Entry>, endingMap: EndingMap, suffixes: seq<string>,
                                       coord: Option<(real, real)>, dist: Distance)
    ensures Preprocess(text) == [] ==> ResolveOf(text, es, endingMap, suffixes, coord, dist) == []
    ensures Preprocess(text) != [] ==>
      multiset(ResolveOf(text, es, endingMap, suffixes, coord, dist))
      == multiset(KeepScoring(AllResults(Preprocess(text), es, endingMap, suffixes, coord, dist)))
    ensures var r := ResolveOf(text, es, endingMap, suffixes, coord, dist);
      forall k :: 0 <= k < |r| ==> r[k].score >= MinScore
    ensures SortedBy(ResolveOf(text, es, endingMap, suffixes, coord, dist), ResultBefore)
  {
    var t := Preprocess(text);
    if t != [] {
      SortedKept(AllResults(t, es, endingMap, suffixes, coord, dist));
    }
  }

  /** Sorting the results that pass the filter keeps them, each as often, and orders them by the key. */
  lemma SortedKept(all: seq<MatchResult>)
    ensures multiset(SortBy(KeepScoring(all), ResultBefore)) == multiset(KeepScoring(all))
    ensures var r := SortBy(KeepScoring(all), ResultBefore);
      forall k :: 0 <= k < |r| ==> r[k].score >= MinScore
    ensures SortedBy(SortBy(KeepScoring(all), ResultBefore), ResultBefore)
  {
    var kept := KeepScoring(all);
    SortByPermutation(kept, ResultBefore);
    ResultBeforeStrict();
    SortBySorted(kept, ResultBefore);
    var r := SortBy(kept, ResultBefore);
    forall k | 0 <= k < |r| ensures r[k].score >= MinScore {
      assert r[k] in multiset(kept);
    }
  }

  /** A result is returned exactly when some name scored it at least 30, bonus included. */
  lemma {:induction false} ResolveKeeps(text: string, es: seq<Entry>, endingMap: EndingMap, suffixes: seq<string>,
                                        coord: Option<(real, real)>, dist: Distance, m: MatchResult)
    requires Preprocess(text) != []
    ensures m in ResolveOf(text, es, endingMap, suffixes, coord, dist)
      <==> m in AllResults(Preprocess(text), es, endingMap, suffixes, coord, dist) && m.score >= MinScore
  {
    var kept := KeepScoring(AllResults(Preprocess(text), es, endingMap, suffixes, coord, dist));
    SortByElements(kept, ResultBefore);
  }

  /** Without two whitespace characters side by side, collapsing changes nothing. */
  lemma {:induction false} CollapseOfSingleSpaced(s: string, i: nat)
    requires i <= |s|
    requires SingleSpaced(s)
    ensures CollapseFrom(s, i) == s[i..]
    decreases |s| - i
  {
    if i < |s| {
      CollapseOfSingleSpaced(s, i + 1);
      assert s[i..] == [s[i]] + s[i + 1..];
    }
  }

  /**
   * A text that holds neither word, has no whitespace run and no surrounding
   * whitespace is looked up as it is.
   */
  lemma PreprocessOfClean(text: string)
    requires forall k :: 0 <= k < |text| ==> !WordAt(text, k, "kraftverk") && !WordAt(text, k, "kraftselskap")
    requires SingleSpaced(text) && IsStripped(text)
    ensures Preprocess(text) == text
  {
    RemoveAbsent(text, "kraftverk");
    RemoveAbsent(text, "kraftselskap");
    CollapseOfSingleSpaced(text, 0);
    assert text[0..] == text;
    StripOfStripped(text);
  }

  /** Removing a word the text does not hold changes nothing. */
  lemma RemoveAbsent(s: string, w: string)
    requires w != [] && forall k :: 0 <= k < |s| ==> !WordAt(s, k, w)
    ensures RemoveWord(s, w) == s
  {
    assert s[0..] == s;
  }

  /** The cleaned text never holds two whitespace characters side by side, nor surrounding whitespace. */
  lemma PreprocessSingleSpaced(text: string)
    ensures IsStripped(Preprocess(text)) && SingleSpaced(Preprocess(text))
  {
    StripSingleSpaced(Collapse(RemoveWord(RemoveWord(text, "kraftverk"), "kraftselskap")));
  }

  // ---------------------------------------------------------------------
  // The imperative form
  // ---------------------------------------------------------------------

  /** The loop over the split names, extending `all_results`. */
  method ScoreNames(names: seq<string>, pi: PreparedIndex, endingMap: EndingMap, suffixes: seq<string>)
    returns (all: seq<MatchResult>)
    requires WellFormed(pi)
    ensures all == ScoreAll(names, pi, endingMap, suffixes)
  {
    all := [];
    var i := 0;
    while i < |names|
      invariant 0 <= i <= |names|
      invariant all == ScoreAll(names[..i], pi, endingMap, suffixes)
    {
      var candidateResults := ScoreSingleName(names[i], pi, endingMap, suffixes);
      ScoreAllSnoc(names, i, pi, endingMap, suffixes);
      all := all + candidateResults;
      i := i + 1;
    }
    assert names[..i] == names;
  }

  lemma ScoreAllSnoc(names: seq<string>, i: nat, pi: PreparedIndex, endingMap: EndingMap, suffixes: seq<string>)
    requires WellFormed(pi) && i < |names|
    ensures ScoreAll(names[..i + 1], pi, endingMap, suffixes)
      == ScoreAll(names[..i], pi, endingMap, suffixes) + ScoreSingleNameOf(names[i], pi, endingMap, suffixes)
  {
    assert names[..i + 1][..i] == names[..i];
  }

  /** The coordinate bonus step, on a fresh array of the results. */
  method WithBonus(all: seq<MatchResult>, coord: Option<(real, real)>, dist: Distance)
    returns (r: seq<MatchResult>)
    ensures r == if coord.Some? then CoordinateBonusOf(all, coord.value, dist) else all
  {
    r := all;
    if coord.Some? {
      var arr := new MatchResult[|all|](k requires 0 <= k < |all| => all[k]);
      assert arr[..] == all;
      ApplyCoordinateBonus(arr, coord.value, dist);
      r := arr[..];
    }
  }

  /** `resolve_vassdrag` once the suffix table is built. */
  method ResolveWith(text: string, es: seq<Entry>, endingMap: EndingMap, suffixes: seq<string>,
                     coord: Option<(real, real)>, dist: Distance)
    returns (results: seq<MatchResult>)
    ensures results == ResolveOf(text, es, endingMap, suffixes, coord, dist)
  {
    var t := Preprocess(text);
    if t == [] {
      return [];
    }
    var pi := BuildPreparedIndex(es, endingMap, suffixes);
    PreparedIndexWellFormed(es, endingMap, suffixes);
    var names := SplitNames(t, suffixes);
    var scored := ScoreNames(names, pi, endingMap, suffixes);
    var all := WithBonus(scored, coord, dist);
    var filtered := KeepScoring(all);
    results := SortBy(filtered, ResultBefore);
  }

  /** `resolve_vassdrag(text, regine_index=es, ending_map=endingMap, coord=coord)`. */
  method Resolve(text: string, es: seq<Entry>, endingMap: EndingMap, coord: Option<(real, real)>, dist: Distance)
    returns (results: seq<MatchResult>)
    ensures exists suffixes: seq<string> ::
      (set x | x in suffixes) == endingMap.Keys + ExtraSuffixes && LongestFirst(suffixes)
      && results == ResolveOf(text, es, endingMap, suffixes, coord, dist)
    ensures Preprocess(text) == [] ==> results == []
    ensures forall k :: 0 <= k < |results| ==> results[k].score >= MinScore
    ensures SortedBy(results, ResultBefore)
  {
    var suffixes := CollectSuffixes(endingMap);
    results := ResolveWith(text, es, endingMap, suffixes, coord, dist);
    ResolveSpec(text, es, endingMap, suffixes, coord, dist);
  }
}
