/**
 * `resolve_vassdrag_single`, `resolve_vassdrag` and
 * `resolve_composite_vassdrag` of the older resolver: the variants are
 * looked up exactly, then by prefix, then phonetically, then the important
 * variants phonetically, each phase adding only numbers not seen before;
 * the matches are sorted by score, highest first, and cut to the limit.
 */
module LegacyResolver {
  import opened Text
  import opened Opt
  import opened Sorting
  import opened Regine
  import opened CategoryNormalization
  import opened LegacyNames
  import opened LegacyLookup
  import opened LegacyVariants

  /**
   * One result dictionary. `prefixBonus` is 0 where the dictionary has no
   * such key; `originalPart` is present exactly for the parts of a composite
   * name (which also carry `is_composite`).
   */
  datatype LegacyMatch = LegacyMatch(
    originalInput: string,
    matchedNavn: string,
    matchedVariant: string,
    vassdragsnr: string,
    lat: Option<real>,
    long: Option<real>,
    score: int,
    matchType: string,
    vassdragsnrBonus: int,
    prefixBonus: int,
    originalPart: Option<string>)

  function VnrOf(m: LegacyMatch): string { m.vassdragsnr }

  /** `key=lambda x: x["score"], reverse=True`: a higher score comes first. */
  predicate HigherScore(a: LegacyMatch, b: LegacyMatch) { a.score > b.score }

  function FieldName(f: Field): string {
    match f
    case Navn => "navn"
    case NavnNormalisert => "navn_normalisert"
  }

  function Max(a: int, b: int): int { if a >= b then a else b }

  // ---------------------------------------------------------------------
  // The candidates of the four phases
  // ---------------------------------------------------------------------

  /** Phase 1: an exact hit of a variant scores the variant's score plus the number bonus. */
  function ExactCandidate(original: string, v: Variant, e: Entry): LegacyMatch {
    var bonus := VassdragsnrBonus(e.vassdragsnr);
    LegacyMatch(original, e.navn, v.text, e.vassdragsnr, e.lat, e.long, v.score + bonus, v.description, bonus, 0, None)
  }

  function ExactHit(original: string, v: Variant, es: seq<Entry>): seq<LegacyMatch> {
    match ExactMatchOf(v.text, es)
    case Some(e) => [ExactCandidate(original, v, e)]
    case None => []
  }

  /** The exact hits of a prefix of the variants, in variant order. */
  function ExactCandidates(original: string, vs: seq<Variant>, es: seq<Entry>): seq<LegacyMatch> {
    if |vs| == 0 then []
    else ExactCandidates(original, vs[..|vs| - 1], es) + ExactHit(original, vs[|vs| - 1], es)
  }

  /** Phase 2: a prefix hit scores 96 on `navn`, 94 on `navn_normalisert`, plus the number bonus and 25. */
  function StartswithCandidate(original: string, x: (Entry, Field)): LegacyMatch {
    var e := x.0;
    var f := x.1;
    var bonus := VassdragsnrBonus(e.vassdragsnr);
    LegacyMatch(original, e.navn, FieldValue(e, f), e.vassdragsnr, e.lat, e.long,
      (if f == Navn then 96 else 94) + bonus + 25, "startswith_" + FieldName(f), bonus, 25, None)
  }

  function StartswithCandidates(original: string, xs: seq<(Entry, Field)>): seq<LegacyMatch> {
    if |xs| == 0 then []
    else StartswithCandidates(original, xs[..|xs| - 1]) + [StartswithCandidate(original, xs[|xs| - 1])]
  }

  /**
   * The prefix bonus of the phonetic phases, for the lowered field value and
   * the lowered query: 25 when both have three letters and one starts with
   * the other; else 12 or 8 when the first two or only the first letter
   * agree; else -15 when the first letters differ and the distance is not 0.
   */
  function FuzzyPrefixBonus(matchedValue: string, query: string, distance: nat): int {
    if matchedValue == [] || query == [] then 0
    else if |query| >= 3 && |matchedValue| >= 3 && MutualPrefix(matchedValue, query) then 25
    else if matchedValue[0] == query[0] then
      if |matchedValue| >= 2 && |query| >= 2 && matchedValue[..2] == query[..2] then 12 else 8
    else if distance >= 1 then -15
    else 0
  }

  function DistanceTag(m: FuzzyMatch): string {
    FieldName(m.field) + "_dist" + NatToString(m.distance)
  }

  /** Phase 3: 95 less 3 per unit of distance, plus the number bonus and the prefix bonus. */
  function FuzzyCandidate(original: string, m: FuzzyMatch): LegacyMatch {
    var value := FieldValue(m.entry, m.field);
    var bonus := VassdragsnrBonus(m.entry.vassdragsnr);
    var prefixBonus := FuzzyPrefixBonus(Lower(value), Lower(original), m.distance);
    LegacyMatch(original, m.entry.navn, value, m.entry.vassdragsnr, m.entry.lat, m.entry.long,
      95 - m.distance * 3 + bonus + prefixBonus, "fuzzy_" + DistanceTag(m), bonus, prefixBonus, None)
  }

  function FuzzyCandidates(original: string, ms: seq<FuzzyMatch>): seq<LegacyMatch> {
    if |ms| == 0 then []
    else FuzzyCandidates(original, ms[..|ms| - 1]) + [FuzzyCandidate(original, ms[|ms| - 1])]
  }

  /** Phase 4: the variant's score less 3 per unit of distance, at least 50, plus both bonuses. */
  function ImportantCandidate(original: string, variant: Variant, m: FuzzyMatch): LegacyMatch {
    var value := FieldValue(m.entry, m.field);
    var bonus := VassdragsnrBonus(m.entry.vassdragsnr);
    var prefixBonus := FuzzyPrefixBonus(Lower(value), Lower(variant.text), m.distance);
    LegacyMatch(original, m.entry.navn, value, m.entry.vassdragsnr, m.entry.lat, m.entry.long,
      Max(variant.score - m.distance * 3, 50) + bonus + prefixBonus,
      variant.description + "_fuzzy_" + DistanceTag(m), bonus, prefixBonus, None)
  }

  function ImportantCandidates(original: string, variant: Variant, ms: seq<FuzzyMatch>): seq<LegacyMatch> {
    if |ms| == 0 then []
    else ImportantCandidates(original, variant, ms[..|ms| - 1]) + [ImportantCandidate(original, variant, ms[|ms| - 1])]
  }

  const ImportantTypes: seq<string> := ["no_directional", "no_directional_normalized", "normalized", "stem_normalized"]

  /** The variants whose description is one of the important types, in order. */
  function ImportantOf(vs: seq<Variant>): (r: seq<Variant>)
    ensures forall v :: v in r ==> v in vs && v.description in ImportantTypes
  {
    if |vs| == 0 then []
    else ImportantOf(vs[..|vs| - 1]) + (if vs[|vs| - 1].description in ImportantTypes then [vs[|vs| - 1]] else [])
  }

  // ---------------------------------------------------------------------
  // Deduplication by number
  // ---------------------------------------------------------------------

  /** `seen_vassdragsnr`: the numbers of the matches so far. */
  function Vnrs(ms: seq<LegacyMatch>): set<string> {
    if |ms| == 0 then {} else Vnrs(ms[..|ms| - 1]) + {ms[|ms| - 1].vassdragsnr}
  }

  /** A candidate is appended when its number is new. */
  function Add(acc: seq<LegacyMatch>, c: LegacyMatch): seq<LegacyMatch> {
    if c.vassdragsnr in Vnrs(acc) then acc else acc + [c]
  }

  /** The candidates of a phase, one after another. */
  function AddUnseen(acc: seq<LegacyMatch>, cs: seq<LegacyMatch>): seq<LegacyMatch> {
    if |cs| == 0 then acc else Add(AddUnseen(acc, cs[..|cs| - 1]), cs[|cs| - 1])
  }

  /** Phase 4 over a prefix of the important variants; a full list ends it (the `break`). */
  function ImportantPhase(acc: seq<LegacyMatch>, original: string, vs: seq<Variant>, es: seq<Entry>, maxResults: int)
    : seq<LegacyMatch>
  {
    if |vs| == 0 then acc
    else
      var p := ImportantPhase(acc, original, vs[..|vs| - 1], es, maxResults);
      if |p| >= maxResults then p
      else AddUnseen(p, ImportantCandidates(original, vs[|vs| - 1], FuzzyMatchesOf(vs[|vs| - 1].text, es, 2, 5)))
  }

  /** The matches of the four phases, before the sort; a phase runs only while the list is short. */
  function CollectedFrom(original: string, variants: seq<Variant>, es: seq<Entry>, maxResults: int): seq<LegacyMatch> {
    LaterPhases(AddUnseen([], ExactCandidates(original, variants, es)), original, variants, es, maxResults)
  }

  /** Phases 2 to 4 after the exact matches `m1`. */
  function LaterPhases(m1: seq<LegacyMatch>, original: string, variants: seq<Variant>, es: seq<Entry>, maxResults: int)
    : seq<LegacyMatch>
  {
    var m2 := if |m1| < maxResults then AddUnseen(m1, StartswithCandidates(original, StartswithMatchesOf(original, es, 3))) else m1;
    var m3 := if |m2| < maxResults then AddUnseen(m2, FuzzyCandidates(original, FuzzyMatchesOf(original, es, 2, 5))) else m2;
    if |m3| < maxResults then ImportantPhase(m3, original, ImportantOf(variants), es, maxResults) else m3
  }

  /** Python's `s[:n]`. */
  function Top(s: seq<LegacyMatch>, n: int): (r: seq<LegacyMatch>)
    ensures |r| <= |s| && r == s[..|r|]
    ensures n >= 0 ==> |r| == if n <= |s| then n else |s|
  {
    if n >= 0 then (if n <= |s| then s[..n] else s)
    else if |s| + n >= 0 then s[..|s| + n] else []
  }

  /** `resolve_vassdrag_single(vassdragsforslag, …, max_results)`. */
  function ResolveSingleOf(original: string, endingMap: EndingMap, es: seq<Entry>, maxResults: int): seq<LegacyMatch> {
    Top(SortBy(CollectedFrom(original, VariantsOf(original, endingMap), es, maxResults), HigherScore), maxResults)
  }

  // ---------------------------------------------------------------------
  // Properties of the single-name resolver
  // ---------------------------------------------------------------------

  /** The row's number, name and coordinates are those of an index entry. */
  predicate FromIndex(m: LegacyMatch, es: seq<Entry>) {
    exists e :: e in es && m.vassdragsnr == e.vassdragsnr && m.matchedNavn == e.navn && m.lat == e.lat && m.long == e.long
  }

  /** A match of the single-name resolver for this query. */
  predicate Tagged(m: LegacyMatch, original: string, es: seq<Entry>) {
    m.originalInput == original && m.originalPart.None? && FromIndex(m, es)
  }

  predicate AllTagged(ms: seq<LegacyMatch>, original: string, es: seq<Entry>) {
    forall m :: m in ms ==> Tagged(m, original, es)
  }

  lemma {:induction false} VnrsMembers(ms: seq<LegacyMatch>)
    ensures forall v :: v in Vnrs(ms) <==> exists k :: 0 <= k < |ms| && ms[k].vassdragsnr == v
    decreases |ms|
  {
    if |ms| > 0 {
      var p := ms[..|ms| - 1];
      VnrsMembers(p);
      forall v ensures v in Vnrs(ms) <==> exists k :: 0 <= k < |ms| && ms[k].vassdragsnr == v {
        if v in Vnrs(p) {
          var k :| 0 <= k < |p| && p[k].vassdragsnr == v;
          assert ms[k] == p[k];
        }
        if exists k :: 0 <= k < |ms| && ms[k].vassdragsnr == v {
          var k :| 0 <= k < |ms| && ms[k].vassdragsnr == v;
          if k < |p| {
            assert p[k] == ms[k];
          }
        }
      }
    }
  }

  /** Adding keeps the list as a prefix, keeps numbers distinct, and adds only the candidate. */
  lemma AddSpec(acc: seq<LegacyMatch>, c: LegacyMatch)
    requires DistinctBy(acc, VnrOf)
    ensures DistinctBy(Add(acc, c), VnrOf)
    ensures |Add(acc, c)| >= |acc| && Add(acc, c)[..|acc|] == acc
    ensures forall m :: m in Add(acc, c) ==> m in acc || m == c
  {
    VnrsMembers(acc);
    if c.vassdragsnr !in Vnrs(acc) {
      var r := acc + [c];
      assert forall k :: 0 <= k < |acc| ==> VnrOf(acc[k]) != VnrOf(c);
      assert r[..|acc|] == acc;
      forall i, j | 0 <= i < j < |r| ensures VnrOf(r[i]) != VnrOf(r[j]) {
        if j < |acc| {
          assert r[i] == acc[i] && r[j] == acc[j];
        } else {
          assert r[i] == acc[i] && r[j] == c;
        }
      }
    }
  }

  lemma {:induction false} AddUnseenSpec(acc: seq<LegacyMatch>, cs: seq<LegacyMatch>)
    requires DistinctBy(acc, VnrOf)
    ensures DistinctBy(AddUnseen(acc, cs), VnrOf)
    ensures |AddUnseen(acc, cs)| >= |acc| && AddUnseen(acc, cs)[..|acc|] == acc
    ensures forall m :: m in AddUnseen(acc, cs) ==> m in acc || m in cs
    decreases |cs|
  {
    if |cs| > 0 {
      var p := AddUnseen(acc, cs[..|cs| - 1]);
      AddUnseenSpec(acc, cs[..|cs| - 1]);
      AddSpec(p, cs[|cs| - 1]);
      assert AddUnseen(acc, cs)[..|acc|] == p[..|acc|];
      forall m | m in AddUnseen(acc, cs) ensures m in acc || m in cs {
        if m in p && m !in acc {
          assert m in cs[..|cs| - 1];
        }
      }
    }
  }

  lemma {:induction false} ExactCandidatesTagged(original: string, vs: seq<Variant>, es: seq<Entry>)
    ensures AllTagged(ExactCandidates(original, vs, es), original, es)
    decreases |vs|
  {
    if |vs| > 0 {
      ExactCandidatesTagged(original, vs[..|vs| - 1], es);
      var v := vs[|vs| - 1];
      match ExactMatchOf(v.text, es)
      case Some(e) =>
        assert Tagged(ExactCandidate(original, v, e), original, es) by {
          assert e in es;
        }
      case None =>
    }
  }

  lemma {:induction false} StartswithCandidatesTagged(original: string, xs: seq<(Entry, Field)>, es: seq<Entry>)
    requires forall x :: x in xs ==> x.0 in es
    ensures AllTagged(StartswithCandidates(original, xs), original, es)
    decreases |xs|
  {
    if |xs| > 0 {
      var x := xs[|xs| - 1];
      assert x in xs;
      StartswithCandidatesTagged(original, xs[..|xs| - 1], es);
      assert Tagged(StartswithCandidate(original, x), original, es) by {
        assert x.0 in es;
      }
    }
  }

  lemma {:induction false} FuzzyCandidatesTagged(original: string, ms: seq<FuzzyMatch>, es: seq<Entry>)
    requires forall m :: m in ms ==> m.entry in es
    ensures AllTagged(FuzzyCandidates(original, ms), original, es)
    decreases |ms|
  {
    if |ms| > 0 {
      var m := ms[|ms| - 1];
      assert m in ms;
      FuzzyCandidatesTagged(original, ms[..|ms| - 1], es);
      assert Tagged(FuzzyCandidate(original, m), original, es) by {
        assert m.entry in es;
      }
    }
  }

  lemma {:induction false} ImportantCandidatesTagged(original: string, v: Variant, ms: seq<FuzzyMatch>, es: seq<Entry>)
    requires forall m :: m in ms ==> m.entry in es
    ensures AllTagged(ImportantCandidates(original, v, ms), original, es)
    decreases |ms|
  {
    if |ms| > 0 {
      var m := ms[|ms| - 1];
      assert m in ms;
      ImportantCandidatesTagged(original, v, ms[..|ms| - 1], es);
      assert Tagged(ImportantCandidate(original, v, m), original, es) by {
        assert m.entry in es;
      }
    }
  }

  /** Lists of distinct numbers, all from the index, for this query. */
  predicate GoodMatches(ms: seq<LegacyMatch>, original: string, es: seq<Entry>) {
    DistinctBy(ms, VnrOf) && AllTagged(ms, original, es)
  }

  lemma AddUnseenGood(acc: seq<LegacyMatch>, cs: seq<LegacyMatch>, original: string, es: seq<Entry>)
    requires GoodMatches(acc, original, es) && AllTagged(cs, original, es)
    ensures GoodMatches(AddUnseen(acc, cs), original, es)
    ensures |AddUnseen(acc, cs)| >= |acc| && AddUnseen(acc, cs)[..|acc|] == acc
  {
    AddUnseenSpec(acc, cs);
  }

  lemma FuzzyEntriesInIndex(search: string, es: seq<Entry>)
    ensures forall m :: m in FuzzyMatchesOf(search, es, 2, 5) ==> m.entry in es
  {
    FuzzyMatchesSpec(search, es, 2, 5);
  }

  lemma {:induction false} ImportantPhaseGood(acc: seq<LegacyMatch>, original: string, vs: seq<Variant>, es: seq<Entry>, maxResults: int)
    requires GoodMatches(acc, original, es)
    ensures GoodMatches(ImportantPhase(acc, original, vs, es, maxResults), original, es)
    ensures |ImportantPhase(acc, original, vs, es, maxResults)| >= |acc|
    ensures ImportantPhase(acc, original, vs, es, maxResults)[..|acc|] == acc
    decreases |vs|
  {
    if |vs| > 0 {
      ImportantPhaseGood(acc, original, vs[..|vs| - 1], es, maxResults);
      var p := ImportantPhase(acc, original, vs[..|vs| - 1], es, maxResults);
      if |p| < maxResults {
        var v := vs[|vs| - 1];
        FuzzyEntriesInIndex(v.text, es);
        ImportantCandidatesTagged(original, v, FuzzyMatchesOf(v.text, es, 2, 5), es);
        AddUnseenGood(p, ImportantCandidates(original, v, FuzzyMatchesOf(v.text, es, 2, 5)), original, es);
        assert ImportantPhase(acc, original, vs, es, maxResults)[..|acc|] == p[..|acc|];
      }
    }
  }

  /** The four phases keep numbers distinct and take every row from the index; phase 1 comes first. */
  lemma CollectedGood(original: string, variants: seq<Variant>, es: seq<Entry>, maxResults: int)
    ensures GoodMatches(CollectedFrom(original, variants, es, maxResults), original, es)
    ensures var m1 := AddUnseen([], ExactCandidates(original, variants, es));
      |CollectedFrom(original, variants, es, maxResults)| >= |m1|
      && CollectedFrom(original, variants, es, maxResults)[..|m1|] == m1
  {
    ExactCandidatesTagged(original, variants, es);
    AddUnseenGood([], ExactCandidates(original, variants, es), original, es);
    LaterPhasesGood(AddUnseen([], ExactCandidates(original, variants, es)), original, variants, es, maxResults);
  }

  /** Phases 2 to 4 keep a good list good and keep it at their head. */
  lemma LaterPhasesGood(m1: seq<LegacyMatch>, original: string, variants: seq<Variant>, es: seq<Entry>, maxResults: int)
    requires GoodMatches(m1, original, es)
    ensures GoodMatches(LaterPhases(m1, original, variants, es, maxResults), original, es)
    ensures |LaterPhases(m1, original, variants, es, maxResults)| >= |m1|
      && LaterPhases(m1, original, variants, es, maxResults)[..|m1|] == m1
  {
    var m2 := if |m1| < maxResults then AddUnseen(m1, StartswithCandidates(original, StartswithMatchesOf(original, es, 3))) else m1;
    if |m1| < maxResults {
      StartswithPhaseGood(m1, original, es);
    }
    var m3 := if |m2| < maxResults then AddUnseen(m2, FuzzyCandidates(original, FuzzyMatchesOf(original, es, 2, 5))) else m2;
    if |m2| < maxResults {
      FuzzyPhaseGood(m2, original, es);
    }
    ExtendsTrans(m1, m2, m3);
    if |m3| < maxResults {
      ImportantPhaseGood(m3, original, ImportantOf(variants), es, maxResults);
      ExtendsTrans(m1, m3, ImportantPhase(m3, original, ImportantOf(variants), es, maxResults));
    }
  }

  /** The second phase, `startswith` matches of the whole name, keeps a good list good. */
  lemma StartswithPhaseGood(acc: seq<LegacyMatch>, original: string, es: seq<Entry>)
    requires GoodMatches(acc, original, es)
    ensures var r := AddUnseen(acc, StartswithCandidates(original, StartswithMatchesOf(original, es, 3)));
      GoodMatches(r, original, es) && |r| >= |acc| && r[..|acc|] == acc
  {
    var xs := StartswithMatchesOf(original, es, 3);
    StartswithMatchesSpec(original, es, 3);
    StartswithCandidatesTagged(original, xs, es);
    AddUnseenGood(acc, StartswithCandidates(original, xs), original, es);
  }

  /** The third phase, fuzzy matches of the whole name, keeps a good list good. */
  lemma FuzzyPhaseGood(acc: seq<LegacyMatch>, original: string, es: seq<Entry>)
    requires GoodMatches(acc, original, es)
    ensures var r := AddUnseen(acc, FuzzyCandidates(original, FuzzyMatchesOf(original, es, 2, 5)));
      GoodMatches(r, original, es) && |r| >= |acc| && r[..|acc|] == acc
  {
    var ms := FuzzyMatchesOf(original, es, 2, 5);
    FuzzyEntriesInIndex(original, es);
    FuzzyCandidatesTagged(original, ms, es);
    AddUnseenGood(acc, FuzzyCandidates(original, ms), original, es);
  }

  /** A list that starts with `b`, which starts with `a`, starts with `a`. */
  lemma ExtendsTrans(a: seq<LegacyMatch>, b: seq<LegacyMatch>, c: seq<LegacyMatch>)
    requires |b| >= |a| && b[..|a|] == a && |c| >= |b| && c[..|b|] == b
    ensures |c| >= |a| && c[..|a|] == a
  {
    assert c[..|a|] == b[..|a|];
  }

  /**
   * `resolve_vassdrag_single`: no number occurs twice, scores never rise
   * along the list, there are at most `max_results` matches, and every
   * match is a row of the index reported for this query.
   */
  lemma ResolveSingleSpec(original: string, endingMap: EndingMap, es: seq<Entry>, maxResults: int)
    ensures DistinctBy(ResolveSingleOf(original, endingMap, es, maxResults), VnrOf)
    ensures forall i, j :: 0 <= i < j < |ResolveSingleOf(original, endingMap, es, maxResults)| ==>
      ResolveSingleOf(original, endingMap, es, maxResults)[i].score >= ResolveSingleOf(original, endingMap, es, maxResults)[j].score
    ensures maxResults >= 0 ==> |ResolveSingleOf(original, endingMap, es, maxResults)| <= maxResults
    ensures AllTagged(ResolveSingleOf(original, endingMap, es, maxResults), original, es)
  {
    var vs := VariantsOf(original, endingMap);
    CollectedGood(original, vs, es, maxResults);
    SortedTop(CollectedFrom(original, vs, es, maxResults), original, es, maxResults);
  }

  /** Sorting by score and cutting to the limit keeps a good list good. */
  lemma SortedTop(c: seq<LegacyMatch>, original: string, es: seq<Entry>, maxResults: int)
    requires GoodMatches(c, original, es)
    ensures var r := Top(SortBy(c, HigherScore), maxResults);
      GoodMatches(r, original, es)
      && (forall i, j :: 0 <= i < j < |r| ==> r[i].score >= r[j].score)
      && (maxResults >= 0 ==> |r| <= maxResults)
  {
    var s := SortBy(c, HigherScore);
    SortByDistinctBy(c, HigherScore, VnrOf);
    SortBySorted(c, HigherScore);
    SortByElements(c, HigherScore);
    var r := Top(s, maxResults);
    forall i, j | 0 <= i < j < |r| ensures VnrOf(r[i]) != VnrOf(r[j]) && r[i].score >= r[j].score {
      assert r[i] == s[i] && r[j] == s[j];
      assert !HigherScore(s[j], s[i]);
    }
    forall m | m in r ensures Tagged(m, original, es) {
      var k :| 0 <= k < |r| && r[k] == m;
      assert s[k] == m;
      assert m in s;
    }
  }

  /** The first variant's exact hit heads phase 1's list. */
  lemma {:induction false} ExactCandidatesHead(original: string, vs: seq<Variant>, es: seq<Entry>, e: Entry)
    requires |vs| > 0 && ExactMatchOf(vs[0].text, es) == Some(e)
    ensures |ExactCandidates(original, vs, es)| > 0
    ensures ExactCandidates(original, vs, es)[0] == ExactCandidate(original, vs[0], e)
    decreases |vs|
  {
    if |vs| > 1 {
      ExactCandidatesHead(original, vs[..|vs| - 1], es, e);
    }
  }

  lemma {:induction false} AddUnseenHead(cs: seq<LegacyMatch>)
    requires |cs| > 0
    ensures |AddUnseen([], cs)| > 0 && AddUnseen([], cs)[0] == cs[0]
    decreases |cs|
  {
    if |cs| > 1 {
      AddUnseenHead(cs[..|cs| - 1]);
      AddUnseenSpec([], cs[..|cs| - 1]);
      AddSpec(AddUnseen([], cs[..|cs| - 1]), cs[|cs| - 1]);
    }
  }

  /**
   * When the name itself matches an index entry exactly, that entry is the
   * first match collected, scored 100 plus its number bonus, described as
   * "original".
   */
  lemma OriginalFirst(original: string, endingMap: EndingMap, es: seq<Entry>, maxResults: int, e: Entry)
    requires ExactMatchOf(original, es) == Some(e)
    ensures var c := CollectedFrom(original, VariantsOf(original, endingMap), es, maxResults);
      |c| > 0 && c[0] == LegacyMatch(original, e.navn, original, e.vassdragsnr, e.lat, e.long,
        100 + VassdragsnrBonus(e.vassdragsnr), "original", VassdragsnrBonus(e.vassdragsnr), 0, None)
  {
    VariantsSpec(original, endingMap);
    CollectedHead(original, VariantsOf(original, endingMap), es, maxResults, e);
  }

  /** The first variant's exact hit is the first match collected. */
  lemma CollectedHead(original: string, vs: seq<Variant>, es: seq<Entry>, maxResults: int, e: Entry)
    requires |vs| > 0 && ExactMatchOf(vs[0].text, es) == Some(e)
    ensures |CollectedFrom(original, vs, es, maxResults)| > 0
    ensures CollectedFrom(original, vs, es, maxResults)[0] == ExactCandidate(original, vs[0], e)
  {
    ExactCandidatesHead(original, vs, es, e);
    AddUnseenHead(ExactCandidates(original, vs, es));
    CollectedGood(original, vs, es, maxResults);
    var m1 := AddUnseen([], ExactCandidates(original, vs, es));
    assert CollectedFrom(original, vs, es, maxResults)[..|m1|][0] == m1[0];
  }

  /** The signs of the phonetic prefix bonus. */
  lemma FuzzyPrefixBonusSpec(matchedValue: string, query: string, distance: nat)
    ensures var b := FuzzyPrefixBonus(matchedValue, query, distance);
      (b == -15 || b == 0 || b == 8 || b == 12 || b == 25)
      && (b > 0 ==> matchedValue[0] == query[0])
      && (b == 12 ==> matchedValue[..2] == query[..2])
      && (b < 0 ==> distance >= 1 && matchedValue[0] != query[0])
      && (b == 0 ==> matchedValue == [] || query == [] || (distance == 0 && matchedValue[0] != query[0]))
  {
    var b := FuzzyPrefixBonus(matchedValue, query, distance);
    if b == 25 {
      assert matchedValue[0] == matchedValue[..1][0] && query[0] == query[..1][0];
    }
  }

  // ---------------------------------------------------------------------
  // Composite names
  // ---------------------------------------------------------------------

  /**
   * The end of a match of `\s+og\s+` (case-insensitive) starting at i: the
   * first run of spaces is followed by "og" and a second run, which the
   * match takes whole.
   */
  function OgMatchAt(s: string, i: nat): (r: Option<nat>)
    requires i <= |s|
    ensures r.Some? ==> i < r.value <= |s|
  {
    if i < |s| && IsSpace(s[i]) then
      var j := SpaceRunEnd(s, i);
      if j + 2 < |s| && LowerChar(s[j]) == 'o' && LowerChar(s[j + 1]) == 'g' && IsSpace(s[j + 2])
      then Some(SpaceRunEnd(s, j + 2))
      else None
    else None
  }

  /** The leftmost match at or after position i, as (start, end). */
  function FirstOgMatch(s: string, i: nat): (r: Option<(nat, nat)>)
    requires i <= |s|
    ensures r.Some? ==> i <= r.value.0 < r.value.1 <= |s| && OgMatchAt(s, r.value.0) == Some(r.value.1)
    decreases |s| - i
  {
    if i == |s| then None
    else match OgMatchAt(s, i)
      case Some(j) => Some((i, j))
      case None => FirstOgMatch(s, i + 1)
  }

  /** `re.split(r'\s+og\s+', s, flags=re.IGNORECASE)`. */
  function OgSplit(s: string): (ps: seq<string>)
    ensures |ps| >= 1
    decreases |s|
  {
    match FirstOgMatch(s, 0)
    case None => [s]
    case Some(m) => [s[..m.0]] + OgSplit(s[m.1..])
  }

  lemma {:induction false} FirstOgMatchFinds(s: string, i: nat, k: nat)
    requires i <= k < |s| && OgMatchAt(s, k).Some?
    ensures FirstOgMatch(s, i).Some?
    decreases k - i
  {
    if OgMatchAt(s, i).None? {
      FirstOgMatchFinds(s, i + 1, k);
    }
  }

  /** A name with " og " in its lowered form splits into at least two parts. */
  lemma OgSplitsInTwo(s: string)
    requires Contains(Lower(s), " og ")
    ensures |OgSplit(s)| >= 2
  {
    var l := Lower(s);
    ContainsIndex(l, " og ");
    var k :| OccursAt(l, " og ", k);
    assert l[k] == ' ' && l[k + 1] == 'o' && l[k + 2] == 'g' && l[k + 3] == ' ' by {
      assert l[k..k + 4][0] == l[k] && l[k..k + 4][1] == l[k + 1];
      assert l[k..k + 4][2] == l[k + 2] && l[k..k + 4][3] == l[k + 3];
    }
    assert IsSpace(s[k]) && IsSpace(s[k + 3]);
    assert !IsSpace(s[k + 1]);
    assert SpaceRunEnd(s, k) == k + 1 by {
      assert SpaceRunEnd(s, k + 1) == k + 1;
    }
    FirstOgMatchFinds(s, 0, k);
  }

  const CompositeSkipWords: seq<string> := ["vassdragene", "vassdraget", "vassdrag", "kraftverk", "verk"]

  /** A stripped piece is kept unless it is empty, a generic word, or shorter than three. */
  predicate KeptPart(p: string) {
    p != [] && Lower(p) !in CompositeSkipWords && |p| >= 3
  }

  /** `cleaned_parts` for a prefix of the hyphen pieces. */
  function CleanPartsOf(ps: seq<string>): seq<string> {
    if |ps| == 0 then []
    else
      var p := Strip(ps[|ps| - 1]);
      CleanPartsOf(ps[..|ps| - 1]) + (if KeptPart(p) then [p] else [])
  }

  /** Every cleaned part is stripped and kept. */
  lemma {:induction false} CleanPartsKept(ps: seq<string>)
    ensures forall p :: p in CleanPartsOf(ps) ==> KeptPart(p) && IsStripped(p)
    decreases |ps|
  {
    if |ps| > 0 {
      CleanPartsKept(ps[..|ps| - 1]);
      assert IsStripped(Strip(ps[|ps| - 1]));
    }
  }

  /** Every stripped piece that qualifies is among the cleaned parts. */
  lemma {:induction false} CleanPartsComplete(ps: seq<string>, k: nat)
    requires k < |ps| && KeptPart(Strip(ps[k]))
    ensures Strip(ps[k]) in CleanPartsOf(ps)
    decreases |ps|
  {
    if k < |ps| - 1 {
      CleanPartsComplete(ps[..|ps| - 1], k);
    }
  }

  /** `parts`: the " og " split, or the cleaned hyphen pieces when there are two or more. */
  function CompositePartsOf(text: string): seq<string> {
    if Contains(Lower(text), " og ") then OgSplit(text)
    else if '-' in text then
      var cleaned := CleanPartsOf(SplitOn(text, '-'));
      if |cleaned| >= 2 then cleaned else []
    else []
  }

  /** The part's matches, marked as belonging to the whole name. */
  function Relabel(ms: seq<LegacyMatch>, original: string, part: string): (r: seq<LegacyMatch>)
    ensures |r| == |ms|
    ensures forall k :: 0 <= k < |r| ==> r[k] == ms[k].(originalInput := original, originalPart := Some(part))
  {
    if |ms| == 0 then []
    else Relabel(ms[..|ms| - 1], original, part) + [ms[|ms| - 1].(originalInput := original, originalPart := Some(part))]
  }

  /** The rows one stripped part contributes: none when it is empty. */
  function PartRows(original: string, part: string, endingMap: EndingMap, es: seq<Entry>, maxResults: int): seq<LegacyMatch> {
    if part == [] then [] else Relabel(ResolveSingleOf(part, endingMap, es, maxResults), original, part)
  }

  /** `all_matches` for a prefix of the parts. */
  function CompositeMatches(original: string, parts: seq<string>, endingMap: EndingMap, es: seq<Entry>, maxResults: int)
    : seq<LegacyMatch>
  {
    if |parts| == 0 then []
    else
      var part := Strip(parts[|parts| - 1]);
      CompositeMatches(original, parts[..|parts| - 1], endingMap, es, maxResults) + PartRows(original, part, endingMap, es, maxResults)
  }

  /** `resolve_composite_vassdrag`: fewer than two parts fall back to the single-name search. */
  function CompositeOf(text: string, endingMap: EndingMap, es: seq<Entry>, maxResults: int): seq<LegacyMatch> {
    var parts := CompositePartsOf(text);
    if |parts| < 2 then ResolveSingleOf(text, endingMap, es, maxResults)
    else SortBy(CompositeMatches(text, parts, endingMap, es, maxResults), HigherScore)
  }

  /** `resolve_vassdrag`: names with " og " or a hyphen go the composite way. */
  function ResolveOf(text: string, endingMap: EndingMap, es: seq<Entry>, maxResults: int): seq<LegacyMatch> {
    if Contains(Lower(text), " og ") || '-' in text then CompositeOf(text, endingMap, es, maxResults)
    else ResolveSingleOf(text, endingMap, es, maxResults)
  }

  /** Every row of a relabelled part carries the whole name and that part. */
  lemma RelabelTagged(ms: seq<LegacyMatch>, original: string, part: string)
    ensures forall m :: m in Relabel(ms, original, part) ==> m.originalInput == original && m.originalPart == Some(part)
  {
    var rs := Relabel(ms, original, part);
    forall m | m in rs ensures m.originalInput == original && m.originalPart == Some(part) {
      var k :| 0 <= k < |rs| && rs[k] == m;
    }
  }

  /** Each composite match names the whole input and a non-empty stripped part. */
  lemma {:induction false} CompositeMatchesTagged(original: string, parts: seq<string>, endingMap: EndingMap, es: seq<Entry>, maxResults: int)
    ensures forall m :: m in CompositeMatches(original, parts, endingMap, es, maxResults) ==>
      m.originalInput == original && m.originalPart.Some? && m.originalPart.value != [] && IsStripped(m.originalPart.value)
    decreases |parts|
  {
    if |parts| > 0 {
      CompositeMatchesTagged(original, parts[..|parts| - 1], endingMap, es, maxResults);
      var part := Strip(parts[|parts| - 1]);
      if part != [] {
        RelabelTagged(ResolveSingleOf(part, endingMap, es, maxResults), original, part);
      }
    }
  }


  /**
   * A composite name is resolved as its parts: every match carries the whole
   * input and its non-empty part, the list is the parts' matches reordered,
   * and scores never rise along it. Numbers are not deduplicated across parts.
   */
  lemma CompositeSpec(text: string, endingMap: EndingMap, es: seq<Entry>, maxResults: int)
    requires |CompositePartsOf(text)| >= 2
    ensures var r := CompositeOf(text, endingMap, es, maxResults);
      multiset(r) == multiset(CompositeMatches(text, CompositePartsOf(text), endingMap, es, maxResults))
      && (forall i, j :: 0 <= i < j < |r| ==> r[i].score >= r[j].score)
      && forall m :: m in r ==> m.originalInput == text && m.originalPart.Some? && m.originalPart.value != []
  {
    var parts := CompositePartsOf(text);
    CompositeMatchesTagged(text, parts, endingMap, es, maxResults);
    SortedComposite(CompositeMatches(text, parts, endingMap, es, maxResults), text);
  }

  lemma SortedComposite(c: seq<LegacyMatch>, text: string)
    requires forall m :: m in c ==> m.originalInput == text && m.originalPart.Some? && m.originalPart.value != []
    ensures var r := SortBy(c, HigherScore);
      multiset(r) == multiset(c)
      && (forall i, j :: 0 <= i < j < |r| ==> r[i].score >= r[j].score)
      && forall m :: m in r ==> m.originalInput == text && m.originalPart.Some? && m.originalPart.value != []
  {
    SortByPermutation(c, HigherScore);
    SortBySorted(c, HigherScore);
    SortByElements(c, HigherScore);
    var r := SortBy(c, HigherScore);
    forall i, j | 0 <= i < j < |r| ensures r[i].score >= r[j].score {
      assert !HigherScore(r[j], r[i]);
    }
  }

  /** A name without " og " and without a hyphen is resolved as a single name. */
  lemma PlainNameIsSingle(text: string, endingMap: EndingMap, es: seq<Entry>, maxResults: int)
    requires !Contains(Lower(text), " og ") && '-' !in text
    ensures ResolveOf(text, endingMap, es, maxResults) == ResolveSingleOf(text, endingMap, es, maxResults)
  {
  }

  /** A name with " og " always takes the composite branch with at least two parts. */
  lemma OgNameIsComposite(text: string, endingMap: EndingMap, es: seq<Entry>, maxResults: int)
    requires Contains(Lower(text), " og ")
    ensures ResolveOf(text, endingMap, es, maxResults)
      == SortBy(CompositeMatches(text, OgSplit(text), endingMap, es, maxResults), HigherScore)
  {
    OgSplitsInTwo(text);
  }

  // ---------------------------------------------------------------------
  // The imperative form
  // ---------------------------------------------------------------------

  lemma AddUnseenSnoc(acc: seq<LegacyMatch>, cs: seq<LegacyMatch>, c: LegacyMatch)
    ensures AddUnseen(acc, cs + [c]) == Add(AddUnseen(acc, cs), c)
  {
    assert (cs + [c])[..|cs|] == cs;
  }

  /** One step of a phase: the candidate joins when its number is new. */
  method Push(matches0: seq<LegacyMatch>, seen0: set<string>, c: LegacyMatch)
    returns (matches: seq<LegacyMatch>, seen: set<string>)
    requires seen0 == Vnrs(matches0)
    ensures matches == Add(matches0, c) && seen == Vnrs(matches)
  {
    matches, seen := matches0, seen0;
    if c.vassdragsnr !in seen {
      assert (matches + [c])[..|matches|] == matches;
      matches := matches + [c];
      seen := seen + {c.vassdragsnr};
    }
  }

  lemma ExactCandidatesSnoc(original: string, vs: seq<Variant>, i: nat, es: seq<Entry>)
    requires i < |vs|
    ensures ExactCandidates(original, vs[..i + 1], es) == ExactCandidates(original, vs[..i], es) + ExactHit(original, vs[i], es)
  {
    assert vs[..i + 1][..i] == vs[..i];
  }

  /** Phase 1 as written: each variant's exact match, when its number is new. */
  method ExactPhase(original: string, variants: seq<Variant>, es: seq<Entry>, matches0: seq<LegacyMatch>, seen0: set<string>)
    returns (matches: seq<LegacyMatch>, seen: set<string>)
    requires seen0 == Vnrs(matches0)
    ensures matches == AddUnseen(matches0, ExactCandidates(original, variants, es)) && seen == Vnrs(matches)
  {
    matches, seen := matches0, seen0;
    ghost var cands: seq<LegacyMatch> := [];
    var i := 0;
    while i < |variants|
      invariant 0 <= i <= |variants|
      invariant cands == ExactCandidates(original, variants[..i], es)
      invariant matches == AddUnseen(matches0, cands) && seen == Vnrs(matches)
    {
      ExactCandidatesSnoc(original, variants, i, es);
      matches, seen := ExactStep(original, variants[i], es, matches0, cands, matches, seen);
      cands := cands + ExactHit(original, variants[i], es);
      i := i + 1;
    }
    assert variants[..i] == variants;
  }

  /** The loop body of phase 1 for the variant `v`. */
  method ExactStep(original: string, v: Variant, es: seq<Entry>, matches0: seq<LegacyMatch>, ghost cands: seq<LegacyMatch>,
                   matches1: seq<LegacyMatch>, seen1: set<string>)
    returns (matches: seq<LegacyMatch>, seen: set<string>)
    requires matches1 == AddUnseen(matches0, cands) && seen1 == Vnrs(matches1)
    ensures matches == AddUnseen(matches0, cands + ExactHit(original, v, es)) && seen == Vnrs(matches)
  {
    matches, seen := matches1, seen1;
    var found := FindExactMatch(v.text, es);
    AddUnseenAtMostOne(matches0, cands, ExactHit(original, v, es));
    if found.Some? {
      var e := found.value;
      var bonus := VassdragsnrBonus(e.vassdragsnr);
      var c := LegacyMatch(original, e.navn, v.text, e.vassdragsnr, e.lat, e.long,
        v.score + bonus, v.description, bonus, 0, None);
      assert c == ExactCandidate(original, v, e);
      matches, seen := Push(matches, seen, c);
    }
  }

  /** Adding at most one more candidate: the list as it was, or one `Add` step further. */
  lemma AddUnseenAtMostOne(acc: seq<LegacyMatch>, cs: seq<LegacyMatch>, hit: seq<LegacyMatch>)
    requires |hit| <= 1
    ensures AddUnseen(acc, cs + hit) == if hit == [] then AddUnseen(acc, cs) else Add(AddUnseen(acc, cs), hit[0])
  {
    if hit == [] {
      assert cs + hit == cs;
    } else {
      assert hit == [hit[0]];
      AddUnseenSnoc(acc, cs, hit[0]);
    }
  }

  lemma StartswithCandidatesSnoc(original: string, xs: seq<(Entry, Field)>, i: nat)
    requires i < |xs|
    ensures StartswithCandidates(original, xs[..i + 1]) == StartswithCandidates(original, xs[..i]) + [StartswithCandidate(original, xs[i])]
  {
    assert xs[..i + 1][..i] == xs[..i];
  }

  /** The row of one prefix hit. */
  method StartswithRow(original: string, e: Entry, f: Field) returns (c: LegacyMatch)
    ensures c == StartswithCandidate(original, (e, f))
  {
    var baseScore := if f == Navn then 96 else 94;
    var bonus := VassdragsnrBonus(e.vassdragsnr);
    var prefixBonus := 25;
    c := LegacyMatch(original, e.navn, FieldValue(e, f), e.vassdragsnr, e.lat, e.long,
      baseScore + bonus + prefixBonus, "startswith_" + FieldName(f), bonus, prefixBonus, None);
  }

  /** Phase 2 as written. */
  method StartswithPhase(original: string, xs: seq<(Entry, Field)>, matches0: seq<LegacyMatch>, seen0: set<string>)
    returns (matches: seq<LegacyMatch>, seen: set<string>)
    requires seen0 == Vnrs(matches0)
    ensures matches == AddUnseen(matches0, StartswithCandidates(original, xs)) && seen == Vnrs(matches)
  {
    matches, seen := matches0, seen0;
    ghost var cands: seq<LegacyMatch> := [];
    var i := 0;
    while i < |xs|
      invariant 0 <= i <= |xs|
      invariant cands == StartswithCandidates(original, xs[..i])
      invariant matches == AddUnseen(matches0, cands) && seen == Vnrs(matches)
    {
      StartswithCandidatesSnoc(original, xs, i);
      var c := StartswithRow(original, xs[i].0, xs[i].1);
      AddUnseenSnoc(matches0, cands, c);
      matches, seen := Push(matches, seen, c);
      cands := cands + [c];
      i := i + 1;
    }
    assert xs[..i] == xs;
  }

  /** The prefix-bonus block of the phonetic phases. */
  method PrefixBonus(matchedValue: string, query: string, distance: nat) returns (prefixBonus: int)
    ensures prefixBonus == FuzzyPrefixBonus(matchedValue, query, distance)
  {
    prefixBonus := 0;
    if matchedValue != [] && query != [] {
      if |query| >= 3 && |matchedValue| >= 3 {
        if StartsWith(matchedValue, query) || StartsWith(query, matchedValue) {
          prefixBonus := 25;
        }
      }
      if prefixBonus == 0 {
        if matchedValue[0] == query[0] {
          prefixBonus := 8;
          if |matchedValue| >= 2 && |query| >= 2 {
            if matchedValue[..2] == query[..2] {
              prefixBonus := 12;
            }
          }
        } else {
          if distance >= 1 {
            prefixBonus := -15;
          }
        }
      }
    }
  }

  /** The row of one phonetic hit of the query. */
  method FuzzyRow(original: string, m: FuzzyMatch) returns (c: LegacyMatch)
    ensures c == FuzzyCandidate(original, m)
  {
    var fuzzyScore := 95 - m.distance * 3;
    var value := FieldValue(m.entry, m.field);
    var prefixBonus := PrefixBonus(Lower(value), Lower(original), m.distance);
    var bonus := VassdragsnrBonus(m.entry.vassdragsnr);
    c := LegacyMatch(original, m.entry.navn, value, m.entry.vassdragsnr, m.entry.lat, m.entry.long,
      fuzzyScore + bonus + prefixBonus, "fuzzy_" + DistanceTag(m), bonus, prefixBonus, None);
  }

  lemma FuzzyCandidatesSnoc(original: string, ms: seq<FuzzyMatch>, i: nat)
    requires i < |ms|
    ensures FuzzyCandidates(original, ms[..i + 1]) == FuzzyCandidates(original, ms[..i]) + [FuzzyCandidate(original, ms[i])]
  {
    assert ms[..i + 1][..i] == ms[..i];
  }

  /** Phase 3 as written. */
  method FuzzyPhase(original: string, ms: seq<FuzzyMatch>, matches0: seq<LegacyMatch>, seen0: set<string>)
    returns (matches: seq<LegacyMatch>, seen: set<string>)
    requires seen0 == Vnrs(matches0)
    ensures matches == AddUnseen(matches0, FuzzyCandidates(original, ms)) && seen == Vnrs(matches)
  {
    matches, seen := matches0, seen0;
    ghost var cands: seq<LegacyMatch> := [];
    var i := 0;
    while i < |ms|
      invariant 0 <= i <= |ms|
      invariant cands == FuzzyCandidates(original, ms[..i])
      invariant matches == AddUnseen(matches0, cands) && seen == Vnrs(matches)
    {
      var m := ms[i];
      FuzzyCandidatesSnoc(original, ms, i);
      var c := FuzzyRow(original, m);
      AddUnseenSnoc(matches0, cands, c);
      matches, seen := Push(matches, seen, c);
      cands := cands + [c];
      i := i + 1;
    }
    assert ms[..i] == ms;
  }

  /** The row of one phonetic hit of an important variant. */
  method ImportantRow(original: string, variant: Variant, m: FuzzyMatch) returns (c: LegacyMatch)
    ensures c == ImportantCandidate(original, variant, m)
  {
    var fuzzyPenalty := m.distance * 3;
    var fuzzyScore := if variant.score - fuzzyPenalty >= 50 then variant.score - fuzzyPenalty else 50;
    var value := FieldValue(m.entry, m.field);
    var prefixBonus := PrefixBonus(Lower(value), Lower(variant.text), m.distance);
    var bonus := VassdragsnrBonus(m.entry.vassdragsnr);
    c := LegacyMatch(original, m.entry.navn, value, m.entry.vassdragsnr, m.entry.lat, m.entry.long,
      fuzzyScore + bonus + prefixBonus, variant.description + "_fuzzy_" + DistanceTag(m), bonus, prefixBonus, None);
  }

  lemma ImportantCandidatesSnoc(original: string, variant: Variant, ms: seq<FuzzyMatch>, i: nat)
    requires i < |ms|
    ensures ImportantCandidates(original, variant, ms[..i + 1])
         == ImportantCandidates(original, variant, ms[..i]) + [ImportantCandidate(original, variant, ms[i])]
  {
    assert ms[..i + 1][..i] == ms[..i];
  }

  /** The inner loop of phase 4, for one important variant. */
  method ImportantFuzzyPhase(original: string, variant: Variant, ms: seq<FuzzyMatch>, matches0: seq<LegacyMatch>, seen0: set<string>)
    returns (matches: seq<LegacyMatch>, seen: set<string>)
    requires seen0 == Vnrs(matches0)
    ensures matches == AddUnseen(matches0, ImportantCandidates(original, variant, ms)) && seen == Vnrs(matches)
  {
    matches, seen := matches0, seen0;
    ghost var cands: seq<LegacyMatch> := [];
    var i := 0;
    while i < |ms|
      invariant 0 <= i <= |ms|
      invariant cands == ImportantCandidates(original, variant, ms[..i])
      invariant matches == AddUnseen(matches0, cands) && seen == Vnrs(matches)
    {
      var m := ms[i];
      ImportantCandidatesSnoc(original, variant, ms, i);
      var c := ImportantRow(original, variant, m);
      AddUnseenSnoc(matches0, cands, c);
      matches, seen := Push(matches, seen, c);
      cands := cands + [c];
      i := i + 1;
    }
    assert ms[..i] == ms;
  }

  /** Once the list is full, the remaining important variants change nothing. */
  lemma {:induction false} ImportantPhaseStops(acc: seq<LegacyMatch>, original: string, vs: seq<Variant>, es: seq<Entry>,
    maxResults: int, i: nat)
    requires i <= |vs| && |ImportantPhase(acc, original, vs[..i], es, maxResults)| >= maxResults
    ensures ImportantPhase(acc, original, vs, es, maxResults) == ImportantPhase(acc, original, vs[..i], es, maxResults)
    decreases |vs|
  {
    if i < |vs| {
      var init := vs[..|vs| - 1];
      assert init[..i] == vs[..i];
      ImportantPhaseStops(acc, original, init, es, maxResults, i);
    } else {
      assert vs[..i] == vs;
    }
  }

  /** Phase 4 as written, with its `break`. */
  method ImportantLoop(original: string, important: seq<Variant>, es: seq<Entry>, maxResults: int,
    matches0: seq<LegacyMatch>, seen0: set<string>)
    returns (matches: seq<LegacyMatch>, seen: set<string>)
    requires seen0 == Vnrs(matches0)
    ensures matches == ImportantPhase(matches0, original, important, es, maxResults) && seen == Vnrs(matches)
  {
    matches, seen := matches0, seen0;
    var i := 0;
    while i < |important|
      invariant 0 <= i <= |important|
      invariant matches == ImportantPhase(matches0, original, important[..i], es, maxResults) && seen == Vnrs(matches)
    {
      assert important[..i + 1][..i] == important[..i];
      if |matches| >= maxResults {
        ImportantPhaseStops(matches0, original, important, es, maxResults, i);
        return;
      }
      var variant := important[i];
      var variantFuzzyMatches := FindFuzzyMatches(variant.text, es, 2, 5);
      matches, seen := ImportantFuzzyPhase(original, variant, variantFuzzyMatches, matches, seen);
      i := i + 1;
    }
    assert important[..i] == important;
  }

  /** The four phases of `resolve_vassdrag_single`, for its variants. */
  method CollectMatches(original: string, variants: seq<Variant>, es: seq<Entry>, maxResults: int)
    returns (matches: seq<LegacyMatch>)
    ensures matches == CollectedFrom(original, variants, es, maxResults)
  {
    var seen: set<string>;
    matches, seen := ExactPhase(original, variants, es, [], {});
    if |matches| < maxResults {
      var startswithMatches := FindStartswithMatches(original, es, 3);
      matches, seen := StartswithPhase(original, startswithMatches, matches, seen);
    }
    if |matches| < maxResults {
      var fuzzyMatches := FindFuzzyMatches(original, es, 2, 5);
      matches, seen := FuzzyPhase(original, fuzzyMatches, matches, seen);
    }
    if |matches| < maxResults {
      var importantVariants := ImportantOf(variants);
      matches, seen := ImportantLoop(original, importantVariants, es, maxResults, matches, seen);
    }
  }

  /** `resolve_vassdrag_single` as written. */
  method ResolveVassdragSingle(original: string, endingMap: EndingMap, es: seq<Entry>, maxResults: int)
    returns (r: seq<LegacyMatch>)
    ensures r == ResolveSingleOf(original, endingMap, es, maxResults)
  {
    var variants := GenerateVariants(original, endingMap);
    var matches := CollectMatches(original, variants, es, maxResults);
    matches := SortBy(matches, HigherScore);
    r := Top(matches, maxResults);
  }

  /** The `cleaned_parts` loop. */
  method CleanParts(potentialParts: seq<string>) returns (cleanedParts: seq<string>)
    ensures cleanedParts == CleanPartsOf(potentialParts)
  {
    cleanedParts := [];
    var i := 0;
    while i < |potentialParts|
      invariant 0 <= i <= |potentialParts|
      invariant cleanedParts == CleanPartsOf(potentialParts[..i])
    {
      assert potentialParts[..i + 1][..i] == potentialParts[..i];
      var p := Strip(potentialParts[i]);
      i := i + 1;
      if p == [] {
        continue;
      }
      var lowerP := Lower(p);
      if lowerP in CompositeSkipWords {
        continue;
      }
      if |p| < 3 {
        continue;
      }
      cleanedParts := cleanedParts + [p];
    }
    assert potentialParts[..i] == potentialParts;
  }

  /** The inner loop of the composite search: the part's matches, relabelled, appended. */
  method AppendRelabelled(all0: seq<LegacyMatch>, matches: seq<LegacyMatch>, original: string, part: string)
    returns (all: seq<LegacyMatch>)
    ensures all == all0 + Relabel(matches, original, part)
  {
    all := all0;
    var j := 0;
    while j < |matches|
      invariant 0 <= j <= |matches|
      invariant all == all0 + Relabel(matches[..j], original, part)
    {
      assert matches[..j + 1][..j] == matches[..j];
      all := all + [matches[j].(originalInput := original, originalPart := Some(part))];
      j := j + 1;
    }
    assert matches[..j] == matches;
  }

  /** The split of `resolve_composite_vassdrag`: at " og ", else at hyphens when two parts survive. */
  method CompositeParts(text: string) returns (parts: seq<string>)
    ensures parts == CompositePartsOf(text)
  {
    parts := [];
    if Contains(Lower(text), " og ") {
      parts := OgSplit(text);
    } else if '-' in text {
      var potentialParts := SplitOn(text, '-');
      var cleanedParts := CleanParts(potentialParts);
      if |cleanedParts| >= 2 {
        parts := cleanedParts;
      }
    }
  }

  lemma CompositeMatchesSnoc(original: string, parts: seq<string>, i: nat, endingMap: EndingMap, es: seq<Entry>, maxResults: int)
    requires i < |parts|
    ensures CompositeMatches(original, parts[..i + 1], endingMap, es, maxResults)
         == CompositeMatches(original, parts[..i], endingMap, es, maxResults) + PartRows(original, Strip(parts[i]), endingMap, es, maxResults)
  {
    assert parts[..i + 1][..i] == parts[..i];
  }

  /** The pass for the part at `i`: the rows of the parts up to it. */
  method ResolvePartAt(all0: seq<LegacyMatch>, text: string, parts: seq<string>, i: nat, endingMap: EndingMap, es: seq<Entry>,
                       maxResults: int)
    returns (all: seq<LegacyMatch>)
    requires i < |parts| && all0 == CompositeMatches(text, parts[..i], endingMap, es, maxResults)
    ensures all == CompositeMatches(text, parts[..i + 1], endingMap, es, maxResults)
  {
    CompositeMatchesSnoc(text, parts, i, endingMap, es, maxResults);
    var part := Strip(parts[i]);
    all := ResolvePart(all0, text, part, endingMap, es, maxResults);
  }

  /** One pass of the parts loop: a non-empty part is resolved alone and its rows appended. */
  method ResolvePart(all0: seq<LegacyMatch>, text: string, part: string, endingMap: EndingMap, es: seq<Entry>, maxResults: int)
    returns (all: seq<LegacyMatch>)
    ensures all == all0 + PartRows(text, part, endingMap, es, maxResults)
  {
    all := all0;
    if part != [] {
      var matches := ResolveVassdragSingle(part, endingMap, es, maxResults);
      all := AppendRelabelled(all, matches, text, part);
    } else {
      assert all0 + [] == all0;
    }
  }

  /** The loop over the parts: each part resolved alone, its rows relabelled. */
  method ResolveParts(text: string, parts: seq<string>, endingMap: EndingMap, es: seq<Entry>, maxResults: int)
    returns (allMatches: seq<LegacyMatch>)
    ensures allMatches == CompositeMatches(text, parts, endingMap, es, maxResults)
  {
    allMatches := [];
    var i := 0;
    while i < |parts|
      invariant 0 <= i <= |parts|
      invariant allMatches == CompositeMatches(text, parts[..i], endingMap, es, maxResults)
    {
      allMatches := ResolvePartAt(allMatches, text, parts, i, endingMap, es, maxResults);
      i := i + 1;
    }
    assert parts[..i] == parts;
  }

  /** `resolve_composite_vassdrag` as written. */
  method ResolveCompositeVassdrag(text: string, endingMap: EndingMap, es: seq<Entry>, maxResults: int)
    returns (r: seq<LegacyMatch>)
    ensures r == CompositeOf(text, endingMap, es, maxResults)
  {
    var parts := CompositeParts(text);
    if |parts| < 2 {
      r := ResolveVassdragSingle(text, endingMap, es, maxResults);
      return;
    }
    var allMatches := ResolveParts(text, parts, endingMap, es, maxResults);
    r := SortBy(allMatches, HigherScore);
  }

  /** `resolve_vassdrag` as written. */
  method ResolveVassdrag(text: string, endingMap: EndingMap, es: seq<Entry>, maxResults: int)
    returns (r: seq<LegacyMatch>)
    ensures r == ResolveOf(text, endingMap, es, maxResults)
  {
    if Contains(Lower(text), " og ") || '-' in text {
      r := ResolveCompositeVassdrag(text, endingMap, es, maxResults);
    } else {
      r := ResolveVassdragSingle(text, endingMap, es, maxResults);
    }
  }
}
