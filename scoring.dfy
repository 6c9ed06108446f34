/**
 * `_score_single_name` of the new resolver: the exact lookup on «navn»
 * (100 points), the lookup on the normalised name (90) and with an exchanged
 * category tail (60), and the phonetic fallback (50 plus its adjustment).
 * Every hit goes through `register`, which lowers the score for a long
 * watercourse number and for a candidate much shorter than the input, and
 * keeps, per watercourse number, the first result with the highest score.
 */
module MatchScoring {
  import opened Text
  import opened Opt
  import opened Regine
  import opened OrderedDict
  import opened CategoryNormalization
  import opened Phonetics
  import opened IndexPreparation
  import opened PhoneticMatching
  import opened CandidateGeneration

  /** `MatchResult`; `entry` is the index row the result points at. */
  datatype MatchResult = MatchResult(
    inputName: string,
    candidate: string,
    matchType: string,
    score: int,
    entry: Entry,
    coordBonus: int,
    baseScore: int)

  /** The arguments of one `register` call: the row, the raw score, the candidate and the match type. */
  datatype Hit = Hit(entry: Entry, score: int, candidate: string, matchType: string)

  // ---------------------------------------------------------------------
  // The adjusted score
  // ---------------------------------------------------------------------

  /** `max(0, len(vnr) - 3) * 5` for a non-empty number, 0 for an empty one. */
  function NumberPenalty(vnr: string): nat {
    if vnr != [] && |vnr| > 3 then (|vnr| - 3) * 5 else 0
  }

  /** `min(24, diff * 2)` when both cleaned strings are non-empty and the input is at least 3 letters longer. */
  function LengthPenalty(inputClean: string, candidateClean: string): nat {
    var diff := |inputClean| - |candidateClean|;
    if inputClean != [] && candidateClean != [] && diff >= 3 then
      (if diff * 2 < 24 then diff * 2 else 24)
    else 0
  }

  function Adjusted(inputClean: string, h: Hit): nat {
    var s := h.score - NumberPenalty(h.entry.vassdragsnr) - LengthPenalty(inputClean, CleanLetters(h.candidate));
    if s < 0 then 0 else s
  }

  function VnrOf(h: Hit): string { h.entry.vassdragsnr }

  /** The result `register` builds for a hit: no coordinate bonus yet, base score equal to the score. */
  function ResultOf(name: string, h: Hit): MatchResult {
    var a := Adjusted(CleanLetters(name), h);
    MatchResult(name, h.candidate, h.matchType, a, h.entry, 0, a)
  }

  /**
   * The adjusted score is the raw score less 5 per digit beyond the third
   * and less twice the length difference (at most 24) when the candidate is
   * at least 3 cleaned letters shorter than the input, never below 0.
   */
  lemma AdjustedSpec(inputClean: string, h: Hit)
    ensures var a := Adjusted(inputClean, h);
      var cc := CleanLetters(h.candidate);
      var vnr := h.entry.vassdragsnr;
      a <= (if h.score < 0 then 0 else h.score)
      && a >= h.score - (if |vnr| > 3 then 5 * (|vnr| - 3) else 0) - 24
      && (|vnr| <= 3 && (inputClean == [] || cc == [] || |inputClean| < |cc| + 3) ==>
            a == (if h.score < 0 then 0 else h.score))
      && (inputClean != [] && cc != [] && |inputClean| >= |cc| + 3 && h.score >= 100 && |vnr| <= 3 ==>
            a == h.score - (if 2 * (|inputClean| - |cc|) < 24 then 2 * (|inputClean| - |cc|) else 24))
  {
  }

  /** A higher raw score never gives a lower adjusted score. */
  lemma AdjustedMonotone(inputClean: string, h: Hit, higher: int)
    requires h.score <= higher
    ensures Adjusted(inputClean, h) <= Adjusted(inputClean, h.(score := higher))
  {
  }

  /** Between two otherwise equal hits, a longer watercourse number never scores more. */
  lemma AdjustedLongerNumber(inputClean: string, h: Hit, vnr: string)
    requires h.entry.vassdragsnr != [] && |h.entry.vassdragsnr| <= |vnr|
    ensures Adjusted(inputClean, h.(entry := h.entry.(vassdragsnr := vnr))) <= Adjusted(inputClean, h)
  {
  }

  // ---------------------------------------------------------------------
  // register and best_per_vassdrag
  // ---------------------------------------------------------------------

  type Best = ODict<string, MatchResult>

  function VnrOfResult(m: MatchResult): string { m.entry.vassdragsnr }

  /**
   * The dict update of `register` once the result is built: a result for a
   * new watercourse number, or one strictly better than the stored one, is
   * stored under its number.
   */
  function Store(d: Best, res: MatchResult): (r: Best)
    requires Valid(d)
    ensures Valid(r)
  {
    var key := VnrOfResult(res);
    if key !in d.values || res.score > d.values[key].score then Put(d, key, res) else d
  }

  function StoreAll(d: Best, rs: seq<MatchResult>): (r: Best)
    requires Valid(d)
    ensures Valid(r)
  {
    if |rs| == 0 then d else Store(StoreAll(d, rs[..|rs| - 1]), rs[|rs| - 1])
  }

  /** The results `register` builds for a sequence of hits. */
  function Results(name: string, hits: seq<Hit>): (rs: seq<MatchResult>)
    ensures |rs| == |hits| && forall i :: 0 <= i < |hits| ==> rs[i] == ResultOf(name, hits[i])
  {
    seq(|hits|, i requires 0 <= i < |hits| => ResultOf(name, hits[i]))
  }

  /** A sequence of `register` calls. */
  function RegisterAll(d: Best, name: string, hits: seq<Hit>): (r: Best)
    requires Valid(d)
    ensures Valid(r)
  {
    if |hits| == 0 then d
    else Store(RegisterAll(d, name, hits[..|hits| - 1]), ResultOf(name, hits[|hits| - 1]))
  }

  lemma {:induction false} RegisterAllAppend(d: Best, name: string, a: seq<Hit>, b: seq<Hit>)
    requires Valid(d)
    ensures RegisterAll(d, name, a + b) == RegisterAll(RegisterAll(d, name, a), name, b)
  {
    if |b| == 0 {
      assert a + b == a;
    } else {
      var n := |b| - 1;
      assert (a + b)[..|a + b| - 1] == a + b[..n];
      assert (a + b)[|a + b| - 1] == b[n];
      RegisterAllAppend(d, name, a, b[..n]);
    }
  }

  lemma RegisterAllSnoc(d: Best, name: string, hits: seq<Hit>, i: nat)
    requires Valid(d) && i < |hits|
    ensures RegisterAll(d, name, hits[..i + 1]) == Store(RegisterAll(d, name, hits[..i]), ResultOf(name, hits[i]))
  {
    assert hits[..i + 1][..i] == hits[..i];
  }

  /** Registering hits is storing the results built from them. */
  lemma {:induction false} RegisterAllIsStoreAll(d: Best, name: string, hits: seq<Hit>)
    requires Valid(d)
    ensures RegisterAll(d, name, hits) == StoreAll(d, Results(name, hits))
  {
    if |hits| > 0 {
      var n := |hits| - 1;
      RegisterAllIsStoreAll(d, name, hits[..n]);
      assert Results(name, hits)[..n] == Results(name, hits[..n]);
    }
  }

  /** The watercourse numbers of a sequence of results, in order. */
  function Vnrs(rs: seq<MatchResult>): (r: seq<string>)
    ensures |r| == |rs| && forall i :: 0 <= i < |rs| ==> r[i] == VnrOfResult(rs[i])
  {
    seq(|rs|, i requires 0 <= i < |rs| => VnrOfResult(rs[i]))
  }

  /** The result kept for number `k` after `rs`, followed one number at a time. */
  function KeptFor(rs: seq<MatchResult>, k: string): Option<MatchResult> {
    if |rs| == 0 then None
    else
      var prev := KeptFor(rs[..|rs| - 1], k);
      var x := rs[|rs| - 1];
      if VnrOfResult(x) == k && (prev.None? || x.score > prev.value.score) then Some(x) else prev
  }

  /**
   * `m` is the first result for number `k` among `rs` whose score no other
   * result for `k` exceeds.
   */
  ghost predicate BestFor(rs: seq<MatchResult>, k: string, m: MatchResult) {
    (forall i :: 0 <= i < |rs| && VnrOfResult(rs[i]) == k ==> rs[i].score <= m.score)
    && exists i :: 0 <= i < |rs| && rs[i] == m && VnrOfResult(m) == k
         && forall j :: 0 <= j < i && VnrOfResult(rs[j]) == k ==> rs[j].score < m.score
  }

  lemma KeptForSnoc(rs: seq<MatchResult>, x: MatchResult, k: string)
    ensures KeptFor(rs + [x], k) ==
      if VnrOfResult(x) == k && (KeptFor(rs, k).None? || x.score > KeptFor(rs, k).value.score) then Some(x)
      else KeptFor(rs, k)
  {
    assert (rs + [x])[..|rs|] == rs;
  }

  lemma VnrsSnoc(rs: seq<MatchResult>, x: MatchResult)
    ensures Vnrs(rs + [x]) == Vnrs(rs) + [VnrOfResult(x)]
  {
  }

  /** A result is kept for `k` exactly when some result has number `k`. */
  lemma {:induction false} KeptForSome(rs: seq<MatchResult>, k: string)
    ensures KeptFor(rs, k).Some? <==> k in Vnrs(rs)
  {
    if |rs| > 0 {
      var n := |rs| - 1;
      KeptForSome(rs[..n], k);
      KeptForSnoc(rs[..n], rs[n], k);
      VnrsSnoc(rs[..n], rs[n]);
      assert rs[..n] + [rs[n]] == rs;
    }
  }

  lemma NoNumber(rs: seq<MatchResult>, k: string)
    requires k !in Vnrs(rs)
    ensures forall i :: 0 <= i < |rs| ==> VnrOfResult(rs[i]) != k
  {
    forall i | 0 <= i < |rs| ensures VnrOfResult(rs[i]) != k {
      assert Vnrs(rs)[i] == VnrOfResult(rs[i]);
    }
  }

  /** The kept result is the first one with its number's highest score. */
  lemma {:induction false} KeptForBest(rs: seq<MatchResult>, k: string)
    requires KeptFor(rs, k).Some?
    ensures BestFor(rs, k, KeptFor(rs, k).value)
  {
    var n := |rs| - 1;
    var prev := KeptFor(rs[..n], k);
    var x := rs[n];
    KeptForSnoc(rs[..n], x, k);
    assert rs[..n] + [x] == rs;
    if VnrOfResult(x) == k && (prev.None? || x.score > prev.value.score) {
      if prev.Some? {
        KeptForBest(rs[..n], k);
      } else {
        KeptForSome(rs[..n], k);
        NoNumber(rs[..n], k);
      }
      BestForNew(rs[..n], x);
    } else {
      KeptForBest(rs[..n], k);
      BestForKept(rs[..n], x, k, prev.value);
    }
  }

  /** A stored result stays best when the new one is for another number or does not beat it. */
  lemma BestForKept(rs: seq<MatchResult>, x: MatchResult, k: string, m: MatchResult)
    requires BestFor(rs, k, m)
    requires VnrOfResult(x) != k || x.score <= m.score
    ensures BestFor(rs + [x], k, m)
  {
    var xs := rs + [x];
    var i :| 0 <= i < |rs| && rs[i] == m && VnrOfResult(m) == k
         && forall j :: 0 <= j < i && VnrOfResult(rs[j]) == k ==> rs[j].score < m.score;
    assert xs[i] == rs[i];
    forall j | 0 <= j < i && VnrOfResult(xs[j]) == k ensures xs[j].score < m.score {
      assert xs[j] == rs[j];
    }
    forall j | 0 <= j < |xs| && VnrOfResult(xs[j]) == k ensures xs[j].score <= m.score {
      if j < |rs| { assert xs[j] == rs[j]; }
    }
  }

  /** The new result becomes best when it beats every earlier one for its number. */
  lemma BestForNew(rs: seq<MatchResult>, x: MatchResult)
    requires forall i :: 0 <= i < |rs| && VnrOfResult(rs[i]) == VnrOfResult(x) ==> rs[i].score < x.score
    ensures BestFor(rs + [x], VnrOfResult(x), x)
  {
    var xs := rs + [x];
    assert xs[|rs|] == x;
    forall j | 0 <= j < |rs| && VnrOfResult(xs[j]) == VnrOfResult(x) ensures xs[j].score < x.score {
      assert xs[j] == rs[j];
    }
  }

  /** What the dict holds after storing `rs` into an empty one. */
  ghost predicate Summarizes(d: Best, rs: seq<MatchResult>) {
    Valid(d)
    && d.keys == Dedup(Vnrs(rs))
    && (forall k :: k in d.values ==> KeptFor(rs, k) == Some(d.values[k]))
  }

  /** One store keeps the summary. */
  lemma StoreSummarizes(d: Best, rs: seq<MatchResult>, x: MatchResult)
    requires Summarizes(d, rs)
    ensures Summarizes(Store(d, x), rs + [x])
  {
    StoreKeys(d, rs, x);
    StoreValues(d, rs, x);
  }

  lemma StoreKeys(d: Best, rs: seq<MatchResult>, x: MatchResult)
    requires Summarizes(d, rs)
    ensures Store(d, x).keys == Dedup(Vnrs(rs + [x]))
  {
    VnrsSnoc(rs, x);
    DedupSnoc(Vnrs(rs), VnrOfResult(x));
  }

  lemma StoreValues(d: Best, rs: seq<MatchResult>, x: MatchResult)
    requires Summarizes(d, rs)
    ensures forall k :: k in Store(d, x).values ==> KeptFor(rs + [x], k) == Some(Store(d, x).values[k])
  {
    var r := Store(d, x);
    var k := VnrOfResult(x);
    if k !in d.values {
      DedupSpec(Vnrs(rs));
      KeptForSome(rs, k);
      assert k !in Vnrs(rs) by {
        assert k !in d.keys;
      }
    }
    forall k' | k' in r.values ensures KeptFor(rs + [x], k') == Some(r.values[k']) {
      KeptForSnoc(rs, x, k');
    }
  }

  lemma {:induction false} StoreAllSummarizes(rs: seq<MatchResult>)
    ensures Summarizes(StoreAll(Empty(), rs), rs)
  {
    if |rs| == 0 {
      assert Vnrs(rs) == [];
    } else {
      var n := |rs| - 1;
      StoreAllSummarizes(rs[..n]);
      StoreSummarizes(StoreAll(Empty(), rs[..n]), rs[..n], rs[n]);
      assert rs[..n] + [rs[n]] == rs;
    }
  }

  lemma ValuesSummary(rs: seq<MatchResult>)
    ensures var vs := Values(StoreAll(Empty(), rs));
      Vnrs(vs) == Dedup(Vnrs(rs)) && forall i :: 0 <= i < |vs| ==> BestFor(rs, VnrOfResult(vs[i]), vs[i])
  {
    var d := StoreAll(Empty(), rs);
    StoreAllSummarizes(rs);
    var vs := Values(d);
    forall i | 0 <= i < |vs| ensures VnrOfResult(vs[i]) == d.keys[i] && BestFor(rs, d.keys[i], vs[i]) {
      assert d.keys[i] in d.values;
      KeptForBest(rs, d.keys[i]);
    }
  }

  /**
   * What `list(best_per_vassdrag.values())` holds after storing `rs`: one
   * result per watercourse number among `rs`, in order of each number's
   * first result, each the first result with its number's highest score.
   */
  lemma BestValuesSpec(rs: seq<MatchResult>)
    ensures var vs := Values(StoreAll(Empty(), rs));
      Vnrs(vs) == Dedup(Vnrs(rs))
      && (forall i, j :: 0 <= i < j < |vs| ==> VnrOfResult(vs[i]) != VnrOfResult(vs[j]))
      && (forall i :: 0 <= i < |rs| ==> exists j :: 0 <= j < |vs| && VnrOfResult(vs[j]) == VnrOfResult(rs[i]))
      && (forall i :: 0 <= i < |vs| ==> BestFor(rs, VnrOfResult(vs[i]), vs[i]))
  {
    var vs := Values(StoreAll(Empty(), rs));
    ValuesSummary(rs);
    DedupSpec(Vnrs(rs));
    forall i, j | 0 <= i < j < |vs| ensures VnrOfResult(vs[i]) != VnrOfResult(vs[j]) {
      assert Vnrs(vs)[i] == VnrOfResult(vs[i]) && Vnrs(vs)[j] == VnrOfResult(vs[j]);
    }
    forall i | 0 <= i < |rs| ensures exists j :: 0 <= j < |vs| && VnrOfResult(vs[j]) == VnrOfResult(rs[i]) {
      assert Vnrs(rs)[i] in Vnrs(rs);
      var j :| 0 <= j < |vs| && Vnrs(vs)[j] == VnrOfResult(rs[i]);
    }
  }

  /**
   * `vs` keeps one result per watercourse number of `rs`, each the first
   * result with its number's highest score.
   */
  ghost predicate OnePerNumber(rs: seq<MatchResult>, vs: seq<MatchResult>) {
    (forall i, j :: 0 <= i < j < |vs| ==> VnrOfResult(vs[i]) != VnrOfResult(vs[j]))
    && (forall i :: 0 <= i < |rs| ==> exists j :: 0 <= j < |vs| && VnrOfResult(vs[j]) == VnrOfResult(rs[i]))
    && (forall i :: 0 <= i < |vs| ==> BestFor(rs, VnrOfResult(vs[i]), vs[i]))
  }

  /** No coordinate bonus yet: every score is its base score. */
  predicate NoBonusYet(vs: seq<MatchResult>) {
    forall i :: 0 <= i < |vs| ==> vs[i].coordBonus == 0 && vs[i].score == vs[i].baseScore >= 0
  }

  /** The best values for hits: one per number over the results built from them, none with a coordinate bonus yet. */
  lemma RegisteredSpec(name: string, hits: seq<Hit>)
    ensures OnePerNumber(Results(name, hits), Values(RegisterAll(Empty(), name, hits)))
    ensures NoBonusYet(Values(RegisterAll(Empty(), name, hits)))
  {
    var rs := Results(name, hits);
    RegisterAllIsStoreAll(Empty(), name, hits);
    BestValuesOnePerNumber(rs);
    ResultsNoBonus(name, hits);
    KeptNoBonus(rs, Values(StoreAll(Empty(), rs)));
  }

  lemma BestValuesOnePerNumber(rs: seq<MatchResult>)
    ensures OnePerNumber(rs, Values(StoreAll(Empty(), rs)))
  {
    BestValuesSpec(rs);
  }

  lemma ResultsNoBonus(name: string, hits: seq<Hit>)
    ensures NoBonusYet(Results(name, hits))
  {
    var rs := Results(name, hits);
    forall i | 0 <= i < |rs| ensures rs[i].coordBonus == 0 && rs[i].score == rs[i].baseScore >= 0 {
      assert rs[i] == ResultOf(name, hits[i]);
    }
  }

  /** Results kept from results without a bonus have none either. */
  lemma KeptNoBonus(rs: seq<MatchResult>, vs: seq<MatchResult>)
    requires NoBonusYet(rs) && OnePerNumber(rs, vs)
    ensures NoBonusYet(vs)
  {
    forall i | 0 <= i < |vs| ensures vs[i].coordBonus == 0 && vs[i].score == vs[i].baseScore >= 0 {
      assert BestFor(rs, VnrOfResult(vs[i]), vs[i]);
      var k :| 0 <= k < |rs| && rs[k] == vs[i];
    }
  }

  // ---------------------------------------------------------------------
  // The three phases
  // ---------------------------------------------------------------------

  /** `for entry in entries: register(entry, score, candidate, match_type)`. */
  function EntryHits(es: seq<Entry>, score: int, candidate: string, matchType: string): (r: seq<Hit>)
    ensures |r| == |es| && forall i :: 0 <= i < |es| ==> r[i] == Hit(es[i], score, candidate, matchType)
  {
    seq(|es|, i requires 0 <= i < |es| => Hit(es[i], score, candidate, matchType))
  }

  /** Phase 4: every candidate looked up exactly in «navn», for 100 points. */
  function NavnHits(pi: PreparedIndex, cands: seq<string>): seq<Hit>
    requires WellFormed(pi)
  {
    if |cands| == 0 then []
    else
      var c := cands[|cands| - 1];
      NavnHits(pi, cands[..|cands| - 1]) + EntryHits(LookupExact(pi, "navn", c), 100, c, "navn")
  }

  /** The tail-swapped names of one normalised name, for 60 points. */
  function TailHits(pi: PreparedIndex, alts: seq<string>): seq<Hit>
    requires WellFormed(pi)
  {
    if |alts| == 0 then []
    else
      var a := alts[|alts| - 1];
      TailHits(pi, alts[..|alts| - 1])
      + EntryHits(LookupExact(pi, "navn_normalisert", a), 60, a, "navn_normalisert_hale")
  }

  /** The normalised name itself for 90 points, then its tail swaps. */
  function NormalizedNameHits(pi: PreparedIndex, nn: string, category: Option<string>): seq<Hit>
    requires WellFormed(pi)
  {
    EntryHits(LookupExact(pi, "navn_normalisert", nn), 90, nn, "navn_normalisert")
    + TailHits(pi, SwapNormalizedTail(nn, category))
  }

  /** `(normalised name, category)` for each item of the normalised-candidate dict, in order. */
  function Items(d: ODict<string, (Option<string>, string)>): (r: seq<(string, Option<string>)>)
    requires Valid(d)
    ensures |r| == |d.keys| && forall i :: 0 <= i < |r| ==> r[i] == (d.keys[i], d.values[d.keys[i]].0)
  {
    seq(|d.keys|, i requires 0 <= i < |d.keys| => (d.keys[i], d.values[d.keys[i]].0))
  }

  /** Phase 5 over the items of the normalised-candidate dict. */
  function NormalizedHits(pi: PreparedIndex, items: seq<(string, Option<string>)>): seq<Hit>
    requires WellFormed(pi)
  {
    if |items| == 0 then []
    else
      var it := items[|items| - 1];
      NormalizedHits(pi, items[..|items| - 1]) + NormalizedNameHits(pi, it.0, it.1)
  }

  /** `for entry, adjustment in matches: register(entry, 50 + adjustment, candidate, "fonetisk")`. */
  function ScoredHits(ms: seq<(Entry, int)>, candidate: string): (r: seq<Hit>)
    ensures |r| == |ms| && forall i :: 0 <= i < |ms| ==> r[i] == Hit(ms[i].0, 50 + ms[i].1, candidate, "fonetisk")
  {
    seq(|ms|, i requires 0 <= i < |ms| => Hit(ms[i].0, 50 + ms[i].1, candidate, "fonetisk"))
  }

  /** Phase 6: the phonetic matches of every candidate. */
  function PhoneticHits(pi: PreparedIndex, cands: seq<string>, endingMap: EndingMap, suffixes: seq<string>): seq<Hit>
    requires WellFormed(pi)
  {
    if |cands| == 0 then []
    else
      var c := cands[|cands| - 1];
      PhoneticHits(pi, cands[..|cands| - 1], endingMap, suffixes)
      + ScoredHits(PhoneticMatchesOf(c, pi, endingMap, suffixes), c)
  }

  lemma PhoneticHitsSnoc(pi: PreparedIndex, cands: seq<string>, i: nat, endingMap: EndingMap, suffixes: seq<string>)
    requires WellFormed(pi) && i < |cands|
    ensures PhoneticHits(pi, cands[..i + 1], endingMap, suffixes)
      == PhoneticHits(pi, cands[..i], endingMap, suffixes) + ScoredHits(PhoneticMatchesOf(cands[i], pi, endingMap, suffixes), cands[i])
  {
    assert cands[..i + 1][..i] == cands[..i];
  }

  /** Registering the phonetic hits of one more candidate. */
  lemma PhoneticStep(d: Best, name: string, pi: PreparedIndex, cands: seq<string>, i: nat,
                     endingMap: EndingMap, suffixes: seq<string>)
    requires Valid(d) && WellFormed(pi) && i < |cands|
    ensures RegisterAll(d, name, PhoneticHits(pi, cands[..i + 1], endingMap, suffixes))
      == RegisterAll(RegisterAll(d, name, PhoneticHits(pi, cands[..i], endingMap, suffixes)), name,
                     ScoredHits(PhoneticMatchesOf(cands[i], pi, endingMap, suffixes), cands[i]))
  {
    PhoneticHitsSnoc(pi, cands, i, endingMap, suffixes);
    RegisterAllAppend(d, name, PhoneticHits(pi, cands[..i], endingMap, suffixes),
      ScoredHits(PhoneticMatchesOf(cands[i], pi, endingMap, suffixes), cands[i]));
  }

  /** Registering the tail-swap hits of one more alternative. */
  lemma TailStep(d: Best, name: string, pi: PreparedIndex, alts: seq<string>, i: nat)
    requires Valid(d) && WellFormed(pi) && i < |alts|
    ensures RegisterAll(d, name, TailHits(pi, alts[..i + 1]))
      == RegisterAll(RegisterAll(d, name, TailHits(pi, alts[..i])), name,
                     EntryHits(LookupExact(pi, "navn_normalisert", alts[i]), 60, alts[i], "navn_normalisert_hale"))
  {
    assert alts[..i + 1][..i] == alts[..i];
    RegisterAllAppend(d, name, TailHits(pi, alts[..i]),
      EntryHits(LookupExact(pi, "navn_normalisert", alts[i]), 60, alts[i], "navn_normalisert_hale"));
  }

  /** Registering the hits of one more normalised name. */
  lemma NormalizedStep(d: Best, name: string, pi: PreparedIndex, items: seq<(string, Option<string>)>, i: nat)
    requires Valid(d) && WellFormed(pi) && i < |items|
    ensures RegisterAll(d, name, NormalizedHits(pi, items[..i + 1]))
      == RegisterAll(RegisterAll(d, name, NormalizedHits(pi, items[..i])), name,
                     NormalizedNameHits(pi, items[i].0, items[i].1))
  {
    assert items[..i + 1][..i] == items[..i];
    RegisterAllAppend(d, name, NormalizedHits(pi, items[..i]), NormalizedNameHits(pi, items[i].0, items[i].1));
  }

  /** Every `register` call of `_score_single_name`, in order. */
  function AllHits(name: string, pi: PreparedIndex, endingMap: EndingMap, suffixes: seq<string>): seq<Hit>
    requires WellFormed(pi)
  {
    var cands := OriginalCandidates(name, suffixes, endingMap);
    var nd := NormalizedCandidates(cands, endingMap, suffixes);
    NavnHits(pi, cands) + NormalizedHits(pi, Items(nd)) + PhoneticHits(pi, cands, endingMap, suffixes)
  }

  /** What `_score_single_name` returns. */
  function ScoreSingleNameOf(name: string, pi: PreparedIndex, endingMap: EndingMap, suffixes: seq<string>)
    : seq<MatchResult>
    requires WellFormed(pi)
  {
    Values(RegisterAll(Empty(), name, AllHits(name, pi, endingMap, suffixes)))
  }

  /**
   * `_score_single_name` holds at most one result per watercourse number,
   * one for every number that any phase hit, each the first hit with the
   * highest adjusted score for its number, none with a coordinate bonus yet.
   */
  lemma ScoreSingleNameSpec(name: string, pi: PreparedIndex, endingMap: EndingMap, suffixes: seq<string>)
    requires WellFormed(pi)
    ensures OnePerNumber(Results(name, AllHits(name, pi, endingMap, suffixes)), ScoreSingleNameOf(name, pi, endingMap, suffixes))
    ensures NoBonusYet(ScoreSingleNameOf(name, pi, endingMap, suffixes))
  {
    RegisteredSpec(name, AllHits(name, pi, endingMap, suffixes));
  }

  /** The exact «navn» hits of a candidate are among the phase 4 hits. */
  lemma {:induction false} NavnHitsMember(pi: PreparedIndex, cands: seq<string>, k: nat, e: Entry)
    requires WellFormed(pi) && k < |cands| && e in LookupExact(pi, "navn", cands[k])
    ensures Hit(e, 100, cands[k], "navn") in NavnHits(pi, cands)
  {
    var n := |cands| - 1;
    if k < n {
      assert cands[..n][k] == cands[k];
      NavnHitsMember(pi, cands[..n], k, e);
    } else {
      var es := LookupExact(pi, "navn", cands[k]);
      var j :| 0 <= j < |es| && es[j] == e;
      assert EntryHits(es, 100, cands[k], "navn")[j] == Hit(e, 100, cands[k], "navn");
    }
  }

  /** Every result leaves a kept result for its number scoring at least as much. */
  lemma KeptWhenStored(rs: seq<MatchResult>, vs: seq<MatchResult>, k: nat)
    requires OnePerNumber(rs, vs) && k < |rs|
    ensures exists m :: m in vs && VnrOfResult(m) == VnrOfResult(rs[k]) && m.score >= rs[k].score
  {
    var key := VnrOfResult(rs[k]);
    var j :| 0 <= j < |vs| && VnrOfResult(vs[j]) == key;
    assert BestFor(rs, VnrOfResult(vs[j]), vs[j]);
    assert vs[j] in vs;
  }

  /** Every hit leaves a result for its number scoring at least as much as the hit. */
  lemma KeptWhenHit(name: string, hits: seq<Hit>, h: Hit)
    requires h in hits
    ensures exists m :: (m in Values(RegisterAll(Empty(), name, hits))
      && VnrOfResult(m) == VnrOf(h) && m.score >= ResultOf(name, h).score)
  {
    var k :| 0 <= k < |hits| && hits[k] == h;
    RegisteredSpec(name, hits);
    KeptWhenStored(Results(name, hits), Values(RegisterAll(Empty(), name, hits)), k);
  }

  /** The phase 4 hits come first. */
  lemma NavnHitsFirst(name: string, pi: PreparedIndex, endingMap: EndingMap, suffixes: seq<string>)
    requires WellFormed(pi)
    ensures NavnHits(pi, OriginalCandidates(name, suffixes, endingMap)) <= AllHits(name, pi, endingMap, suffixes)
  {
  }

  /**
   * An exact match of the stripped name on «navn» is never lost: the result
   * holds the entry's watercourse number with at least the adjusted
   * 100-point score.
   */
  lemma ExactNameKept(name: string, pi: PreparedIndex, endingMap: EndingMap, suffixes: seq<string>, e: Entry)
    requires WellFormed(pi) && Strip(name) != []
    requires e in LookupExact(pi, "navn", Strip(name))
    ensures exists m :: (m in ScoreSingleNameOf(name, pi, endingMap, suffixes)
      && VnrOfResult(m) == e.vassdragsnr && m.score >= ResultOf(name, Hit(e, 100, Strip(name), "navn")).score)
  {
    ExactNameHit(name, pi, endingMap, suffixes, e);
    KeptWhenHit(name, AllHits(name, pi, endingMap, suffixes), Hit(e, 100, Strip(name), "navn"));
  }

  /** An exact match of the stripped name on «navn» is among the hits. */
  lemma ExactNameHit(name: string, pi: PreparedIndex, endingMap: EndingMap, suffixes: seq<string>, e: Entry)
    requires WellFormed(pi) && Strip(name) != []
    requires e in LookupExact(pi, "navn", Strip(name))
    ensures Hit(e, 100, Strip(name), "navn") in AllHits(name, pi, endingMap, suffixes)
  {
    var cands := OriginalCandidates(name, suffixes, endingMap);
    NavnHitsMember(pi, cands, 0, e);
    NavnHitsFirst(name, pi, endingMap, suffixes);
    PrefixMember(Hit(e, 100, Strip(name), "navn"), NavnHits(pi, cands), AllHits(name, pi, endingMap, suffixes));
  }

  // ---------------------------------------------------------------------
  // The imperative form
  // ---------------------------------------------------------------------

  /** The `best_per_vassdrag` dict with the `register` closure over it. */
  class BestPerVassdrag {
    const inputName: string
    const inputClean: string
    var best: Best

    ghost predicate Valid()
      reads this
    {
      OrderedDict.Valid(best) && inputClean == CleanLetters(inputName)
    }

    constructor(name: string)
      ensures Valid() && inputName == name && best == Empty()
    {
      inputName := name;
      inputClean := CleanLetters(name);
      best := Empty();
    }

    /** `register`. */
    method Register(entry: Entry, score: int, candidate: string, matchType: string)
      requires Valid()
      modifies this
      ensures Valid() && best == Store(old(best), ResultOf(inputName, Hit(entry, score, candidate, matchType)))
    {
      var key := entry.vassdragsnr;
      var adjusted := score;
      var vnr := entry.vassdragsnr;
      if vnr != [] {
        var penalty := if |vnr| > 3 then (|vnr| - 3) * 5 else 0;
        adjusted := adjusted - penalty;
      }
      var candidateClean := CleanLetters(candidate);
      if inputClean != [] && candidateClean != [] {
        var diff := |inputClean| - |candidateClean|;
        if diff >= 3 {
          var lengthPenalty := if diff * 2 < 24 then diff * 2 else 24;
          adjusted := adjusted - lengthPenalty;
        }
      }
      if adjusted < 0 {
        adjusted := 0;
      }
      var result := MatchResult(inputName, candidate, matchType, adjusted, entry, 0, adjusted);
      assert result == ResultOf(inputName, Hit(entry, score, candidate, matchType));
      if key !in best.values || adjusted > best.values[key].score {
        best := Put(best, key, result);
      }
    }

    /** `for entry in entries: register(entry, score, candidate, match_type)`. */
    method RegisterEntries(es: seq<Entry>, score: int, candidate: string, matchType: string)
      requires Valid()
      modifies this
      ensures Valid() && best == RegisterAll(old(best), inputName, EntryHits(es, score, candidate, matchType))
    {
      ghost var start := best;
      ghost var hits := EntryHits(es, score, candidate, matchType);
      var i := 0;
      while i < |es|
        invariant 0 <= i <= |es|
        invariant Valid() && best == RegisterAll(start, inputName, hits[..i])
      {
        RegisterAllSnoc(start, inputName, hits, i);
        Register(es[i], score, candidate, matchType);
        i := i + 1;
      }
      assert hits[..|es|] == hits;
    }

    /** `for entry, adjustment in matches: register(entry, 50 + adjustment, candidate, "fonetisk")`. */
    method RegisterScored(ms: seq<(Entry, int)>, candidate: string)
      requires Valid()
      modifies this
      ensures Valid() && best == RegisterAll(old(best), inputName, ScoredHits(ms, candidate))
    {
      ghost var start := best;
      ghost var hits := ScoredHits(ms, candidate);
      var i := 0;
      while i < |ms|
        invariant 0 <= i <= |ms|
        invariant Valid() && best == RegisterAll(start, inputName, hits[..i])
      {
        RegisterAllSnoc(start, inputName, hits, i);
        var (entry, adjustment) := ms[i];
        Register(entry, 50 + adjustment, candidate, "fonetisk");
        i := i + 1;
      }
      assert hits[..|ms|] == hits;
    }

    /** Phase 4. */
    method NavnPhase(pi: PreparedIndex, cands: seq<string>)
      requires Valid() && WellFormed(pi)
      modifies this
      ensures Valid() && best == RegisterAll(old(best), inputName, NavnHits(pi, cands))
    {
      ghost var start := best;
      var i := 0;
      while i < |cands|
        invariant 0 <= i <= |cands|
        invariant Valid() && best == RegisterAll(start, inputName, NavnHits(pi, cands[..i]))
      {
        var c := cands[i];
        assert cands[..i + 1][..i] == cands[..i];
        RegisterAllAppend(start, inputName, NavnHits(pi, cands[..i]), EntryHits(LookupExact(pi, "navn", c), 100, c, "navn"));
        RegisterEntries(LookupExact(pi, "navn", c), 100, c, "navn");
        i := i + 1;
      }
      assert cands[..|cands|] == cands;
    }

    /** Phase 5 for one normalised name: the name, then each tail swap. */
    method NormalizedNamePhase(pi: PreparedIndex, nn: string, category: Option<string>)
      requires Valid() && WellFormed(pi)
      modifies this
      ensures Valid() && best == RegisterAll(old(best), inputName, NormalizedNameHits(pi, nn, category))
    {
      ghost var start := best;
      var direct := EntryHits(LookupExact(pi, "navn_normalisert", nn), 90, nn, "navn_normalisert");
      RegisterEntries(LookupExact(pi, "navn_normalisert", nn), 90, nn, "navn_normalisert");
      ghost var mid := best;
      var alts := SwapNormalizedTail(nn, category);
      var i := 0;
      while i < |alts|
        invariant 0 <= i <= |alts|
        invariant Valid() && best == RegisterAll(mid, inputName, TailHits(pi, alts[..i]))
      {
        var a := alts[i];
        TailStep(mid, inputName, pi, alts, i);
        RegisterEntries(LookupExact(pi, "navn_normalisert", a), 60, a, "navn_normalisert_hale");
        i := i + 1;
      }
      assert alts[..|alts|] == alts;
      RegisterAllAppend(start, inputName, direct, TailHits(pi, alts));
    }

    /** Phase 5. */
    method NormalizedPhase(pi: PreparedIndex, items: seq<(string, Option<string>)>)
      requires Valid() && WellFormed(pi)
      modifies this
      ensures Valid() && best == RegisterAll(old(best), inputName, NormalizedHits(pi, items))
    {
      ghost var start := best;
      var i := 0;
      while i < |items|
        invariant 0 <= i <= |items|
        invariant Valid() && best == RegisterAll(start, inputName, NormalizedHits(pi, items[..i]))
      {
        NormalizedStep(start, inputName, pi, items, i);
        NormalizedNamePhase(pi, items[i].0, items[i].1);
        i := i + 1;
      }
      assert items[..|items|] == items;
    }

    /** Phase 6. */
    method PhoneticPhase(pi: PreparedIndex, cands: seq<string>, endingMap: EndingMap, suffixes: seq<string>)
      requires Valid() && WellFormed(pi)
      modifies this
      ensures Valid() && best == RegisterAll(old(best), inputName, PhoneticHits(pi, cands, endingMap, suffixes))
    {
      ghost var start := best;
      var i := 0;
      while i < |cands|
        invariant 0 <= i <= |cands|
        invariant Valid() && best == RegisterAll(start, inputName, PhoneticHits(pi, cands[..i], endingMap, suffixes))
      {
        PhoneticStep(start, inputName, pi, cands, i, endingMap, suffixes);
        PhoneticCandidate(pi, cands[i], endingMap, suffixes);
        i := i + 1;
      }
      assert cands[..|cands|] == cands;
    }

    /** Phase 6 for one candidate. */
    method PhoneticCandidate(pi: PreparedIndex, c: string, endingMap: EndingMap, suffixes: seq<string>)
      requires Valid() && WellFormed(pi)
      modifies this
      ensures Valid() && best == RegisterAll(old(best), inputName, ScoredHits(PhoneticMatchesOf(c, pi, endingMap, suffixes), c))
    {
      var ms := PhoneticMatches(c, pi, endingMap, suffixes);
      RegisterScored(ms, c);
    }
  }

  /** `_score_single_name`. */
  method ScoreSingleName(name: string, pi: PreparedIndex, endingMap: EndingMap, suffixes: seq<string>)
    returns (results: seq<MatchResult>)
    requires WellFormed(pi)
    ensures results == ScoreSingleNameOf(name, pi, endingMap, suffixes)
  {
    var candidates := GenerateOriginalCandidates(name, suffixes, endingMap);
    var normalized := GenerateNormalizedCandidates(candidates, endingMap, suffixes);
    var reg := new BestPerVassdrag(name);
    ghost var h1 := NavnHits(pi, candidates);
    ghost var h2 := NormalizedHits(pi, Items(normalized));
    ghost var h3 := PhoneticHits(pi, candidates, endingMap, suffixes);
    reg.NavnPhase(pi, candidates);
    reg.NormalizedPhase(pi, Items(normalized));
    reg.PhoneticPhase(pi, candidates, endingMap, suffixes);
    RegisterAllAppend(Empty(), name, h1, h2);
    RegisterAllAppend(Empty(), name, h1 + h2, h3);
    results := Values(reg.best);
  }
}
