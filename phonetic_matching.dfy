/**
 * Phonetic fallback matching of the new resolver: a candidate is compared
 * with the index entries in its first-letter bucket through up to four
 * signature pairs and a stem check, and each surviving entry gets a score
 * adjustment.
 */
module PhoneticMatching {
  import opened Text
  import opened Opt
  import opened Regine
  import opened EditDistance
  import opened CategoryNormalization
  import opened Phonetics
  import opened IndexPreparation

  /** What the candidate side contributes to every comparison. */
  datatype Probe = Probe(
    signature: string,
    stemSignature: string,
    stemClean: string,
    category: Option<string>)

  function ProbeOf(candidate: string, endingMap: EndingMap, suffixes: seq<string>): Probe {
    var n := NormalizeName(candidate, endingMap, suffixes);
    var sig := Signature(candidate);
    Probe(sig, if n.stem != [] then Signature(n.stem) else sig, CleanLetters(n.stem), n.category)
  }

  // ---------------------------------------------------------------------
  // Signature pairs and the best distance
  // ---------------------------------------------------------------------

  /** `_add_pair`: append a pair of non-empty signatures not seen before. */
  function AddPair(pairs: seq<(string, string)>, a: string, b: string): seq<(string, string)> {
    if a == [] || b == [] || (a, b) in pairs then pairs else pairs + [(a, b)]
  }

  /** The four combinations, candidate name/stem against entry name/stem, in the source's order. */
  function SignaturePairs(p: Probe, pe: PreparedEntry): seq<(string, string)> {
    var s1 := AddPair([], p.signature, pe.navnSignature);
    var s2 := AddPair(s1, p.stemSignature, pe.navnSignature);
    var s3 := AddPair(s2, p.signature, pe.stemSignature);
    AddPair(s3, p.stemSignature, pe.stemSignature)
  }

  /** One of the four combinations, with both signatures non-empty. */
  predicate IsCombination(p: Probe, pe: PreparedEntry, pair: (string, string)) {
    pair.0 != [] && pair.1 != []
    && (pair.0 == p.signature || pair.0 == p.stemSignature)
    && (pair.1 == pe.navnSignature || pair.1 == pe.stemSignature)
  }

  lemma AddPairSpec(pairs: seq<(string, string)>, a: string, b: string)
    requires Distinct(pairs)
    ensures Distinct(AddPair(pairs, a, b))
    ensures forall x :: x in AddPair(pairs, a, b) <==> x in pairs || (a != [] && b != [] && x == (a, b))
  {
  }

  /** The pairs are distinct, and are exactly the combinations with two non-empty signatures. */
  lemma SignaturePairsSpec(p: Probe, pe: PreparedEntry)
    ensures Distinct(SignaturePairs(p, pe))
    ensures forall x :: x in SignaturePairs(p, pe) <==> IsCombination(p, pe, x)
  {
    var s1 := AddPair([], p.signature, pe.navnSignature);
    var s2 := AddPair(s1, p.stemSignature, pe.navnSignature);
    var s3 := AddPair(s2, p.signature, pe.stemSignature);
    AddPairSpec([], p.signature, pe.navnSignature);
    AddPairSpec(s1, p.stemSignature, pe.navnSignature);
    AddPairSpec(s2, p.signature, pe.stemSignature);
    AddPairSpec(s3, p.stemSignature, pe.stemSignature);
  }

  /** The least distance among the pairs within tolerance, if any. */
  function BestDistance(pairs: seq<(string, string)>): Option<int> {
    if |pairs| == 0 then None
    else
      var best := BestDistance(pairs[..|pairs| - 1]);
      var (a, b) := pairs[|pairs| - 1];
      var (allowed, distance) := PhoneticTolerance(a, b);
      if allowed < 0 || distance > allowed then best
      else if best.None? || distance < best.value then Some(distance)
      else best
  }

  /**
   * The best distance is None exactly when no pair is within tolerance, and
   * otherwise is the distance of some such pair and no more than any other's.
   */
  lemma {:induction false} BestDistanceSpec(pairs: seq<(string, string)>)
    ensures BestDistance(pairs).None? <==> forall k :: 0 <= k < |pairs| ==> !SignaturesClose(pairs[k].0, pairs[k].1)
    ensures BestDistance(pairs).Some? ==>
      (exists k :: 0 <= k < |pairs| && SignaturesClose(pairs[k].0, pairs[k].1)
                   && BestDistance(pairs).value == Lev(pairs[k].0, pairs[k].1))
      && forall k :: 0 <= k < |pairs| && SignaturesClose(pairs[k].0, pairs[k].1) ==>
                       BestDistance(pairs).value <= Lev(pairs[k].0, pairs[k].1)
  {
    if |pairs| > 0 {
      var n := |pairs| - 1;
      var pre := pairs[..n];
      BestDistanceSpec(pre);
      assert forall k :: 0 <= k < n ==> pairs[k] == pre[k];
      var best := BestDistance(pre);
      if best.Some? {
        var k :| 0 <= k < n && SignaturesClose(pre[k].0, pre[k].1) && best.value == Lev(pre[k].0, pre[k].1);
        assert pairs[k] == pre[k];
      }
    }
  }

  /** `b` is the least edit distance among the pairs within tolerance. */
  ghost predicate LeastClose(pairs: seq<(string, string)>, b: int) {
    (exists k :: 0 <= k < |pairs| && SignaturesClose(pairs[k].0, pairs[k].1) && b == Lev(pairs[k].0, pairs[k].1))
    && forall k :: 0 <= k < |pairs| && SignaturesClose(pairs[k].0, pairs[k].1) ==> b <= Lev(pairs[k].0, pairs[k].1)
  }

  /** The best distance is at most 2, since no allowance exceeds 2. */
  lemma BestDistanceBounded(pairs: seq<(string, string)>)
    ensures BestDistance(pairs).Some? ==> 0 <= BestDistance(pairs).value <= 2
  {
    BestDistanceSpec(pairs);
    if BestDistance(pairs).Some? {
      var k :| 0 <= k < |pairs| && SignaturesClose(pairs[k].0, pairs[k].1)
               && BestDistance(pairs).value == Lev(pairs[k].0, pairs[k].1);
      SignaturesCloseSpec(pairs[k].0, pairs[k].1);
    }
  }

  // ---------------------------------------------------------------------
  // Scoring one entry
  // ---------------------------------------------------------------------

  /** 20 for equal stems, 15 at distance 1, then 5 less per further edit. */
  function StemBonus(d: nat): (b: int)
    ensures d == 0 ==> b == 20
    ensures d == 1 ==> b == 15
    ensures d >= 2 ==> b == -5 * (d - 1)
  {
    if d <= 1 then 20 - d * 5 else -5 * (d - 1)
  }

  /** Both categories are present and the same. */
  predicate SameCategory(a: Option<string>, b: Option<string>) {
    a.Some? && b.Some? && a.value != [] && b.value != [] && a.value == b.value
  }

  /** The adjustment for an entry that passed both checks. */
  function Adjustment(candidate: string, navn: string, p: Probe, pe: PreparedEntry, best: int): int {
    3 * CommonPrefixLen(CleanLetters(candidate), CleanLetters(navn))
    - (if FirstLetterMatches(candidate, navn) then 0 else 50)
    + (if SameCategory(p.category, pe.category) then 5 else 0)
    - 5 * best
    + (if p.stemClean != [] && pe.stemClean != [] then StemBonus(Lev(p.stemClean, pe.stemClean)) else 0)
  }

  /** The score adjustment for one prepared entry, or None when the entry is skipped. */
  function EntryScore(candidate: string, p: Probe, pe: PreparedEntry): Option<int> {
    match pe.navn
    case None => None
    case Some(navn) =>
      if Lower(navn) == Lower(candidate) then None
      else
        var best := BestDistance(SignaturePairs(p, pe));
        if best.None? then None
        else if !StemsWithinTolerance(p.stemClean, pe.stemClean) then None
        else Some(Adjustment(candidate, navn, p, pe, best.value))
  }

  /**
   * An entry is scored exactly when it has a name different from the
   * candidate (ignoring case), a signature pair within tolerance and stems
   * within tolerance. Its score is the adjustment with the least edit
   * distance among the close pairs as the distance penalty, and lies
   * between -65 and 25 plus three points per shared leading letter.
   */
  lemma EntryScoreSpec(candidate: string, p: Probe, pe: PreparedEntry)
    ensures EntryScore(candidate, p, pe).Some? <==>
      pe.navn.Some? && Lower(pe.navn.value) != Lower(candidate)
      && (exists k :: 0 <= k < |SignaturePairs(p, pe)|
                      && SignaturesClose(SignaturePairs(p, pe)[k].0, SignaturePairs(p, pe)[k].1))
      && StemsWithinTolerance(p.stemClean, pe.stemClean)
    ensures EntryScore(candidate, p, pe).Some? ==>
      var cp := 3 * CommonPrefixLen(CleanLetters(candidate), CleanLetters(pe.navn.value));
      cp - 65 <= EntryScore(candidate, p, pe).value <= cp + 25
    ensures EntryScore(candidate, p, pe).Some? ==>
      exists b :: LeastClose(SignaturePairs(p, pe), b)
        && EntryScore(candidate, p, pe).value == Adjustment(candidate, pe.navn.value, p, pe, b)
  {
    var pairs := SignaturePairs(p, pe);
    BestDistanceSpec(pairs);
    if EntryScore(candidate, p, pe).Some? {
      BestDistanceBounded(pairs);
      StemsWithinToleranceSpec(p.stemClean, pe.stemClean);
      assert LeastClose(pairs, BestDistance(pairs).value);
    }
  }

  /** An entry whose name is the candidate up to case is never a phonetic match. */
  lemma EntryScoreSkipsSameName(candidate: string, p: Probe, pe: PreparedEntry)
    requires pe.navn.Some? && Lower(pe.navn.value) == Lower(candidate)
    ensures EntryScore(candidate, p, pe) == None
  {
  }

  // ---------------------------------------------------------------------
  // _phonetic_matches
  // ---------------------------------------------------------------------

  /** The first-letter bucket of the candidate, or every index when it has none. */
  function CandidateIndices(pi: PreparedIndex, candidate: string): (r: seq<nat>)
    requires WellFormed(pi)
    ensures forall j :: 0 <= j < |r| ==> r[j] < |pi.preparedEntries|
  {
    var first := CleanLetters(candidate);
    if first != [] && first[..1] in pi.firstLetterLookup then pi.firstLetterLookup[first[..1]]
    else pi.allIndices
  }

  /** The scored entries among the given indices, in their order. */
  function ScanIndices(ps: seq<PreparedEntry>, idxs: seq<nat>, score: PreparedEntry -> Option<int>)
    : seq<(Entry, int)>
    requires forall j :: 0 <= j < |idxs| ==> idxs[j] < |ps|
  {
    if |idxs| == 0 then []
    else
      var pe := ps[idxs[|idxs| - 1]];
      ScanIndices(ps, idxs[..|idxs| - 1], score)
      + match score(pe) case Some(s) => [(pe.entry, s)] case None => []
  }

  /** What `_phonetic_matches` returns. */
  function PhoneticMatchesOf(candidate: string, pi: PreparedIndex, endingMap: EndingMap, suffixes: seq<string>)
    : seq<(Entry, int)>
    requires WellFormed(pi)
  {
    var p := ProbeOf(candidate, endingMap, suffixes);
    if p.signature == [] then []
    else ScanFor(candidate, p, pi.preparedEntries, CandidateIndices(pi, candidate))
  }

  /** The scan with the candidate's own scoring. */
  function ScanFor(candidate: string, p: Probe, ps: seq<PreparedEntry>, idxs: seq<nat>): seq<(Entry, int)>
    requires forall j :: 0 <= j < |idxs| ==> idxs[j] < |ps|
  {
    ScanIndices(ps, idxs, pe => EntryScore(candidate, p, pe))
  }

  /** A result is there exactly when some scanned index scores it. */
  lemma {:induction false} ScanIndicesSpec(ps: seq<PreparedEntry>, idxs: seq<nat>, score: PreparedEntry -> Option<int>)
    requires forall j :: 0 <= j < |idxs| ==> idxs[j] < |ps|
    ensures forall m :: m in ScanIndices(ps, idxs, score) <==>
      exists j :: 0 <= j < |idxs| && ps[idxs[j]].entry == m.0 && score(ps[idxs[j]]) == Some(m.1)
  {
    if |idxs| > 0 {
      var n := |idxs| - 1;
      ScanIndicesSpec(ps, idxs[..n], score);
      forall m ensures m in ScanIndices(ps, idxs, score) <==>
        exists j :: 0 <= j < |idxs| && ps[idxs[j]].entry == m.0 && score(ps[idxs[j]]) == Some(m.1)
      {
        if exists j :: 0 <= j < |idxs| && ps[idxs[j]].entry == m.0 && score(ps[idxs[j]]) == Some(m.1) {
          var j :| 0 <= j < |idxs| && ps[idxs[j]].entry == m.0 && score(ps[idxs[j]]) == Some(m.1);
          if j < n { assert idxs[..n][j] == idxs[j]; }
        }
      }
    }
  }

  /**
   * The matches are exactly the scored entries of the candidate's bucket; a
   * candidate without signature matches nothing.
   */
  lemma PhoneticMatchesSpec(candidate: string, pi: PreparedIndex, endingMap: EndingMap, suffixes: seq<string>)
    requires WellFormed(pi)
    ensures candidate == [] ==> PhoneticMatchesOf(candidate, pi, endingMap, suffixes) == []
    ensures var p := ProbeOf(candidate, endingMap, suffixes);
      var idxs := CandidateIndices(pi, candidate);
      forall m :: m in PhoneticMatchesOf(candidate, pi, endingMap, suffixes) <==>
        p.signature != [] &&
        exists j :: 0 <= j < |idxs| && pi.preparedEntries[idxs[j]].entry == m.0
                    && EntryScore(candidate, p, pi.preparedEntries[idxs[j]]) == Some(m.1)
  {
    var p := ProbeOf(candidate, endingMap, suffixes);
    ScanIndicesSpec(pi.preparedEntries, CandidateIndices(pi, candidate), pe => EntryScore(candidate, p, pe));
  }

  /** `_phonetic_matches`, with its loop over the bucket and its loop over the signature pairs. */
  method PhoneticMatches(candidate: string, pi: PreparedIndex, endingMap: EndingMap, suffixes: seq<string>)
    returns (matches: seq<(Entry, int)>)
    requires WellFormed(pi)
    ensures matches == PhoneticMatchesOf(candidate, pi, endingMap, suffixes)
  {
    var p := MakeProbe(candidate, endingMap, suffixes);
    matches := [];
    if p.signature == [] {
      return;
    }
    matches := ScanBucket(candidate, p, pi.preparedEntries, CandidateIndices(pi, candidate));
  }

  /** The loop over the bucket. */
  method ScanBucket(candidate: string, p: Probe, ps: seq<PreparedEntry>, idxs: seq<nat>)
    returns (matches: seq<(Entry, int)>)
    requires forall j :: 0 <= j < |idxs| ==> idxs[j] < |ps|
    ensures matches == ScanFor(candidate, p, ps, idxs)
  {
    matches := [];
    var i := 0;
    while i < |idxs|
      invariant 0 <= i <= |idxs|
      invariant matches == ScanFor(candidate, p, ps, idxs[..i])
    {
      assert idxs[..i + 1][..i] == idxs[..i];
      var pe := ps[idxs[i]];
      var score := ScoreEntry(candidate, p, pe);
      if score.Some? {
        matches := matches + [(pe.entry, score.value)];
      }
      i := i + 1;
    }
    assert idxs[..|idxs|] == idxs;
  }

  /** The candidate-side values, computed once before the bucket loop. */
  method MakeProbe(candidate: string, endingMap: EndingMap, suffixes: seq<string>) returns (p: Probe)
    ensures p == ProbeOf(candidate, endingMap, suffixes)
  {
    var candidatePhonetic := PhoneticSignature(candidate);
    var n := NormalizeName(candidate, endingMap, suffixes);
    var stemClean := CleanLetters(n.stem);
    var stemSignature := candidatePhonetic;
    if n.stem != [] {
      stemSignature := PhoneticSignature(n.stem);
    }
    p := Probe(candidatePhonetic, stemSignature, stemClean, n.category);
  }

  /** The body of the bucket loop for one entry. */
  method ScoreEntry(candidate: string, p: Probe, pe: PreparedEntry) returns (score: Option<int>)
    ensures score == EntryScore(candidate, p, pe)
  {
    if pe.navn.None? {
      return None;
    }
    var navn := pe.navn.value;
    if Lower(navn) == Lower(candidate) {
      return None;
    }
    var best := BestSignatureDistance(SignaturePairs(p, pe));
    if best.None? {
      return None;
    }
    if !StemsWithinTolerance(p.stemClean, pe.stemClean) {
      return None;
    }
    var s := AdjustmentFor(candidate, navn, p, pe, best.value);
    score := Some(s);
  }

  /** The signature-pair loop. */
  method BestSignatureDistance(pairs: seq<(string, string)>) returns (best: Option<int>)
    ensures best == BestDistance(pairs)
  {
    best := None;
    var k := 0;
    while k < |pairs|
      invariant 0 <= k <= |pairs|
      invariant best == BestDistance(pairs[..k])
    {
      assert pairs[..k + 1][..k] == pairs[..k];
      var (candSig, entrySig) := pairs[k];
      var (allowed, distance) := PhoneticTolerance(candSig, entrySig);
      if allowed < 0 || distance > allowed {
      } else if best.None? || distance < best.value {
        best := Some(distance);
      }
      k := k + 1;
    }
    assert pairs[..|pairs|] == pairs;
  }

  /** The adjustment as the source accumulates it. */
  method AdjustmentFor(candidate: string, navn: string, p: Probe, pe: PreparedEntry, best: int) returns (s: int)
    ensures s == Adjustment(candidate, navn, p, pe, best)
  {
    s := StartswithBonus(candidate, navn);
    if !FirstLetterMatches(candidate, navn) {
      s := s - 50;
    }
    if SameCategory(p.category, pe.category) {
      s := s + 5;
    }
    s := s - best * 5;
    if p.stemClean != [] && pe.stemClean != [] {
      var stemDistance := Levenshtein(p.stemClean, pe.stemClean);
      s := s + StemBonus(stemDistance);
    }
  }
}
