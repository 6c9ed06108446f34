/**
 * `_apply_coordinate_bonus`: given a reference point, the results whose
 * index entry has both coordinates are ranked by their distance to it
 * (a stable sort, so equal distances keep the results' order), and the
 * five nearest receive 25, 20, 15, 10 and 5 points, added both to the score
 * and to the coordinate bonus. The source mutates the result objects in
 * place; here the results are an array, updated at the ranked positions.
 * The distance itself (haversine) is a parameter.
 */
module CoordinateBonus {
  import opened Text
  import opened Opt
  import opened Sorting
  import opened MatchScoring

  /** Distance from a reference (lon, lat) to a point (lon, lat). */
  type Distance = (real, real, real, real) -> real

  /** Both `long` and `lat` of the entry are numbers. */
  predicate HasCoordinates(m: MatchResult) {
    m.entry.long.Some? && m.entry.lat.Some?
  }

  function DistanceOf(m: MatchResult, coord: (real, real), dist: Distance): real
    requires HasCoordinates(m)
  {
    dist(coord.0, coord.1, m.entry.long.value, m.entry.lat.value)
  }

  /**
   * The `(result, distance)` candidates, each result named by its position:
   * exactly the results with coordinates, in results order.
   */
  function Candidates(rs: seq<MatchResult>, coord: (real, real), dist: Distance): (r: seq<(nat, real)>)
    ensures IsCandidates(rs, coord, dist, r)
  {
    if |rs| == 0 then []
    else
      var n := |rs| - 1;
      var p := Candidates(rs[..n], coord, dist);
      CandidatesSnoc(rs, coord, dist, p);
      p + (if HasCoordinates(rs[n]) then [(n, DistanceOf(rs[n], coord, dist))] else [])
  }

  /**
   * Each candidate names a result with coordinates and its distance, every
   * such result is a candidate, and the candidates are in results order.
   */
  ghost predicate IsCandidates(rs: seq<MatchResult>, coord: (real, real), dist: Distance, r: seq<(nat, real)>) {
    (forall k :: 0 <= k < |r| ==>
      r[k].0 < |rs| && HasCoordinates(rs[r[k].0]) && r[k].1 == DistanceOf(rs[r[k].0], coord, dist))
    && (forall i :: 0 <= i < |rs| && HasCoordinates(rs[i]) ==> (i, DistanceOf(rs[i], coord, dist)) in r)
    && forall a, b :: 0 <= a < b < |r| ==> r[a].0 < r[b].0
  }

  /** The candidates of all results but the last, then the last one if it has coordinates. */
  lemma CandidatesSnoc(rs: seq<MatchResult>, coord: (real, real), dist: Distance, p: seq<(nat, real)>)
    requires |rs| > 0 && IsCandidates(rs[..|rs| - 1], coord, dist, p)
    ensures var n := |rs| - 1;
      IsCandidates(rs, coord, dist, p + (if HasCoordinates(rs[n]) then [(n, DistanceOf(rs[n], coord, dist))] else []))
  {
    var n := |rs| - 1;
    assert forall k :: 0 <= k < |p| ==> rs[..n][p[k].0] == rs[p[k].0];
    assert forall i :: 0 <= i < n ==> rs[..n][i] == rs[i];
  }

  /** `key=lambda item: item[1]`: strictly nearer comes first. */
  predicate Nearer(a: (nat, real), b: (nat, real)) {
    a.1 < b.1
  }

  /** `candidates.sort(key=lambda item: item[1])`. */
  function Ranking(rs: seq<MatchResult>, coord: (real, real), dist: Distance): seq<(nat, real)> {
    SortBy(Candidates(rs, coord, dist), Nearer)
  }

  const Bonuses: seq<int> := [25, 20, 15, 10, 5]

  /** The bonus at rank `k`: nothing from the sixth place on. */
  function Bonus(k: nat): int {
    if k < |Bonuses| then Bonuses[k] else 0
  }

  /** The first rank of the result at position `i`, if it is ranked at all. */
  function RankOf(ranked: seq<(nat, real)>, i: nat): (r: Option<nat>)
    ensures r.Some? ==> r.value < |ranked| && ranked[r.value].0 == i
    ensures r.Some? ==> forall k :: 0 <= k < r.value ==> ranked[k].0 != i
    ensures r.None? ==> forall k :: 0 <= k < |ranked| ==> ranked[k].0 != i
  {
    if |ranked| == 0 then None
    else if ranked[0].0 == i then Some(0)
    else match RankOf(ranked[1..], i)
      case None => None
      case Some(k) => Some(k + 1)
  }

  /** The bonus the result at position `i` receives from the first `n` ranks. */
  function GainUpTo(ranked: seq<(nat, real)>, i: nat, n: nat): int {
    match RankOf(ranked, i)
    case None => 0
    case Some(k) => if k < n then Bonus(k) else 0
  }

  function Bumped(m: MatchResult, b: int): MatchResult {
    m.(score := m.score + b, coordBonus := m.coordBonus + b)
  }

  /** The results once the first `n` ranks have had their bonus. */
  function BonusedUpTo(rs: seq<MatchResult>, ranked: seq<(nat, real)>, n: nat): seq<MatchResult> {
    seq(|rs|, i requires 0 <= i < |rs| => Bumped(rs[i], GainUpTo(ranked, i, n)))
  }

  /** What `_apply_coordinate_bonus` leaves in `results`. */
  function CoordinateBonusOf(rs: seq<MatchResult>, coord: (real, real), dist: Distance): seq<MatchResult> {
    var ranked := Ranking(rs, coord, dist);
    BonusedUpTo(rs, ranked, |ranked|)
  }

  /** The bonus of the result at position `i`. */
  function BonusOf(rs: seq<MatchResult>, coord: (real, real), dist: Distance, i: nat): int {
    var ranked := Ranking(rs, coord, dist);
    GainUpTo(ranked, i, |ranked|)
  }

  // ---------------------------------------------------------------------
  // The ranking
  // ---------------------------------------------------------------------

  /**
   * The ranking names every result with coordinates exactly once, each with
   * its distance, and no other result.
   */
  lemma RankingSpec(rs: seq<MatchResult>, coord: (real, real), dist: Distance)
    ensures var r := Ranking(rs, coord, dist);
      forall k :: 0 <= k < |r| ==>
        r[k].0 < |rs| && HasCoordinates(rs[r[k].0]) && r[k].1 == DistanceOf(rs[r[k].0], coord, dist)
    ensures var r := Ranking(rs, coord, dist);
      forall a, b :: 0 <= a < b < |r| ==> r[a].0 != r[b].0
    ensures var r := Ranking(rs, coord, dist);
      forall i :: 0 <= i < |rs| && HasCoordinates(rs[i]) ==> RankOf(r, i).Some?
  {
    var c := Candidates(rs, coord, dist);
    var r := Ranking(rs, coord, dist);
    SortByPermutation(c, Nearer);
    CandidatesDistinct(c);
    SortByDistinct(c, Nearer);
    forall k | 0 <= k < |r|
      ensures r[k].0 < |rs| && HasCoordinates(rs[r[k].0]) && r[k].1 == DistanceOf(rs[r[k].0], coord, dist)
    {
      RankedMember(c, r, k);
      CandidateMember(rs, coord, dist, c, r[k]);
    }
    forall a, b | 0 <= a < b < |r| ensures r[a].0 != r[b].0 {
      RankedMember(c, r, a);
      RankedMember(c, r, b);
      CandidateMember(rs, coord, dist, c, r[a]);
      CandidateMember(rs, coord, dist, c, r[b]);
    }
    forall i | 0 <= i < |rs| && HasCoordinates(rs[i]) ensures RankOf(r, i).Some? {
      var x := (i, DistanceOf(rs[i], coord, dist));
      assert x in c;
      assert x in multiset(c);
      assert x in r;
    }
  }

  lemma RankedMember(c: seq<(nat, real)>, r: seq<(nat, real)>, k: nat)
    requires multiset(r) == multiset(c) && k < |r|
    ensures r[k] in c
  {
    assert r[k] in multiset(r);
  }

  /** Candidates in results order are distinct. */
  lemma CandidatesDistinct(c: seq<(nat, real)>)
    requires forall a, b :: 0 <= a < b < |c| ==> c[a].0 < c[b].0
    ensures Distinct(c)
  {
    forall a, b | 0 <= a < b < |c| ensures c[a] != c[b] {
      assert c[a].0 < c[b].0;
    }
  }

  /** A candidate names a result with coordinates, with its distance. */
  lemma CandidateMember(rs: seq<MatchResult>, coord: (real, real), dist: Distance, c: seq<(nat, real)>, x: (nat, real))
    requires IsCandidates(rs, coord, dist, c) && x in c
    ensures x.0 < |rs| && HasCoordinates(rs[x.0]) && x.1 == DistanceOf(rs[x.0], coord, dist)
  {
    var k :| 0 <= k < |c| && c[k] == x;
  }

  /** The result ranked `k`-th has rank `k`. */
  lemma RankOfRanked(ranked: seq<(nat, real)>, k: nat)
    requires k < |ranked|
    requires forall a, b :: 0 <= a < b < |ranked| ==> ranked[a].0 != ranked[b].0
    ensures RankOf(ranked, ranked[k].0) == Some(k)
  {
  }

  /** The ranking is by distance: a later rank is never strictly nearer. */
  lemma RankingSorted(rs: seq<MatchResult>, coord: (real, real), dist: Distance)
    ensures SortedBy(Ranking(rs, coord, dist), Nearer)
  {
    SortBySorted(Candidates(rs, coord, dist), Nearer);
  }

  // ---------------------------------------------------------------------
  // What the bonus does
  // ---------------------------------------------------------------------

  /**
   * Only the score and the coordinate bonus change, by the same amount, and
   * that amount is one of the five bonuses or nothing.
   */
  lemma BonusShape(rs: seq<MatchResult>, coord: (real, real), dist: Distance)
    ensures |CoordinateBonusOf(rs, coord, dist)| == |rs|
    ensures forall i :: 0 <= i < |rs| ==>
      CoordinateBonusOf(rs, coord, dist)[i] == Bumped(rs[i], BonusOf(rs, coord, dist, i))
    ensures forall i :: 0 <= i < |rs| ==> BonusOf(rs, coord, dist, i) in [0, 25, 20, 15, 10, 5]
  {
  }

  /** A result without both coordinates is left as it was. */
  lemma {:induction false} NoCoordinatesNoBonus(rs: seq<MatchResult>, coord: (real, real), dist: Distance, i: nat)
    requires i < |rs| && !HasCoordinates(rs[i])
    ensures BonusOf(rs, coord, dist, i) == 0
    ensures CoordinateBonusOf(rs, coord, dist)[i] == rs[i]
  {
    RankingSpec(rs, coord, dist);
  }

  /** The `k`-th nearest result receives the `k`-th bonus: 25, 20, 15, 10, 5, then nothing. */
  lemma {:induction false} RankedBonus(rs: seq<MatchResult>, coord: (real, real), dist: Distance, k: nat)
    requires k < |Ranking(rs, coord, dist)|
    ensures var i := Ranking(rs, coord, dist)[k].0;
      i < |rs| && BonusOf(rs, coord, dist, i) == Bonus(k)
  {
    var r := Ranking(rs, coord, dist);
    RankingSpec(rs, coord, dist);
    RankOfRanked(r, k);
  }

  /**
   * A result with coordinates gets a bonus exactly when fewer than five
   * results are ranked before it.
   */
  lemma {:induction false} BonusIffTopFive(rs: seq<MatchResult>, coord: (real, real), dist: Distance, i: nat)
    requires i < |rs| && HasCoordinates(rs[i])
    ensures RankOf(Ranking(rs, coord, dist), i).Some?
    ensures BonusOf(rs, coord, dist, i) > 0 <==> RankOf(Ranking(rs, coord, dist), i).value < 5
  {
    var r := Ranking(rs, coord, dist);
    RankingSpec(rs, coord, dist);
    var k := RankOf(r, i).value;
    assert BonusOf(rs, coord, dist, i) == Bonus(k);
    BonusPositive(k);
  }

  /** Only the first five ranks carry a bonus. */
  lemma BonusPositive(k: nat)
    ensures Bonus(k) > 0 <==> k < 5
  {
  }

  /** Of two results with coordinates, the strictly nearer one never gets less. */
  lemma {:induction false} NearerNotLess(rs: seq<MatchResult>, coord: (real, real), dist: Distance, i: nat, j: nat)
    requires i < |rs| && j < |rs| && HasCoordinates(rs[i]) && HasCoordinates(rs[j])
    requires DistanceOf(rs[i], coord, dist) < DistanceOf(rs[j], coord, dist)
    ensures BonusOf(rs, coord, dist, i) >= BonusOf(rs, coord, dist, j)
  {
    var r := Ranking(rs, coord, dist);
    RankingSpec(rs, coord, dist);
    RankingSorted(rs, coord, dist);
    var ki := RankOf(r, i).value;
    var kj := RankOf(r, j).value;
    assert r[ki].1 == DistanceOf(rs[i], coord, dist) && r[kj].1 == DistanceOf(rs[j], coord, dist);
    NearerGainsMore(r, i, j);
  }

  /** In a ranking by distance, the strictly nearer one gains at least as much. */
  lemma NearerGainsMore(ranked: seq<(nat, real)>, i: nat, j: nat)
    requires SortedBy(ranked, Nearer)
    requires RankOf(ranked, i).Some? && RankOf(ranked, j).Some?
    requires ranked[RankOf(ranked, i).value].1 < ranked[RankOf(ranked, j).value].1
    ensures GainUpTo(ranked, i, |ranked|) >= GainUpTo(ranked, j, |ranked|)
  {
  }

  /** The nearest result with coordinates, the first of them on a tie, gets the full 25 points. */
  lemma {:induction false} NearestGetsMost(rs: seq<MatchResult>, coord: (real, real), dist: Distance)
    requires exists i :: 0 <= i < |rs| && HasCoordinates(rs[i])
    ensures var i := Ranking(rs, coord, dist)[0].0;
      i < |rs| && HasCoordinates(rs[i]) && BonusOf(rs, coord, dist, i) == 25
      && (forall j :: 0 <= j < |rs| && HasCoordinates(rs[j]) ==>
            DistanceOf(rs[i], coord, dist) <= DistanceOf(rs[j], coord, dist))
      && forall j :: 0 <= j < i && HasCoordinates(rs[j]) ==>
           DistanceOf(rs[i], coord, dist) < DistanceOf(rs[j], coord, dist)
  {
    var r := Ranking(rs, coord, dist);
    var i0 :| 0 <= i0 < |rs| && HasCoordinates(rs[i0]);
    RankingSpec(rs, coord, dist);
    RankingSorted(rs, coord, dist);
    assert RankOf(r, i0).Some?;
    RankedBonus(rs, coord, dist, 0);
    forall j | 0 <= j < |rs| && HasCoordinates(rs[j])
      ensures DistanceOf(rs[r[0].0], coord, dist) <= DistanceOf(rs[j], coord, dist)
    {
      var kj := RankOf(r, j).value;
      if kj > 0 {
        assert !Nearer(r[kj], r[0]);
      }
    }
    NearestFirstOnTie(rs, coord, dist);
  }

  /** Every result with coordinates before the first-ranked one is strictly farther. */
  lemma NearestFirstOnTie(rs: seq<MatchResult>, coord: (real, real), dist: Distance)
    requires |Ranking(rs, coord, dist)| > 0
    ensures var i := Ranking(rs, coord, dist)[0].0;
      i < |rs| && HasCoordinates(rs[i]) &&
      forall j :: 0 <= j < i && HasCoordinates(rs[j]) ==>
        DistanceOf(rs[i], coord, dist) < DistanceOf(rs[j], coord, dist)
  {
    var c := Candidates(rs, coord, dist);
    var m := SortByFirst(c, Nearer, (x: (nat, real)) => x.1);
    var i := c[m].0;
    forall j | 0 <= j < i && HasCoordinates(rs[j])
      ensures DistanceOf(rs[i], coord, dist) < DistanceOf(rs[j], coord, dist)
    {
      EarlierFarther(c, m, (j, DistanceOf(rs[j], coord, dist)));
    }
  }

  /**
   * In candidates ordered by result position, one of an earlier result than
   * `c[m]` sits before it, so is strictly farther.
   */
  lemma EarlierFarther(c: seq<(nat, real)>, m: nat, x: (nat, real))
    requires m < |c| && x in c && x.0 < c[m].0
    requires forall a, b :: 0 <= a < b < |c| ==> c[a].0 < c[b].0
    requires forall k :: 0 <= k < m ==> c[m].1 < c[k].1
    ensures c[m].1 < x.1
  {
    var k :| 0 <= k < |c| && c[k] == x;
    PositionOrder(c, k, m);
  }

  lemma PositionOrder(c: seq<(nat, real)>, a: nat, b: nat)
    requires a < |c| && b < |c| && c[a].0 < c[b].0
    requires forall x, y :: 0 <= x < y < |c| ==> c[x].0 < c[y].0
    ensures a < b
  {
  }

  /** A score that was its base score plus its coordinate bonus stays so. */
  lemma {:induction false} BonusKeepsBase(rs: seq<MatchResult>, coord: (real, real), dist: Distance)
    requires NoBonusYet(rs)
    ensures var out := CoordinateBonusOf(rs, coord, dist);
      forall i :: 0 <= i < |out| ==>
        out[i].score == out[i].baseScore + out[i].coordBonus && out[i].coordBonus in [0, 25, 20, 15, 10, 5]
  {
    var out := CoordinateBonusOf(rs, coord, dist);
    BonusShape(rs, coord, dist);
    forall i | 0 <= i < |out|
      ensures out[i].score == out[i].baseScore + out[i].coordBonus && out[i].coordBonus in [0, 25, 20, 15, 10, 5]
    {
      assert out[i] == Bumped(rs[i], BonusOf(rs, coord, dist, i));
    }
  }

  // ---------------------------------------------------------------------
  // The imperative form
  // ---------------------------------------------------------------------

  /** Bonuses for the first `n` ranks and for the first five are the same once `n` is five. */
  lemma FiveRanksSuffice(rs: seq<MatchResult>, ranked: seq<(nat, real)>, n: nat)
    requires n >= |Bonuses|
    ensures BonusedUpTo(rs, ranked, n) == BonusedUpTo(rs, ranked, |Bonuses|)
  {
  }

  /** The first loop: the candidates of the results, read and left alone. */
  method CollectCandidates(results: array<MatchResult>, coord: (real, real), dist: Distance)
    returns (candidates: seq<(nat, real)>)
    ensures candidates == Candidates(results[..], coord, dist)
  {
    candidates := [];
    var i := 0;
    while i < results.Length
      invariant 0 <= i <= results.Length
      invariant candidates == Candidates(results[..i], coord, dist)
    {
      var result := results[i];
      assert results[..i + 1][..i] == results[..i];
      if result.entry.long.Some? && result.entry.lat.Some? {
        var distance := dist(coord.0, coord.1, result.entry.long.value, result.entry.lat.value);
        candidates := candidates + [(i, distance)];
      }
      i := i + 1;
    }
    assert results[..i] == results[..];
  }

  /** The second loop: the bonuses, rank by rank, until they run out. */
  method AwardBonuses(results: array<MatchResult>, ranked: seq<(nat, real)>)
    requires forall k :: 0 <= k < |ranked| ==> ranked[k].0 < results.Length
    requires forall a, b :: 0 <= a < b < |ranked| ==> ranked[a].0 != ranked[b].0
    modifies results
    ensures results[..] == BonusedUpTo(old(results[..]), ranked, |ranked|)
  {
    ghost var rs := results[..];
    assert BonusedUpTo(rs, ranked, 0) == rs;
    var idx := 0;
    while idx < |ranked|
      invariant 0 <= idx <= |ranked| && idx <= |Bonuses|
      invariant results[..] == BonusedUpTo(rs, ranked, idx)
    {
      var bonus := if idx < |Bonuses| then Bonuses[idx] else 0;
      if bonus <= 0 {
        break;
      }
      var p := ranked[idx].0;
      RankOfRanked(ranked, idx);
      results[p] := results[p].(score := results[p].score + bonus, coordBonus := results[p].coordBonus + bonus);
      idx := idx + 1;
    }
    if idx < |ranked| {
      FiveRanksSuffice(rs, ranked, |ranked|);
    }
  }

  /** `_apply_coordinate_bonus(results, coord)`. */
  method ApplyCoordinateBonus(results: array<MatchResult>, coord: (real, real), dist: Distance)
    modifies results
    ensures results[..] == CoordinateBonusOf(old(results[..]), coord, dist)
  {
    var candidates := CollectCandidates(results, coord, dist);
    if |candidates| == 0 {
      assert BonusedUpTo(results[..], [], 0) == results[..];
      return;
    }
    var ranked := SortBy(candidates, Nearer);
    RankingSpec(results[..], coord, dist);
    AwardBonuses(results, ranked);
  }
}
