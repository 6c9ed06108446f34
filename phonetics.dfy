/**
 * The phonetic helpers of the new resolver: letter cleaning, the phonetic
 * signature, Levenshtein distance, the tolerance tables and the prefix bonus.
 */
module Phonetics {
  import opened Text
  import opened EditDistance

  // ---------------------------------------------------------------------
  // _clean_letters, _first_letter_matches
  // ---------------------------------------------------------------------

  /** The letters the cleaning regex `[^a-zæøå]` keeps. */
  predicate IsCleanLetter(c: char) { IsAsciiLower(c) || c == 'æ' || c == 'ø' || c == 'å' }

  function KeepClean(s: string): (r: string)
    ensures forall i :: 0 <= i < |r| ==> IsCleanLetter(r[i])
    ensures |r| <= |s|
  {
    if |s| == 0 then []
    else if IsCleanLetter(s[0]) then [s[0]] + KeepClean(s[1..])
    else KeepClean(s[1..])
  }

  /** `_clean_letters`: case-fold, then drop everything but a-z, æ, ø, å. */
  function CleanLetters(t: string): (r: string)
    ensures forall i :: 0 <= i < |r| ==> IsCleanLetter(r[i])
  {
    KeepClean(Lower(t))
  }

  /** A text that already consists of clean letters is its own cleaning. */
  lemma {:induction false} KeepCleanOfClean(s: string)
    requires forall i :: 0 <= i < |s| ==> IsCleanLetter(s[i])
    ensures KeepClean(s) == s
  {
    if |s| > 0 {
      KeepCleanOfClean(s[1..]);
      assert s == [s[0]] + s[1..];
    }
  }

  lemma CleanLettersIdempotent(t: string)
    ensures CleanLetters(CleanLetters(t)) == CleanLetters(t)
  {
    var c := CleanLetters(t);
    assert Lower(c) == c;
    KeepCleanOfClean(c);
  }

  /** `_first_letter_matches`: both cleaned texts are non-empty and start alike. */
  function FirstLetterMatches(candidate: string, navn: string): bool {
    var cand := CleanLetters(candidate);
    var target := CleanLetters(navn);
    cand != [] && target != [] && cand[0] == target[0]
  }

  // ---------------------------------------------------------------------
  // _startswith_bonus
  // ---------------------------------------------------------------------

  /** Length of the longest common prefix. */
  function CommonPrefixLen(a: string, b: string): (n: nat)
    ensures n <= |a| && n <= |b|
  {
    if |a| == 0 || |b| == 0 || a[0] != b[0] then 0 else 1 + CommonPrefixLen(a[1..], b[1..])
  }

  /** The common prefix is the longest: the texts agree up to n and differ (or end) at n. */
  lemma {:induction false} CommonPrefixLenSpec(a: string, b: string)
    ensures var n := CommonPrefixLen(a, b);
      a[..n] == b[..n] && (n == |a| || n == |b| || a[n] != b[n])
  {
    if |a| > 0 && |b| > 0 && a[0] == b[0] {
      CommonPrefixLenSpec(a[1..], b[1..]);
      var n := CommonPrefixLen(a, b);
      assert a[..n] == [a[0]] + a[1..][..n - 1];
      assert b[..n] == [b[0]] + b[1..][..n - 1];
    }
  }

  /** `_startswith_bonus`: 3 points per leading cleaned letter the two names share. */
  method StartswithBonus(candidate: string, navn: string) returns (bonus: int)
    ensures bonus == 3 * CommonPrefixLen(CleanLetters(candidate), CleanLetters(navn))
  {
    var cand := CleanLetters(candidate);
    var target := CleanLetters(navn);
    bonus := 0;
    var i := 0;
    while i < |cand| && i < |target|
      invariant 0 <= i <= |cand| && i <= |target|
      invariant bonus == 3 * i
      invariant CommonPrefixLen(cand, target) == i + CommonPrefixLen(cand[i..], target[i..])
      decreases |cand| - i
    {
      if cand[i] == target[i] {
        bonus := bonus + 3;
        assert cand[i..][1..] == cand[i + 1..] && target[i..][1..] == target[i + 1..];
      } else {
        break;
      }
      i := i + 1;
    }
  }

  // ---------------------------------------------------------------------
  // _phonetic_signature
  // ---------------------------------------------------------------------

  /** The rewrites both resolvers apply, in order, after lower-casing. */
  const Rewrites: seq<(string, string)> :=
    [("ch", "k"), ("ph", "f"), ("th", "t"), ("aa", "å"), ("-", ""), (" ", "")]

  function ApplyRewrites(s: string, rs: seq<(string, string)>): string
    requires forall i :: 0 <= i < |rs| ==> rs[i].0 != []
  {
    if |rs| == 0 then s
    else Replace(ApplyRewrites(s, rs[..|rs| - 1]), rs[|rs| - 1].0, rs[|rs| - 1].1)
  }

  /** A leading 'c' becomes 'k'. */
  function LeadingCToK(s: string): (r: string)
    ensures |r| == |s|
    ensures r == [] || r[0] != 'c'
    ensures forall i :: 0 < i < |s| ==> r[i] == s[i]
  {
    if |s| > 0 && s[0] == 'c' then "k" + s[1..] else s
  }

  /** The text after lower-casing, the rewrites and the leading-c rule. */
  function Rewritten(t: string): string {
    LeadingCToK(ApplyRewrites(Lower(t), Rewrites))
  }

  /** Drops each letter equal to the last character kept (the `previous_char` loop). */
  function Squeeze(s: string): (r: string)
    ensures |r| <= |s|
    ensures |s| > 0 ==> |r| > 0
  {
    if |s| == 0 then []
    else
      var p := Squeeze(s[..|s| - 1]);
      var c := s[|s| - 1];
      if |p| > 0 && p[|p| - 1] == c && IsAlpha(c) then p else p + [c]
  }

  /** `_phonetic_signature`. */
  function Signature(t: string): string {
    if t == [] then [] else Squeeze(Rewritten(t))
  }

  /** The shared first steps of both phonetic keys: lower-case, the rewrite table in order, then a leading c to k. */
  method RewriteText(text: string) returns (lowered: string)
    ensures lowered == Rewritten(text)
  {
    lowered := Lower(text);
    var k := 0;
    while k < |Rewrites|
      invariant 0 <= k <= |Rewrites|
      invariant lowered == ApplyRewrites(Lower(text), Rewrites[..k])
    {
      assert Rewrites[..k + 1][..k] == Rewrites[..k];
      lowered := Replace(lowered, Rewrites[k].0, Rewrites[k].1);
      k := k + 1;
    }
    assert Rewrites[..|Rewrites|] == Rewrites;
    if |lowered| > 0 && lowered[0] == 'c' {
      lowered := "k" + lowered[1..];
    }
  }

  /** The signature computed as the source does: rewriting loop, then the collapsing loop. */
  method PhoneticSignature(text: string) returns (r: string)
    ensures r == Signature(text)
  {
    if text == [] {
      return [];
    }
    var lowered := RewriteText(text);
    r := SqueezeRepeats(lowered);
  }

  /** The `previous_char` loop: a letter equal to the last one kept is skipped. */
  method SqueezeRepeats(lowered: string) returns (r: string)
    ensures r == Squeeze(lowered)
  {
    r := [];
    var previous: string := [];
    var i := 0;
    while i < |lowered|
      invariant 0 <= i <= |lowered|
      invariant r == Squeeze(lowered[..i])
      invariant previous == (if r == [] then [] else [r[|r| - 1]])
    {
      var ch := lowered[i];
      assert lowered[..i + 1][..i] == lowered[..i];
      if [ch] == previous && IsAlpha(ch) {
      } else {
        previous := [ch];
        r := r + [ch];
      }
      i := i + 1;
    }
    assert lowered[..|lowered|] == lowered;
  }

  lemma {:induction false} SqueezeChars(s: string)
    ensures forall c :: c in Squeeze(s) ==> c in s
  {
    if |s| > 0 {
      SqueezeChars(s[..|s| - 1]);
      assert forall c :: c in s[..|s| - 1] ==> c in s;
    }
  }

  lemma {:induction false} SqueezeHead(s: string)
    requires |s| > 0
    ensures Squeeze(s)[0] == s[0]
  {
    if |s| > 1 {
      SqueezeHead(s[..|s| - 1]);
    }
  }

  predicate NoDoubledLetter(s: string) {
    forall i :: 0 <= i < |s| - 1 ==> !(s[i] == s[i + 1] && IsAlpha(s[i]))
  }

  lemma {:induction false} SqueezeNoDoubled(s: string)
    ensures NoDoubledLetter(Squeeze(s))
  {
    if |s| > 0 {
      SqueezeNoDoubled(s[..|s| - 1]);
    }
  }

  lemma RewritesNoBlankOrHyphen(t: string)
    ensures ' ' !in ApplyRewrites(Lower(t), Rewrites)
    ensures '-' !in ApplyRewrites(Lower(t), Rewrites)
  {
    var s4 := ApplyRewrites(Lower(t), Rewrites[..4]);
    var s5 := Replace(s4, "-", "");
    assert ApplyRewrites(Lower(t), Rewrites[..5]) == s5 by {
      assert Rewrites[..5][..4] == Rewrites[..4];
    }
    var s6 := Replace(s5, " ", "");
    assert ApplyRewrites(Lower(t), Rewrites) == s6 by {
      assert Rewrites[..6][..5] == Rewrites[..5];
      assert Rewrites[..6] == Rewrites;
    }
    ReplaceRemovesChar(s4, '-', "");
    ReplaceRemovesChar(s5, ' ', "");
    ReplaceChars(s5, " ", "");
  }

  /**
   * The signature of "" is ""; otherwise it has no blank or hyphen, no two
   * equal adjacent letters, and does not start with 'c'.
   */
  lemma SignatureSpec(t: string)
    ensures t == [] ==> Signature(t) == []
    ensures ' ' !in Signature(t) && '-' !in Signature(t)
    ensures NoDoubledLetter(Signature(t))
    ensures Signature(t) == [] || Signature(t)[0] != 'c'
  {
    if t != [] {
      var a := ApplyRewrites(Lower(t), Rewrites);
      var w := Rewritten(t);
      RewritesNoBlankOrHyphen(t);
      assert forall c :: c in w ==> c in a || c == 'k' by {
        forall c | c in w ensures c in a || c == 'k' {
          var i :| 0 <= i < |w| && w[i] == c;
          if i > 0 { assert w[i] == a[i]; }
        }
      }
      SqueezeChars(w);
      SqueezeNoDoubled(w);
      if |w| > 0 {
        SqueezeHead(w);
      }
    }
  }

  // ---------------------------------------------------------------------
  // _levenshtein
  // ---------------------------------------------------------------------

  /** Row i of the distance table: the distances from a[..i] to every prefix of b. */
  ghost predicate IsRow(a: string, b: string, i: nat, row: seq<nat>)
    requires i <= |a|
  {
    |row| == |b| + 1 && forall j :: 0 <= j <= |b| ==> row[j] == Lev(a[..i], b[..j])
  }

  /** One pass of the outer loop of `_levenshtein`: row i from row i - 1. */
  method NextRow(a: string, b: string, i: nat, prev: seq<nat>) returns (cur: seq<nat>)
    requires 1 <= i <= |a|
    requires IsRow(a, b, i - 1, prev)
    ensures IsRow(a, b, i, cur)
  {
    cur := [i];
    LevBounds(a[..i], b[..0]);
    var j := 1;
    while j <= |b|
      invariant 1 <= j <= |b| + 1
      invariant |cur| == j
      invariant forall k :: 0 <= k < j ==> cur[k] == Lev(a[..i], b[..k])
    {
      var insert := cur[j - 1] + 1;
      var delete := prev[j] + 1;
      var substitute := prev[j - 1] + (if a[i - 1] != b[j - 1] then 1 else 0);
      LevStep(a, b, i, j);
      var v: nat := Min3(insert, delete, substitute);
      assert v == Lev(a[..i], b[..j]);
      RowSnoc(a[..i], b, cur, v);
      cur := cur + [v];
      j := j + 1;
    }
  }

  /** Appending the distance to the next prefix of `b` extends a partial row. */
  lemma RowSnoc(x: string, b: string, cur: seq<nat>, v: nat)
    requires |cur| <= |b|
    requires forall k :: 0 <= k < |cur| ==> cur[k] == Lev(x, b[..k])
    requires v == Lev(x, b[..|cur|])
    ensures forall k :: 0 <= k < |cur| + 1 ==> (cur + [v])[k] == Lev(x, b[..k])
  {
  }

  /** `_levenshtein`: the longer text indexes the rows, the shorter the columns. */
  method Levenshtein(a0: string, b0: string) returns (d: nat)
    ensures d == Lev(a0, b0)
  {
    var a, b := a0, b0;
    if |a| < |b| {
      a, b := b, a;
      LevSymmetric(a0, b0);
    }
    if |b| == 0 {
      LevBounds(a, b);
      return |a|;
    }
    var prev: seq<nat> := seq(|b| + 1, j requires 0 <= j <= |b| => j);
    forall j | 0 <= j <= |b| ensures prev[j] == Lev(a[..0], b[..j]) {
      LevBounds(a[..0], b[..j]);
    }
    assert IsRow(a, b, 0, prev);
    var i := 1;
    while i <= |a|
      invariant 1 <= i <= |a| + 1
      invariant IsRow(a, b, i - 1, prev)
    {
      prev := NextRow(a, b, i, prev);
      i := i + 1;
    }
    d := prev[|b|];
    assert a[..|a|] == a && b[..|b|] == b;
  }

  // ---------------------------------------------------------------------
  // Tolerances
  // ---------------------------------------------------------------------

  /** Allowed signature distance by the longer signature's length. */
  function SignatureAllowance(length: nat): (allowed: nat)
    ensures length <= 4 ==> allowed == 0
    ensures 4 < length <= 8 ==> allowed == 1
    ensures 8 < length ==> allowed == 2
  {
    if length <= 4 then 0 else if length <= 8 then 1 else 2
  }

  /** Allowed stem distance by the longer stem's length. */
  function StemAllowance(length: nat): (allowed: nat)
    ensures length <= 3 ==> allowed == 0
    ensures 3 < length <= 6 ==> allowed == 1
    ensures 6 < length ==> allowed == 2
  {
    if length <= 3 then 0 else if length <= 6 then 1 else 2
  }

  function MaxLen(a: string, b: string): nat {
    if |a| >= |b| then |a| else |b|
  }

  /** `_phonetic_tolerance`: (allowed, distance), or (-1, 0) when either signature is empty. */
  function PhoneticTolerance(sigA: string, sigB: string): (r: (int, int))
    ensures sigA == [] || sigB == [] ==> r == (-1, 0)
    ensures sigA != [] && sigB != [] ==>
      r.0 == SignatureAllowance(MaxLen(sigA, sigB)) && r.1 == Lev(sigA, sigB)
  {
    if sigA == [] || sigB == [] then (-1, 0)
    else (SignatureAllowance(MaxLen(sigA, sigB)) as int, Lev(sigA, sigB) as int)
  }

  /** `_stems_within_tolerance`. */
  function StemsWithinTolerance(candidate: string, entry: string): bool {
    candidate != [] && entry != [] && Lev(candidate, entry) <= StemAllowance(MaxLen(candidate, entry))
  }

  /**
   * The stem check is false when either stem is empty, symmetric, true for a
   * non-empty stem against itself, and bounds both the distance (by 2) and
   * the length difference (by the allowance).
   */
  lemma StemsWithinToleranceSpec(a: string, b: string)
    ensures a == [] || b == [] ==> !StemsWithinTolerance(a, b)
    ensures StemsWithinTolerance(a, b) == StemsWithinTolerance(b, a)
    ensures a != [] ==> StemsWithinTolerance(a, a)
    ensures StemsWithinTolerance(a, b) ==>
      Lev(a, b) <= 2 && |a| - |b| <= StemAllowance(MaxLen(a, b)) && |b| - |a| <= StemAllowance(MaxLen(a, b))
  {
    LevSymmetric(a, b);
    LevSelf(a);
    LevBounds(a, b);
  }

  /** A signature pair passes when its distance is within the allowance; the check is symmetric. */
  predicate SignaturesClose(sigA: string, sigB: string) {
    var (allowed, distance) := PhoneticTolerance(sigA, sigB);
    allowed >= 0 && distance <= allowed
  }

  lemma SignaturesCloseSpec(a: string, b: string)
    ensures SignaturesClose(a, b) == SignaturesClose(b, a)
    ensures a != [] ==> SignaturesClose(a, a)
    ensures SignaturesClose(a, b) ==> a != [] && b != [] && Lev(a, b) <= 2
    ensures SignaturesClose(a, b) && MaxLen(a, b) <= 4 ==> a == b
  {
    LevSymmetric(a, b);
    LevSelf(a);
    if SignaturesClose(a, b) && MaxLen(a, b) <= 4 {
      LevZeroIffEqual(a, b);
    }
  }
}
