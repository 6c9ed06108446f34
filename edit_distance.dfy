/**
 * Levenshtein distance as a recursive specification over prefixes. Both
 * resolvers compute it with the classic two-row dynamic programme; their
 * methods are proved equal to `Lev`, and the algebraic facts about the
 * distance are proved here once.
 */
module EditDistance {

  function Min3(x: int, y: int, z: int): (m: int)
    ensures m <= x && m <= y && m <= z
    ensures m == x || m == y || m == z
  {
    if x <= y && x <= z then x else if y <= z then y else z
  }

  function SubstCost(c: char, d: char): nat {
    if c == d then 0 else 1
  }

  /**
   * The edit distance between a and b: the least number of single-character
   * insertions, deletions and substitutions turning a into b. Entry (i, j) of
   * the dynamic-programming table is Lev(a[..i], b[..j]).
   */
  function Lev(a: string, b: string): nat
    decreases |a| + |b|
  {
    if |a| == 0 then |b|
    else if |b| == 0 then |a|
    else
      Min3(Lev(a[..|a| - 1], b) + 1,
           Lev(a, b[..|b| - 1]) + 1,
           Lev(a[..|a| - 1], b[..|b| - 1]) + SubstCost(a[|a| - 1], b[|b| - 1]))
  }

  /** One step of the table: how cell (i, j) follows from its three neighbours. */
  lemma LevStep(a: string, b: string, i: nat, j: nat)
    requires 1 <= i <= |a| && 1 <= j <= |b|
    ensures Lev(a[..i], b[..j])
         == Min3(Lev(a[..i], b[..j - 1]) + 1,
                 Lev(a[..i - 1], b[..j]) + 1,
                 Lev(a[..i - 1], b[..j - 1]) + SubstCost(a[i - 1], b[j - 1]))
  {
    assert a[..i][..i - 1] == a[..i - 1];
    assert b[..j][..j - 1] == b[..j - 1];
  }

  lemma {:induction false} LevSymmetric(a: string, b: string)
    ensures Lev(a, b) == Lev(b, a)
    decreases |a| + |b|
  {
    if |a| > 0 && |b| > 0 {
      var a', b' := a[..|a| - 1], b[..|b| - 1];
      LevSymmetric(a', b);
      LevSymmetric(a, b');
      LevSymmetric(a', b');
    }
  }

  lemma {:induction false} LevSelf(a: string)
    ensures Lev(a, a) == 0
    decreases |a|
  {
    if |a| > 0 {
      LevSelf(a[..|a| - 1]);
    }
  }

  /** The distance lies between the length difference and the longer length. */
  lemma {:induction false} LevBounds(a: string, b: string)
    ensures |a| - |b| <= Lev(a, b) && |b| - |a| <= Lev(a, b)
    ensures Lev(a, b) <= if |a| >= |b| then |a| else |b|
    ensures |b| == 0 ==> Lev(a, b) == |a|
    ensures |a| == 0 ==> Lev(a, b) == |b|
    decreases |a| + |b|
  {
    if |a| > 0 && |b| > 0 {
      var a', b' := a[..|a| - 1], b[..|b| - 1];
      LevBounds(a', b);
      LevBounds(a, b');
      LevBounds(a', b');
    }
  }

  lemma {:induction false} LevZeroImpliesEqual(a: string, b: string)
    requires Lev(a, b) == 0
    ensures a == b
    decreases |a| + |b|
  {
    if |a| > 0 && |b| > 0 {
      var a', b' := a[..|a| - 1], b[..|b| - 1];
      LevBounds(a', b);
      LevBounds(a, b');
      assert Lev(a', b') + SubstCost(a[|a| - 1], b[|b| - 1]) == 0;
      LevZeroImpliesEqual(a', b');
      assert a == a' + [a[|a| - 1]] && b == b' + [b[|b| - 1]];
    }
  }

  /** Distance zero means equal strings, and only then. */
  lemma LevZeroIffEqual(a: string, b: string)
    ensures Lev(a, b) == 0 <==> a == b
  {
    if Lev(a, b) == 0 {
      LevZeroImpliesEqual(a, b);
    }
    if a == b {
      LevSelf(a);
    }
  }
}
