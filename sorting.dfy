/**
 * Python's `list.sort` / `sorted` with a key, as a stable insertion sort over a
 * strict "comes before" relation `lt` (for `key=f` this is `f(a) < f(b)`, for
 * `reverse=True` it is `f(a) > f(b)`). Each element is inserted after every
 * element it does not strictly precede, so equal elements keep their input
 * order, as Python guarantees.
 */
module Sorting {
  import opened Text

  /** No element is strictly preceded by a later one. */
  predicate SortedBy<T>(s: seq<T>, lt: (T, T) -> bool) {
    forall i, j :: 0 <= i < j < |s| ==> !lt(s[j], s[i])
  }

  function Insert<T>(x: T, s: seq<T>, lt: (T, T) -> bool): (r: seq<T>)
    ensures |r| == |s| + 1
    ensures multiset(r) == multiset(s) + multiset{x}
  {
    if |s| == 0 then [x]
    else if lt(x, s[0]) then [x] + s
    else
      assert s == [s[0]] + s[1..];
      [s[0]] + Insert(x, s[1..], lt)
  }

  function SortBy<T>(s: seq<T>, lt: (T, T) -> bool): (r: seq<T>)
    ensures |r| == |s|
  {
    if |s| == 0 then [] else Insert(s[|s| - 1], SortBy(s[..|s| - 1], lt), lt)
  }

  /** The sort is a permutation of its input. */
  lemma {:induction false} SortByPermutation<T>(s: seq<T>, lt: (T, T) -> bool)
    ensures multiset(SortBy(s, lt)) == multiset(s)
  {
    if |s| > 0 {
      SortByPermutation(s[..|s| - 1], lt);
      assert s == s[..|s| - 1] + [s[|s| - 1]];
    }
  }

  lemma SortByElements<T>(s: seq<T>, lt: (T, T) -> bool)
    ensures forall x :: x in SortBy(s, lt) <==> x in s
  {
    SortByPermutation(s, lt);
    forall x ensures x in SortBy(s, lt) <==> x in s {
      assert x in SortBy(s, lt) <==> x in multiset(SortBy(s, lt));
      assert x in s <==> x in multiset(s);
    }
  }

  lemma {:induction false} InsertSorted<T>(x: T, s: seq<T>, lt: (T, T) -> bool)
    requires forall a: T, b: T, c: T :: lt(a, b) && lt(b, c) ==> lt(a, c)
    requires forall a: T :: !lt(a, a)
    requires SortedBy(s, lt)
    ensures SortedBy(Insert(x, s, lt), lt)
  {
    if |s| > 0 && !lt(x, s[0]) {
      InsertSorted(x, s[1..], lt);
      var r := Insert(x, s, lt);
      var t := Insert(x, s[1..], lt);
      assert r == [s[0]] + t;
      assert multiset(t) == multiset(s[1..]) + multiset{x};
      forall j | 0 < j < |r| ensures !lt(r[j], r[0]) {
        assert r[j] == t[j - 1];
        assert r[j] in multiset(t);
        if r[j] == x {
        } else {
          assert r[j] in multiset(s[1..]);
          var k :| 0 <= k < |s[1..]| && s[1..][k] == r[j];
          assert s[k + 1] == r[j];
        }
      }
    } else if |s| > 0 {
      var r := Insert(x, s, lt);
      assert r == [x] + s;
      forall j | 0 < j < |r| ensures !lt(r[j], r[0]) {
        assert r[j] == s[j - 1];
        assert j - 1 == 0 || !lt(s[j - 1], s[0]);
      }
    }
  }

  /** Given a strict order, the result is sorted. */
  lemma {:induction false} SortBySorted<T>(s: seq<T>, lt: (T, T) -> bool)
    requires forall a: T, b: T, c: T :: lt(a, b) && lt(b, c) ==> lt(a, c)
    requires forall a: T :: !lt(a, a)
    ensures SortedBy(SortBy(s, lt), lt)
  {
    if |s| > 0 {
      SortBySorted(s[..|s| - 1], lt);
      InsertSorted(s[|s| - 1], SortBy(s[..|s| - 1], lt), lt);
    }
  }

  lemma {:induction false} InsertAtEnd<T>(x: T, s: seq<T>, lt: (T, T) -> bool)
    requires forall k :: 0 <= k < |s| ==> !lt(x, s[k])
    ensures Insert(x, s, lt) == s + [x]
  {
    if |s| > 0 {
      InsertAtEnd(x, s[1..], lt);
      assert s == [s[0]] + s[1..];
    }
  }

  /**
   * Stability: an input that is already in order comes back unchanged, so
   * elements with equal keys are never exchanged.
   */
  lemma {:induction false} SortByOfSorted<T>(s: seq<T>, lt: (T, T) -> bool)
    requires SortedBy(s, lt)
    ensures SortBy(s, lt) == s
  {
    if |s| > 0 {
      var p := s[..|s| - 1];
      assert SortedBy(p, lt);
      SortByOfSorted(p, lt);
      InsertAtEnd(s[|s| - 1], p, lt);
      assert s == p + [s[|s| - 1]];
    }
  }
  /**
   * Stability at the front: for an order by a real-valued key, the first
   * element of the result is the earliest input element of least key, and
   * every input element before it has a strictly greater key.
   */
  lemma {:induction false} SortByFirst<T>(s: seq<T>, lt: (T, T) -> bool, key: T -> real) returns (m: nat)
    requires |s| > 0
    requires forall a, b :: lt(a, b) == (key(a) < key(b))
    ensures m < |s| && SortBy(s, lt)[0] == s[m]
    ensures forall k :: 0 <= k < |s| ==> key(s[m]) <= key(s[k])
    ensures forall k :: 0 <= k < m ==> key(s[m]) < key(s[k])
  {
    var n := |s| - 1;
    if n == 0 {
      m := 0;
    } else {
      var p := s[..n];
      var m' := SortByFirst(p, lt, key);
      SortByHead(s, lt);
      m := FirstStep(s, p, m', lt, key);
    }
  }

  /** One more element: it becomes the first exactly when its key is strictly less. */
  lemma FirstStep<T>(s: seq<T>, p: seq<T>, m': nat, lt: (T, T) -> bool, key: T -> real) returns (m: nat)
    requires |s| == |p| + 1 && m' < |p|
    requires forall a, b :: lt(a, b) == (key(a) < key(b))
    requires forall k :: 0 <= k < |p| ==> p[k] == s[k]
    requires forall k :: 0 <= k < |p| ==> key(p[m']) <= key(p[k])
    requires forall k :: 0 <= k < m' ==> key(p[m']) < key(p[k])
    ensures m < |s| && s[m] == (if lt(s[|p|], p[m']) then s[|p|] else p[m'])
    ensures forall k :: 0 <= k < |s| ==> key(s[m]) <= key(s[k])
    ensures forall k :: 0 <= k < m ==> key(s[m]) < key(s[k])
  {
    m := if key(s[|p|]) < key(p[m']) then |p| else m';
    assert p[m'] == s[m'];
    forall k | 0 <= k < |s| ensures key(s[m]) <= key(s[k]) && (k < m ==> key(s[m]) < key(s[k])) {
      if k < |p| {
        assert p[k] == s[k];
      }
    }
  }

  /** The head after sorting one more element: that element when it strictly precedes the old head. */
  lemma SortByHead<T>(s: seq<T>, lt: (T, T) -> bool)
    requires |s| > 1
    ensures var t := SortBy(s[..|s| - 1], lt);
      SortBy(s, lt)[0] == if lt(s[|s| - 1], t[0]) then s[|s| - 1] else t[0]
  {
  }

  lemma {:induction false} InsertDistinct<T>(x: T, s: seq<T>, lt: (T, T) -> bool)
    requires Distinct(s) && x !in s
    ensures Distinct(Insert(x, s, lt))
  {
    if |s| > 0 && !lt(x, s[0]) {
      var t := Insert(x, s[1..], lt);
      assert Distinct(s[1..]) by {
        forall i, j | 0 <= i < j < |s[1..]| ensures s[1..][i] != s[1..][j] {
          assert s[1..][i] == s[i + 1] && s[1..][j] == s[j + 1];
        }
      }
      InsertDistinct(x, s[1..], lt);
      assert s[0] !in t by {
        assert multiset(t) == multiset(s[1..]) + multiset{x};
        assert s[0] !in s[1..] by {
          forall k | 0 <= k < |s[1..]| ensures s[1..][k] != s[0] {
            assert s[1..][k] == s[k + 1];
          }
        }
        assert s[0] !in multiset(s[1..]);
        assert s[0] != x;
        assert s[0] !in multiset(t);
      }
      var r := [s[0]] + t;
      forall i, j | 0 <= i < j < |r| ensures r[i] != r[j] {
        if i == 0 {
          assert r[j] == t[j - 1];
        } else {
          assert r[i] == t[i - 1] && r[j] == t[j - 1];
        }
      }
    }
  }

  /** Sorting a list without repetitions gives one without repetitions. */
  lemma {:induction false} SortByDistinct<T>(s: seq<T>, lt: (T, T) -> bool)
    requires Distinct(s)
    ensures Distinct(SortBy(s, lt))
  {
    if |s| > 0 {
      var p := s[..|s| - 1];
      assert Distinct(p) by {
        forall i, j | 0 <= i < j < |p| ensures p[i] != p[j] {
          assert p[i] == s[i] && p[j] == s[j];
        }
      }
      SortByDistinct(p, lt);
      SortByElements(p, lt);
      InsertDistinct(s[|s| - 1], SortBy(p, lt), lt);
    }
  }

  /** No two elements share a key. */
  predicate DistinctBy<T, K(==)>(s: seq<T>, key: T -> K) {
    forall i, j :: 0 <= i < j < |s| ==> key(s[i]) != key(s[j])
  }

  lemma {:induction false} InsertDistinctBy<T, K>(x: T, s: seq<T>, lt: (T, T) -> bool, key: T -> K)
    requires DistinctBy(s, key)
    requires forall k :: 0 <= k < |s| ==> key(s[k]) != key(x)
    ensures DistinctBy(Insert(x, s, lt), key)
  {
    if |s| > 0 && !lt(x, s[0]) {
      var tail := s[1..];
      assert DistinctBy(tail, key) by {
        forall i, j | 0 <= i < j < |tail| ensures key(tail[i]) != key(tail[j]) {
          assert tail[i] == s[i + 1] && tail[j] == s[j + 1];
        }
      }
      assert forall k :: 0 <= k < |tail| ==> key(tail[k]) != key(x) by {
        forall k | 0 <= k < |tail| ensures key(tail[k]) != key(x) {
          assert tail[k] == s[k + 1];
        }
      }
      InsertDistinctBy(x, tail, lt, key);
      var t := Insert(x, tail, lt);
      var r := [s[0]] + t;
      forall j | 0 <= j < |t| ensures key(s[0]) != key(t[j]) {
        assert t[j] in multiset(t);
        if t[j] != x {
          assert t[j] in multiset(tail);
          var k :| 0 <= k < |tail| && tail[k] == t[j];
          assert tail[k] == s[k + 1];
        }
      }
      forall i, j | 0 <= i < j < |r| ensures key(r[i]) != key(r[j]) {
        if i == 0 {
          assert r[j] == t[j - 1];
        } else {
          assert r[i] == t[i - 1] && r[j] == t[j - 1];
        }
      }
    }
  }

  /** Sorting keeps keys distinct. */
  lemma {:induction false} SortByDistinctBy<T, K>(s: seq<T>, lt: (T, T) -> bool, key: T -> K)
    requires DistinctBy(s, key)
    ensures DistinctBy(SortBy(s, lt), key)
  {
    if |s| > 0 {
      var p := s[..|s| - 1];
      var x := s[|s| - 1];
      assert DistinctBy(p, key) by {
        forall i, j | 0 <= i < j < |p| ensures key(p[i]) != key(p[j]) {
          assert p[i] == s[i] && p[j] == s[j];
        }
      }
      SortByDistinctBy(p, lt, key);
      SortByPermutation(p, lt);
      var sp := SortBy(p, lt);
      forall k | 0 <= k < |sp| ensures key(sp[k]) != key(x) {
        assert sp[k] in multiset(sp);
        assert sp[k] in multiset(p);
        var m :| 0 <= m < |p| && p[m] == sp[k];
        assert p[m] == s[m];
      }
      InsertDistinctBy(x, sp, lt, key);
    }
  }
}
