/**
 * The common-endings finder (`find_common_endings.py`): every ending of three
 * to eight letters of every name is counted, the endings found at least three
 * times are kept, an ending is dropped when a longer kept ending ends with it,
 * and the survivors are sorted by their reversed text.
 */
module CommonEndings {
  import opened Text
  import opened Sorting
  import opened OrderedDict

  const MinLen: nat := 3
  const MaxLen: nat := 8
  const MinCount: nat := 3

  // ---------------------------------------------------------------------
  // all_suffixes
  // ---------------------------------------------------------------------

  /** The number of lengths in `range(min_len, min(n, max_len) + 1)`. */
  function SuffixCount(n: nat, minLen: nat, maxLen: nat): nat {
    var top := if n < maxLen then n else maxLen;
    if top < minLen then 0 else top - minLen + 1
  }

  /** The suffixes of `w` with `min_len` up to `min(len(w), max_len)` letters, shortest first. */
  function SuffixesOf(w: string, minLen: nat, maxLen: nat): seq<string> {
    seq(SuffixCount(|w|, minLen, maxLen), i requires 0 <= i < SuffixCount(|w|, minLen, maxLen) => w[|w| - (minLen + i)..])
  }

  /** `all_suffixes(word, min_len, max_len)`: the suffixes of the lowered, stripped word. */
  function AllSuffixesOf(word: string, minLen: nat, maxLen: nat): seq<string> {
    SuffixesOf(Strip(Lower(word)), minLen, maxLen)
  }

  /** The suffixes come shortest first, one letter longer each time, so each comes once. */
  lemma SuffixesLengths(w: string, minLen: nat, maxLen: nat)
    ensures forall i :: 0 <= i < |SuffixesOf(w, minLen, maxLen)| ==> |SuffixesOf(w, minLen, maxLen)[i]| == minLen + i
    ensures Distinct(SuffixesOf(w, minLen, maxLen))
  {
    var r := SuffixesOf(w, minLen, maxLen);
    forall i, j | 0 <= i < j < |r| ensures r[i] != r[j] {
      assert |r[i]| == minLen + i && |r[j]| == minLen + j;
    }
  }

  lemma SuffixAt(w: string, minLen: nat, maxLen: nat, i: nat)
    requires i < |SuffixesOf(w, minLen, maxLen)|
    ensures minLen <= |SuffixesOf(w, minLen, maxLen)[i]| <= maxLen && EndsWith(w, SuffixesOf(w, minLen, maxLen)[i])
  {
    var n := minLen + i;
    assert SuffixesOf(w, minLen, maxLen)[i] == w[|w| - n..];
  }

  lemma SuffixFound(w: string, minLen: nat, maxLen: nat, s: string)
    requires minLen <= |s| <= maxLen && EndsWith(w, s)
    ensures s in SuffixesOf(w, minLen, maxLen)
  {
    assert SuffixesOf(w, minLen, maxLen)[|s| - minLen] == w[|w| - |s|..];
  }

  /** Exactly the suffixes of `w` with `min_len` to `max_len` letters. */
  lemma SuffixesMembers(w: string, minLen: nat, maxLen: nat)
    ensures forall s :: s in SuffixesOf(w, minLen, maxLen) <==> minLen <= |s| <= maxLen && EndsWith(w, s)
  {
    var r := SuffixesOf(w, minLen, maxLen);
    forall s | s in r ensures minLen <= |s| <= maxLen && EndsWith(w, s) {
      var i :| 0 <= i < |r| && r[i] == s;
      SuffixAt(w, minLen, maxLen, i);
    }
    forall s | minLen <= |s| <= maxLen && EndsWith(w, s) ensures s in r {
      SuffixFound(w, minLen, maxLen, s);
    }
  }

  // ---------------------------------------------------------------------
  // The counter
  // ---------------------------------------------------------------------

  type Counter = ODict<string, nat>

  /** `counter[s]`, which is 0 for a missing key. */
  function Count(c: Counter, s: string): nat {
    if s in c.values then c.values[s] else 0
  }

  /** `counter[suf] += 1`: a missing key is added at the end with 1. */
  function Inc(c: Counter, s: string): Counter {
    if s in c.values then ODict(c.keys, c.values[s := c.values[s] + 1])
    else ODict(c.keys + [s], c.values[s := 1])
  }

  /** `counter[suf] += 1` for each suffix in turn. */
  function BumpAll(c: Counter, sufs: seq<string>): Counter
    decreases |sufs|
  {
    if |sufs| == 0 then c else Inc(BumpAll(c, sufs[..|sufs| - 1]), sufs[|sufs| - 1])
  }

  lemma IncValid(c: Counter, s: string)
    requires Valid(c)
    ensures Valid(Inc(c, s)) && Inc(c, s) == Put(c, s, Count(c, s) + 1)
  {
  }

  lemma {:induction false} BumpAllValid(c: Counter, sufs: seq<string>)
    requires Valid(c)
    ensures Valid(BumpAll(c, sufs))
    decreases |sufs|
  {
    if |sufs| > 0 {
      BumpAllValid(c, sufs[..|sufs| - 1]);
      IncValid(BumpAll(c, sufs[..|sufs| - 1]), sufs[|sufs| - 1]);
    }
  }

  /** The counter after the loop over the names. */
  function CounterOf(names: seq<string>): (r: Counter)
    ensures Valid(r)
    decreases |names|
  {
    if |names| == 0 then Empty()
    else
      var c := CounterOf(names[..|names| - 1]);
      var sufs := AllSuffixesOf(names[|names| - 1], MinLen, MaxLen);
      BumpAllValid(c, sufs);
      BumpAll(c, sufs)
  }

  /** How many of the names (with repeats) have `s` among their counted suffixes. */
  function NamesWith(names: seq<string>, s: string): nat
    decreases |names|
  {
    if |names| == 0 then 0
    else NamesWith(names[..|names| - 1], s) + (if s in AllSuffixesOf(names[|names| - 1], MinLen, MaxLen) then 1 else 0)
  }

  /** Bumping distinct suffixes adds one to each of them and nothing else. */
  lemma {:induction false} BumpAllCount(c: Counter, sufs: seq<string>)
    requires Distinct(sufs)
    ensures forall s :: Count(BumpAll(c, sufs), s) == Count(c, s) + (if s in sufs then 1 else 0)
    ensures forall s :: s in BumpAll(c, sufs).values <==> s in c.values || s in sufs
    decreases |sufs|
  {
    if |sufs| > 0 {
      var init := sufs[..|sufs| - 1];
      var x := sufs[|sufs| - 1];
      BumpAllCount(c, init);
      assert x !in init;
      assert sufs == init + [x];
    }
  }

  /** The counter holds, for each suffix, the number of names that have it. */
  lemma {:induction false} CounterOfCount(names: seq<string>)
    ensures forall s :: Count(CounterOf(names), s) == NamesWith(names, s)
    ensures forall s :: s in CounterOf(names).values <==> NamesWith(names, s) > 0
    decreases |names|
  {
    if |names| > 0 {
      var init := names[..|names| - 1];
      CounterOfCount(init);
      var sufs := AllSuffixesOf(names[|names| - 1], MinLen, MaxLen);
      SuffixesLengths(Strip(Lower(names[|names| - 1])), MinLen, MaxLen);
      BumpAllCount(CounterOf(init), sufs);
    }
  }

  lemma CounterStep(names: seq<string>, i: nat)
    requires i < |names|
    ensures CounterOf(names[..i + 1]) == BumpAll(CounterOf(names[..i]), AllSuffixesOf(names[i], MinLen, MaxLen))
  {
    assert names[..i + 1][..i] == names[..i];
  }

  lemma BumpStep(c: Counter, sufs: seq<string>, j: nat)
    requires j < |sufs|
    ensures BumpAll(c, sufs[..j + 1]) == Inc(BumpAll(c, sufs[..j]), sufs[j])
  {
    assert sufs[..j + 1][..j] == sufs[..j];
  }

  /** The inner loop: `counter[suf] += 1` for each suffix of one name. */
  method BumpSuffixes(c0: Counter, sufs: seq<string>) returns (counter: Counter)
    ensures counter == BumpAll(c0, sufs)
  {
    counter := c0;
    var j := 0;
    while j < |sufs|
      invariant 0 <= j <= |sufs|
      invariant counter == BumpAll(c0, sufs[..j])
    {
      BumpStep(c0, sufs, j);
      var suf := sufs[j];
      counter := Inc(counter, suf);
      j := j + 1;
    }
    assert sufs[..j] == sufs;
  }

  /** The outer loop over the names. */
  method CountSuffixes(names: seq<string>) returns (counter: Counter)
    ensures counter == CounterOf(names)
  {
    counter := Empty();
    var i := 0;
    while i < |names|
      invariant 0 <= i <= |names|
      invariant counter == CounterOf(names[..i])
    {
      CounterStep(names, i);
      counter := BumpSuffixes(counter, AllSuffixesOf(names[i], MinLen, MaxLen));
      i := i + 1;
    }
    assert names[..i] == names;
  }

  // ---------------------------------------------------------------------
  // The frequent suffixes and their order
  // ---------------------------------------------------------------------

  function Key<V>(p: (string, V)): string { p.0 }

  /** `d.items()` in insertion order. */
  function Items<V>(d: ODict<string, V>): (r: seq<(string, V)>)
    requires Valid(d)
    ensures |r| == |d.keys| && forall i :: 0 <= i < |r| ==> r[i] == (d.keys[i], d.values[d.keys[i]])
  {
    seq(|d.keys|, i requires 0 <= i < |d.keys| => (d.keys[i], d.values[d.keys[i]]))
  }

  lemma ItemsSpec<V>(d: ODict<string, V>)
    requires Valid(d)
    ensures DistinctBy(Items(d), Key)
    ensures forall p :: p in Items(d) <==> p.0 in d.values && p.1 == d.values[p.0]
  {
    forall p: (string, V) | p.0 in d.values && p.1 == d.values[p.0] ensures p in Items(d) {
      var i :| 0 <= i < |d.keys| && d.keys[i] == p.0;
      assert Items(d)[i] == p;
    }
  }

  /** `{suf: cnt for suf, cnt in counter.items() if cnt >= 3}`, as its items. */
  function FrequentOf(items: seq<(string, nat)>): (r: seq<(string, nat)>)
    decreases |items|
  {
    if |items| == 0 then []
    else FrequentOf(items[..|items| - 1]) + (if items[|items| - 1].1 >= MinCount then [items[|items| - 1]] else [])
  }

  lemma {:induction false} FrequentSpec(items: seq<(string, nat)>)
    requires DistinctBy(items, Key)
    ensures DistinctBy(FrequentOf(items), Key)
    ensures forall p :: p in FrequentOf(items) <==> p in items && p.1 >= MinCount
    decreases |items|
  {
    if |items| > 0 {
      var init := items[..|items| - 1];
      var x := items[|items| - 1];
      assert DistinctBy(init, Key) by {
        forall i, j | 0 <= i < j < |init| ensures Key(init[i]) != Key(init[j]) {
          assert init[i] == items[i] && init[j] == items[j];
        }
      }
      FrequentSpec(init);
      assert items == init + [x];
      var f := FrequentOf(init);
      forall k | 0 <= k < |f| ensures Key(f[k]) != Key(x) {
        assert f[k] in init;
        var i :| 0 <= i < |init| && init[i] == f[k];
        assert items[i] == f[k];
      }
    }
  }

  /** The order of `key=lambda x: (-len(x[0]), -x[1], x[0])`. */
  predicate LongerFirst(a: (string, nat), b: (string, nat)) {
    |a.0| > |b.0| || (|a.0| == |b.0| && (a.1 > b.1 || (a.1 == b.1 && StrLess(a.0, b.0))))
  }

  /** Sorted this way, no suffix comes before a longer one. */
  lemma SortLongerFirstSpec(items: seq<(string, nat)>)
    ensures multiset(SortBy(items, LongerFirst)) == multiset(items)
    ensures forall i, j :: 0 <= i < j < |SortBy(items, LongerFirst)| ==>
      |SortBy(items, LongerFirst)[i].0| >= |SortBy(items, LongerFirst)[j].0|
  {
    forall a: (string, nat), b: (string, nat), c: (string, nat) | LongerFirst(a, b) && LongerFirst(b, c)
      ensures LongerFirst(a, c)
    {
      if |a.0| == |b.0| == |c.0| && a.1 == b.1 == c.1 {
        StrLessTransitive(a.0, b.0, c.0);
      }
    }
    forall a: (string, nat) ensures !LongerFirst(a, a) {
      StrLessIrreflexive(a.0);
    }
    SortBySorted(items, LongerFirst);
    SortByPermutation(items, LongerFirst);
    var s := SortBy(items, LongerFirst);
    forall i, j | 0 <= i < j < |s| ensures |s[i].0| >= |s[j].0| {
      assert !LongerFirst(s[j], s[i]);
    }
  }

  // ---------------------------------------------------------------------
  // longest_unique
  // ---------------------------------------------------------------------

  /** `any(longer.endswith(suf) for longer in longest_unique)`. */
  predicate ExtendedBy(keys: seq<string>, suf: string) {
    exists k :: 0 <= k < |keys| && EndsWith(keys[k], suf)
  }

  /** The dictionary the longest-unique loop builds. */
  function KeepLongestOf<V(==)>(items: seq<(string, V)>): (r: ODict<string, V>)
    ensures Valid(r)
    decreases |items|
  {
    if |items| == 0 then Empty()
    else
      var d := KeepLongestOf(items[..|items| - 1]);
      var (suf, cnt) := items[|items| - 1];
      if ExtendedBy(d.keys, suf) then d else Put(d, suf, cnt)
  }

  /** Another of the keys ends with `s`. */
  predicate Dominated<V(==)>(items: seq<(string, V)>, s: string) {
    exists p :: p in items && p.0 != s && EndsWith(p.0, s)
  }

  /** The invariant of the loop: exactly the undominated keys, and every key covered by a kept one. */
  predicate KeepsUndominated<V(==)>(items: seq<(string, V)>, d: ODict<string, V>) {
    (forall s :: s in d.values ==> (s, d.values[s]) in items && !Dominated(items, s)) &&
    (forall p :: p in items ==> p.0 in d.values || exists k :: k in d.values && EndsWith(k, p.0))
  }

  lemma EndsWithTrans(a: string, b: string, c: string)
    requires EndsWith(a, b) && EndsWith(b, c)
    ensures EndsWith(a, c)
  {
    assert a[|a| - |c|..] == a[|a| - |b|..][|b| - |c|..];
  }

  lemma EndsWithNotShorter(a: string, b: string)
    requires EndsWith(a, b) && |a| <= |b|
    ensures a == b
  {
  }

  /** The last suffix of a longest-first list with distinct suffixes is new and no longer than the others. */
  lemma LastIsShortest<V>(items: seq<(string, V)>)
    requires |items| > 0 && DistinctBy(items, Key)
    requires forall i, j :: 0 <= i < j < |items| ==> |items[i].0| >= |items[j].0|
    ensures forall p :: p in items[..|items| - 1] ==> p.0 != items[|items| - 1].0 && |p.0| >= |items[|items| - 1].0|
  {
    var init := items[..|items| - 1];
    forall p | p in init ensures p.0 != items[|items| - 1].0 && |p.0| >= |items[|items| - 1].0| {
      var i :| 0 <= i < |init| && init[i] == p;
      assert items[i] == p;
    }
  }

  /** A kept suffix stays undominated when a new suffix, no longer than it, arrives. */
  lemma KeptStaysUndominated<V>(init: seq<(string, V)>, x: (string, V), d: ODict<string, V>)
    requires KeepsUndominated(init, d)
    requires forall p :: p in init ==> p.0 != x.0 && |p.0| >= |x.0|
    ensures forall s :: s in d.values ==> (s, d.values[s]) in init + [x] && !Dominated(init + [x], s)
  {
    forall s | s in d.values ensures (s, d.values[s]) in init + [x] && !Dominated(init + [x], s) {
      assert (s, d.values[s]) in init;
    }
  }

  /** A new suffix that no kept one ends with is not dominated at all. */
  lemma NewUndominated<V>(init: seq<(string, V)>, x: (string, V), d: ODict<string, V>)
    requires Valid(d) && KeepsUndominated(init, d) && !ExtendedBy(d.keys, x.0)
    requires forall p :: p in init ==> p.0 != x.0
    ensures !Dominated(init + [x], x.0)
  {
    if Dominated(init + [x], x.0) {
      var p :| p in init + [x] && p.0 != x.0 && EndsWith(p.0, x.0);
      assert p in init;
      if p.0 !in d.values {
        var k :| k in d.values && EndsWith(k, p.0);
        EndsWithTrans(k, p.0, x.0);
      }
      assert false;
    }
  }

  /** A new suffix that a kept one ends with is dropped, and the invariant holds. */
  lemma StepDropped<V>(init: seq<(string, V)>, x: (string, V), d: ODict<string, V>)
    requires Valid(d) && KeepsUndominated(init, d) && ExtendedBy(d.keys, x.0)
    requires forall s :: s in d.values ==> (s, d.values[s]) in init + [x] && !Dominated(init + [x], s)
    ensures KeepsUndominated(init + [x], d)
  {
    var k :| 0 <= k < |d.keys| && EndsWith(d.keys[k], x.0);
    var longer := d.keys[k];
    assert longer in d.values;
    forall p | p in init + [x] ensures p.0 in d.values || exists k :: k in d.values && EndsWith(k, p.0) {
      if p == x {
        assert longer in d.values && EndsWith(longer, p.0);
      } else {
        assert p in init;
      }
    }
  }

  /** A new suffix that no kept one ends with is kept, and the invariant holds. */
  lemma StepKept<V>(init: seq<(string, V)>, x: (string, V), d: ODict<string, V>)
    requires Valid(d) && KeepsUndominated(init, d) && !Dominated(init + [x], x.0)
    requires forall s :: s in d.values ==> (s, d.values[s]) in init + [x] && !Dominated(init + [x], s)
    ensures KeepsUndominated(init + [x], Put(d, x.0, x.1))
  {
    var r := Put(d, x.0, x.1);
    forall p | p in init + [x] ensures p.0 in r.values || exists k :: k in r.values && EndsWith(k, p.0) {
      if p != x {
        assert p in init;
        if p.0 !in d.values {
          var k :| k in d.values && EndsWith(k, p.0);
          assert k in r.values;
        }
      }
    }
  }

  /** One pass of the loop keeps the invariant. */
  lemma KeepLongestStep<V>(init: seq<(string, V)>, x: (string, V), d: ODict<string, V>)
    requires Valid(d) && KeepsUndominated(init, d)
    requires forall p :: p in init ==> p.0 != x.0 && |p.0| >= |x.0|
    ensures KeepsUndominated(init + [x], if ExtendedBy(d.keys, x.0) then d else Put(d, x.0, x.1))
  {
    KeptStaysUndominated(init, x, d);
    if ExtendedBy(d.keys, x.0) {
      StepDropped(init, x, d);
    } else {
      NewUndominated(init, x, d);
      StepKept(init, x, d);
    }
  }

  /**
   * Under the longest-first order with distinct suffixes, the loop keeps
   * exactly the suffixes that no other suffix of the list ends with, each
   * with its own count, and every suffix of the list is kept or ends a kept
   * one.
   */
  lemma {:induction false} KeepLongestSpec<V>(items: seq<(string, V)>)
    requires DistinctBy(items, Key)
    requires forall i, j :: 0 <= i < j < |items| ==> |items[i].0| >= |items[j].0|
    ensures KeepsUndominated(items, KeepLongestOf(items))
    ensures forall p :: p in items && !Dominated(items, p.0) ==> p.0 in KeepLongestOf(items).values
    decreases |items|
  {
    if |items| > 0 {
      var init := items[..|items| - 1];
      assert DistinctBy(init, Key) by {
        forall i, j | 0 <= i < j < |init| ensures Key(init[i]) != Key(init[j]) {
          assert init[i] == items[i] && init[j] == items[j];
        }
      }
      KeepLongestSpec(init);
      LastIsShortest(items);
      KeepLongestStep(init, items[|items| - 1], KeepLongestOf(init));
      SplitLast(items);
    }
  }

  /** The longest-unique loop. */
  method KeepLongest<V(==)>(items: seq<(string, V)>) returns (longest: ODict<string, V>)
    ensures longest == KeepLongestOf(items)
  {
    longest := Empty();
    var i := 0;
    while i < |items|
      invariant 0 <= i <= |items|
      invariant longest == KeepLongestOf(items[..i])
    {
      assert items[..i + 1][..i] == items[..i];
      var (suf, cnt) := items[i];
      if !ExtendedBy(longest.keys, suf) {
        longest := Put(longest, suf, cnt);
      }
      i := i + 1;
    }
    assert items[..i] == items;
  }

  // ---------------------------------------------------------------------
  // main
  // ---------------------------------------------------------------------

  /** `[line.strip().lower() for line in f if line.strip()]`. */
  function NamesOf(lines: seq<string>): seq<string>
    decreases |lines|
  {
    if |lines| == 0 then []
    else
      var name := Strip(lines[|lines| - 1]);
      NamesOf(lines[..|lines| - 1]) + (if name == [] then [] else [Lower(name)])
  }

  /** Ordered by the reversed suffix. */
  predicate BackBefore<V>(a: (string, V), b: (string, V)) {
    StrLess(Reverse(a.0), Reverse(b.0))
  }

  /** The lines of `common_endings.txt`, as (suffix, count) pairs. */
  function CommonEndingsOf(lines: seq<string>): seq<(string, nat)> {
    var counter := CounterOf(NamesOf(lines));
    var ordered := SortBy(FrequentOf(Items(counter)), LongerFirst);
    SortBy(Items(KeepLongestOf(ordered)), BackBefore)
  }

  method FindCommonEndings(lines: seq<string>) returns (backsorted: seq<(string, nat)>)
    ensures backsorted == CommonEndingsOf(lines)
  {
    var names := NamesOf(lines);
    var counter := CountSuffixes(names);
    var frequent := FrequentOf(Items(counter));
    var ordered := SortBy(frequent, LongerFirst);
    var longest := KeepLongest(ordered);
    backsorted := SortBy(Items(longest), BackBefore);
  }

  /** A suffix that at least three names have. */
  predicate Frequent(names: seq<string>, s: string) {
    NamesWith(names, s) >= MinCount
  }

  /** The frequent items are the frequent suffixes, each once, with their counts. */
  lemma FrequentItems(names: seq<string>)
    ensures DistinctBy(FrequentOf(Items(CounterOf(names))), Key)
    ensures forall p :: p in FrequentOf(Items(CounterOf(names))) <==> Frequent(names, p.0) && p.1 == NamesWith(names, p.0)
  {
    var counter := CounterOf(names);
    CounterOfCount(names);
    ItemsSpec(counter);
    FrequentSpec(Items(counter));
  }

  /** Sorting keeps the items and puts longer suffixes first. */
  lemma OrderedItems(items: seq<(string, nat)>)
    requires DistinctBy(items, Key)
    ensures DistinctBy(SortBy(items, LongerFirst), Key)
    ensures forall p :: p in SortBy(items, LongerFirst) <==> p in items
    ensures forall i, j :: 0 <= i < j < |SortBy(items, LongerFirst)| ==>
      |SortBy(items, LongerFirst)[i].0| >= |SortBy(items, LongerFirst)[j].0|
  {
    SortLongerFirstSpec(items);
    SortByDistinctBy(items, LongerFirst, Key);
    var o := SortBy(items, LongerFirst);
    forall p ensures p in o <==> p in items {
      assert p in o <==> multiset(o)[p] > 0;
      assert p in items <==> multiset(items)[p] > 0;
    }
  }

  /** The kept items are the undominated items of the list. */
  lemma KeptItems<V>(items: seq<(string, V)>)
    requires DistinctBy(items, Key)
    requires forall i, j :: 0 <= i < j < |items| ==> |items[i].0| >= |items[j].0|
    ensures forall p :: p in Items(KeepLongestOf(items)) <==> p in items && !Dominated(items, p.0)
    ensures DistinctBy(Items(KeepLongestOf(items)), Key)
  {
    var kept := KeepLongestOf(items);
    KeepLongestSpec(items);
    ItemsSpec(kept);
    forall p ensures p in Items(kept) <==> p in items && !Dominated(items, p.0) {
      if p in items && !Dominated(items, p.0) {
        assert (p.0, kept.values[p.0]) in items;
        assert Key(p) == Key((p.0, kept.values[p.0]));
        DistinctByKey(items, p, (p.0, kept.values[p.0]));
      }
    }
  }

  /** Two items with the same suffix in a list with distinct suffixes are the same item. */
  lemma DistinctByKey<V>(items: seq<(string, V)>, p: (string, V), q: (string, V))
    requires DistinctBy(items, Key) && p in items && q in items && p.0 == q.0
    ensures p == q
  {
    var i :| 0 <= i < |items| && items[i] == p;
    var j :| 0 <= j < |items| && items[j] == q;
    assert Key(items[i]) == Key(items[j]);
  }

  /** Domination within the frequent items is domination by any frequent suffix. */
  lemma DominatedByFrequent(items: seq<(string, nat)>, names: seq<string>)
    requires forall p :: p in items <==> Frequent(names, p.0) && p.1 == NamesWith(names, p.0)
    ensures forall s :: Dominated(items, s) <==> exists t :: Frequent(names, t) && t != s && EndsWith(t, s)
  {
    forall s ensures Dominated(items, s) <==> exists t :: Frequent(names, t) && t != s && EndsWith(t, s) {
      if exists t :: Frequent(names, t) && t != s && EndsWith(t, s) {
        var t :| Frequent(names, t) && t != s && EndsWith(t, s);
        assert (t, NamesWith(names, t)) in items;
      }
    }
  }

  /**
   * The written endings are exactly the frequent suffixes that no other
   * frequent suffix ends with, each with the number of names that have it,
   * each once, ordered by their reversed text.
   */
  lemma CommonEndingsSpec(lines: seq<string>)
    ensures forall p :: p in CommonEndingsOf(lines) <==>
      Frequent(NamesOf(lines), p.0) && p.1 == NamesWith(NamesOf(lines), p.0) &&
      !exists t :: Frequent(NamesOf(lines), t) && t != p.0 && EndsWith(t, p.0)
    ensures DistinctBy(CommonEndingsOf(lines), Key)
    ensures forall i, j :: 0 <= i < j < |CommonEndingsOf(lines)| ==>
      !StrLess(Reverse(CommonEndingsOf(lines)[j].0), Reverse(CommonEndingsOf(lines)[i].0))
  {
    var names := NamesOf(lines);
    var frequent := FrequentOf(Items(CounterOf(names)));
    FrequentItems(names);
    var ordered := SortBy(frequent, LongerFirst);
    OrderedItems(frequent);
    DominatedByFrequent(ordered, names);
    var kept := Items(KeepLongestOf(ordered));
    KeptItems(ordered);
    var out := SortBy(kept, BackBefore);
    BackSortSpec(kept);
    SortByDistinctBy(kept, BackBefore, Key);
    forall p ensures p in out <==> p in kept {
      assert p in out <==> multiset(out)[p] > 0;
      assert p in kept <==> multiset(kept)[p] > 0;
    }
  }

  /** The backsort is a permutation ordered by reversed suffix. */
  lemma BackSortSpec<V>(items: seq<(string, V)>)
    ensures multiset(SortBy(items, BackBefore)) == multiset(items)
    ensures forall i, j :: 0 <= i < j < |SortBy(items, BackBefore)| ==>
      !StrLess(Reverse(SortBy(items, BackBefore)[j].0), Reverse(SortBy(items, BackBefore)[i].0))
  {
    forall a: (string, V), b: (string, V), c: (string, V) | BackBefore(a, b) && BackBefore(b, c)
      ensures BackBefore(a, c)
    {
      StrLessTransitive(Reverse(a.0), Reverse(b.0), Reverse(c.0));
    }
    forall a: (string, V) ensures !BackBefore(a, a) {
      StrLessIrreflexive(Reverse(a.0));
    }
    SortBySorted(items, BackBefore);
    SortByPermutation(items, BackBefore);
  }
}
