/**
 * The three index lookups of the older resolver (`resolve_vassdrag.py`):
 * exact lookup on `navn`, then `navn_normalisert`; fuzzy lookup on the
 * phonetic keys within an edit distance; and lookup of names that are a
 * prefix of the query or have it as a prefix.
 */
module LegacyLookup {
  import opened Text
  import opened Opt
  import opened Sorting
  import opened Regine
  import opened EditDistance
  import opened Phonetics
  import opened LegacyNames

  /** The two name fields the lookups read, in the order they read them. */
  datatype Field = Navn | NavnNormalisert

  const SearchFields: seq<Field> := [Navn, NavnNormalisert]

  /** `entry.get(field, "")`. */
  function FieldValue(e: Entry, f: Field): string {
    match f
    case Navn => e.navn
    case NavnNormalisert => e.navnNormalisert
  }

  // ---------------------------------------------------------------------
  // find_exact_match
  // ---------------------------------------------------------------------

  /** The field equals the query once both are lowered. */
  predicate Matches(e: Entry, f: Field, search: string) {
    Lower(FieldValue(e, f)) == Lower(search)
  }

  /** Position of the first entry whose field matches, or |es|. */
  function FirstMatch(es: seq<Entry>, f: Field, search: string): (k: nat)
    ensures k <= |es|
    ensures forall j :: 0 <= j < k ==> !Matches(es[j], f, search)
    ensures k < |es| ==> Matches(es[k], f, search)
  {
    if |es| == 0 then 0
    else if Matches(es[0], f, search) then 0
    else 1 + FirstMatch(es[1..], f, search)
  }

  /**
   * `find_exact_match`: the first entry whose `navn` matches; failing that,
   * the first whose `navn_normalisert` matches; failing both, nothing.
   */
  function ExactMatchOf(search: string, es: seq<Entry>): (r: Option<Entry>)
    ensures r.Some? ==> r.value in es
  {
    var k := FirstMatch(es, Navn, search);
    if k < |es| then Some(es[k])
    else
      var k2 := FirstMatch(es, NavnNormalisert, search);
      if k2 < |es| then Some(es[k2]) else None
  }

  /** Nothing is found exactly when no entry matches on either field. */
  lemma ExactMatchNone(search: string, es: seq<Entry>)
    ensures ExactMatchOf(search, es).None?
      <==> forall k :: 0 <= k < |es| ==> !Matches(es[k], Navn, search) && !Matches(es[k], NavnNormalisert, search)
  {
  }

  /** When some `navn` matches, the result is the first entry whose `navn` matches. */
  lemma ExactMatchPrefersNavn(search: string, es: seq<Entry>, k: nat)
    requires k < |es| && Matches(es[k], Navn, search)
    requires forall j :: 0 <= j < k ==> !Matches(es[j], Navn, search)
    ensures ExactMatchOf(search, es) == Some(es[k])
  {
    var n := FirstMatch(es, Navn, search);
    assert !(n < k) && !(k < n);
  }

  /** When no `navn` matches, the result is the first entry whose `navn_normalisert` matches. */
  lemma ExactMatchFallsBack(search: string, es: seq<Entry>, k: nat)
    requires forall j :: 0 <= j < |es| ==> !Matches(es[j], Navn, search)
    requires k < |es| && Matches(es[k], NavnNormalisert, search)
    requires forall j :: 0 <= j < k ==> !Matches(es[j], NavnNormalisert, search)
    ensures ExactMatchOf(search, es) == Some(es[k])
  {
    var n := FirstMatch(es, NavnNormalisert, search);
    assert !(n < k) && !(k < n);
  }

  /** The two passes of `find_exact_match`, each returning on its first hit. */
  method FindExactMatch(search: string, es: seq<Entry>) returns (r: Option<Entry>)
    ensures r == ExactMatchOf(search, es)
  {
    var searchLower := Lower(search);
    var i := 0;
    while i < |es|
      invariant 0 <= i <= |es|
      invariant forall j :: 0 <= j < i ==> !Matches(es[j], Navn, search)
    {
      if Lower(es[i].navn) == searchLower {
        ExactMatchPrefersNavn(search, es, i);
        return Some(es[i]);
      }
      i := i + 1;
    }
    i := 0;
    while i < |es|
      invariant 0 <= i <= |es|
      invariant forall j :: 0 <= j < i ==> !Matches(es[j], NavnNormalisert, search)
    {
      if Lower(es[i].navnNormalisert) == searchLower {
        ExactMatchFallsBack(search, es, i);
        return Some(es[i]);
      }
      i := i + 1;
    }
    ExactMatchNone(search, es);
    return None;
  }

  // ---------------------------------------------------------------------
  // find_fuzzy_matches
  // ---------------------------------------------------------------------

  /** `(entry, edit_distance, matched_field)`. */
  datatype FuzzyMatch = FuzzyMatch(entry: Entry, distance: nat, field: Field)

  /** Edit distance between the phonetic keys of the query and of a field value. */
  function PhoneticDistance(searchPhonetic: string, value: string): nat {
    Lev(searchPhonetic, PhoneticNormalizeOf(value))
  }

  /** What one field contributes: its match when it is not empty and close enough. */
  function FieldFuzzy(sp: string, e: Entry, f: Field, maxDistance: int): seq<FuzzyMatch> {
    var v := FieldValue(e, f);
    if v == [] then []
    else
      var d := PhoneticDistance(sp, v);
      if d <= maxDistance then [FuzzyMatch(e, d, f)] else []
  }

  /** The field loop for one entry, over a prefix of the fields. */
  function FieldsFuzzy(sp: string, e: Entry, fs: seq<Field>, maxDistance: int): (ms: seq<FuzzyMatch>)
    ensures forall m :: m in ms ==> (m.entry == e && m.field in fs && FieldValue(e, m.field) != []
      && m.distance == PhoneticDistance(sp, FieldValue(e, m.field)) && m.distance <= maxDistance)
  {
    if |fs| == 0 then []
    else
      var p := FieldsFuzzy(sp, e, fs[..|fs| - 1], maxDistance);
      assert forall m :: m in p ==> m.field in fs by {
        forall m | m in p ensures m.field in fs { assert m.field in fs[..|fs| - 1]; }
      }
      p + FieldFuzzy(sp, e, fs[|fs| - 1], maxDistance)
  }

  /** Both fields of one entry, `navn` first. */
  lemma FieldsFuzzyBoth(sp: string, e: Entry, maxDistance: int)
    ensures FieldsFuzzy(sp, e, SearchFields, maxDistance)
      == FieldFuzzy(sp, e, Navn, maxDistance) + FieldFuzzy(sp, e, NavnNormalisert, maxDistance)
  {
    assert SearchFields[..1] == [Navn];
    assert [Navn][..0] == [];
    assert FieldsFuzzy(sp, e, [Navn], maxDistance) == FieldFuzzy(sp, e, Navn, maxDistance);
  }

  /** A collected match: a non-empty field of an entry, within the distance, with its distance. */
  predicate IsFuzzyHit(m: FuzzyMatch, sp: string, es: seq<Entry>, maxDistance: int) {
    m.entry in es && m.field in SearchFields && FieldValue(m.entry, m.field) != []
    && m.distance == PhoneticDistance(sp, FieldValue(m.entry, m.field)) && m.distance <= maxDistance
  }

  /** The `matches` list before the sort: entries in order, each field in order. */
  function CollectFuzzy(sp: string, es: seq<Entry>, maxDistance: int): (ms: seq<FuzzyMatch>)
    ensures forall m :: m in ms ==> IsFuzzyHit(m, sp, es, maxDistance)
  {
    if |es| == 0 then []
    else
      var p := CollectFuzzy(sp, es[..|es| - 1], maxDistance);
      var e := es[|es| - 1];
      CollectedStillHits(sp, es, maxDistance, p);
      p + FieldsFuzzy(sp, e, SearchFields, maxDistance)
  }

  lemma CollectedStillHits(sp: string, es: seq<Entry>, maxDistance: int, p: seq<FuzzyMatch>)
    requires |es| > 0 && forall m :: m in p ==> IsFuzzyHit(m, sp, es[..|es| - 1], maxDistance)
    ensures forall m :: m in p ==> IsFuzzyHit(m, sp, es, maxDistance)
  {
    forall m | m in p ensures IsFuzzyHit(m, sp, es, maxDistance) {
      assert m.entry in es[..|es| - 1];
    }
  }

  /** Every non-empty field within the distance is collected. */
  lemma {:induction false} CollectFuzzyComplete(sp: string, es: seq<Entry>, maxDistance: int, k: nat, f: Field)
    requires k < |es| && FieldValue(es[k], f) != []
    requires PhoneticDistance(sp, FieldValue(es[k], f)) <= maxDistance
    ensures FuzzyMatch(es[k], PhoneticDistance(sp, FieldValue(es[k], f)), f) in CollectFuzzy(sp, es, maxDistance)
    decreases |es|
  {
    var m := FuzzyMatch(es[k], PhoneticDistance(sp, FieldValue(es[k], f)), f);
    var p := CollectFuzzy(sp, es[..|es| - 1], maxDistance);
    if k < |es| - 1 {
      CollectFuzzyComplete(sp, es[..|es| - 1], maxDistance, k, f);
      assert m in p;
    } else {
      var e := es[k];
      FieldsFuzzyBoth(sp, e, maxDistance);
      match f
      case Navn => assert m in FieldFuzzy(sp, e, Navn, maxDistance);
      case NavnNormalisert => assert m in FieldFuzzy(sp, e, NavnNormalisert, maxDistance);
    }
  }

  /** `key=lambda x: x[1]`: a strictly smaller distance comes first. */
  predicate Closer(a: FuzzyMatch, b: FuzzyMatch) { a.distance < b.distance }

  function VnrsOf(ms: seq<FuzzyMatch>): set<string> {
    set m | m in ms :: m.entry.vassdragsnr
  }

  /** The `seen` loop: a match is kept when no earlier kept match has its number. */
  function FirstPerVassdrag(ms: seq<FuzzyMatch>): (r: seq<FuzzyMatch>)
    ensures forall m :: m in r ==> m in ms
    ensures VnrsOf(r) == VnrsOf(ms)
    ensures forall i, j :: 0 <= i < j < |r| ==> r[i].entry.vassdragsnr != r[j].entry.vassdragsnr
  {
    if |ms| == 0 then []
    else
      var p := FirstPerVassdrag(ms[..|ms| - 1]);
      var m := ms[|ms| - 1];
      assert ms == ms[..|ms| - 1] + [m];
      assert VnrsOf(ms) == VnrsOf(ms[..|ms| - 1]) + {m.entry.vassdragsnr};
      if m.entry.vassdragsnr in VnrsOf(p) then p
      else
        assert VnrsOf(p + [m]) == VnrsOf(p) + {m.entry.vassdragsnr};
        p + [m]
  }

  /** After a stable sort by distance, the match kept for a number has its smallest distance. */
  lemma {:induction false} FirstPerVassdragNearest(ms: seq<FuzzyMatch>, m: FuzzyMatch)
    requires SortedBy(ms, Closer) && m in ms
    ensures exists x :: x in FirstPerVassdrag(ms) && x.entry.vassdragsnr == m.entry.vassdragsnr && x.distance <= m.distance
    decreases |ms|
  {
    var prefix := ms[..|ms| - 1];
    var last := ms[|ms| - 1];
    var p := FirstPerVassdrag(prefix);
    assert SortedBy(prefix, Closer);
    if m in prefix {
      FirstPerVassdragNearest(prefix, m);
      var x :| x in p && x.entry.vassdragsnr == m.entry.vassdragsnr && x.distance <= m.distance;
      assert x in FirstPerVassdrag(ms);
    } else {
      assert m == last;
      if last.entry.vassdragsnr in VnrsOf(p) {
        var x :| x in p && x.entry.vassdragsnr == last.entry.vassdragsnr;
        assert x in prefix;
        var k :| 0 <= k < |prefix| && prefix[k] == x;
        assert ms[k] == x && !Closer(ms[|ms| - 1], ms[k]);
      } else {
        assert FirstPerVassdrag(ms) == p + [last];
      }
    }
  }

  /** `find_fuzzy_matches(search_name, regine_index, max_distance, min_length)`. */
  function FuzzyMatchesOf(search: string, es: seq<Entry>, maxDistance: int, minLength: int): seq<FuzzyMatch> {
    if |search| < minLength then []
    else FirstPerVassdrag(SortBy(CollectFuzzy(PhoneticNormalizeOf(search), es, maxDistance), Closer))
  }

  /**
   * A query shorter than the minimum finds nothing. Otherwise every match
   * is a non-empty field within the distance, matches come nearest first,
   * no number appears twice, every number with a field in range appears,
   * and always with the smallest distance any of its fields reaches.
   */
  lemma FuzzyMatchesSpec(search: string, es: seq<Entry>, maxDistance: int, minLength: int)
    ensures |search| < minLength ==> FuzzyMatchesOf(search, es, maxDistance, minLength) == []
    ensures forall m :: m in FuzzyMatchesOf(search, es, maxDistance, minLength) ==>
      IsFuzzyHit(m, PhoneticNormalizeOf(search), es, maxDistance)
    ensures SortedBy(FuzzyMatchesOf(search, es, maxDistance, minLength), Closer)
    ensures forall i, j :: 0 <= i < j < |FuzzyMatchesOf(search, es, maxDistance, minLength)| ==>
      FuzzyMatchesOf(search, es, maxDistance, minLength)[i].entry.vassdragsnr
        != FuzzyMatchesOf(search, es, maxDistance, minLength)[j].entry.vassdragsnr
  {
    if |search| >= minLength {
      var ms := SortBy(CollectFuzzy(PhoneticNormalizeOf(search), es, maxDistance), Closer);
      SortByElements(CollectFuzzy(PhoneticNormalizeOf(search), es, maxDistance), Closer);
      SortBySorted(CollectFuzzy(PhoneticNormalizeOf(search), es, maxDistance), Closer);
      FirstPerVassdragSorted(ms);
    }
  }

  /** Keeping the first match per number keeps the order of a sorted list. */
  lemma {:induction false} FirstPerVassdragSorted(ms: seq<FuzzyMatch>)
    requires SortedBy(ms, Closer)
    ensures SortedBy(FirstPerVassdrag(ms), Closer)
    decreases |ms|
  {
    if |ms| > 0 {
      var prefix := ms[..|ms| - 1];
      var last := ms[|ms| - 1];
      assert SortedBy(prefix, Closer);
      FirstPerVassdragSorted(prefix);
      var p := FirstPerVassdrag(prefix);
      if last.entry.vassdragsnr !in VnrsOf(p) {
        var r := p + [last];
        forall i, j | 0 <= i < j < |r| ensures !Closer(r[j], r[i]) {
          if j == |r| - 1 {
            assert r[i] in prefix;
            var k :| 0 <= k < |prefix| && prefix[k] == r[i];
            assert ms[k] == r[i];
          } else {
            assert r[i] == p[i] && r[j] == p[j];
          }
        }
      }
    }
  }

  /** A field in range always leaves a match for its number, at its distance or nearer. */
  lemma FuzzyMatchesComplete(search: string, es: seq<Entry>, maxDistance: int, minLength: int, k: nat, f: Field)
    requires |search| >= minLength && k < |es| && FieldValue(es[k], f) != []
    requires PhoneticDistance(PhoneticNormalizeOf(search), FieldValue(es[k], f)) <= maxDistance
    ensures exists x :: (x in FuzzyMatchesOf(search, es, maxDistance, minLength)
      && x.entry.vassdragsnr == es[k].vassdragsnr
      && x.distance <= PhoneticDistance(PhoneticNormalizeOf(search), FieldValue(es[k], f)))
  {
    var sp := PhoneticNormalizeOf(search);
    var all := CollectFuzzy(sp, es, maxDistance);
    CollectFuzzyComplete(sp, es, maxDistance, k, f);
    SortByElements(all, Closer);
    SortBySorted(all, Closer);
    FirstPerVassdragNearest(SortBy(all, Closer), FuzzyMatch(es[k], PhoneticDistance(sp, FieldValue(es[k], f)), f));
  }

  /** The field loop for one entry, appending to `matches`. */
  method FuzzyEntry(sp: string, e: Entry, maxDistance: int, matches0: seq<FuzzyMatch>)
    returns (matches: seq<FuzzyMatch>)
    ensures matches == matches0 + FieldsFuzzy(sp, e, SearchFields, maxDistance)
  {
    matches := matches0;
    var k := 0;
    while k < |SearchFields|
      invariant 0 <= k <= |SearchFields|
      invariant matches == matches0 + FieldsFuzzy(sp, e, SearchFields[..k], maxDistance)
    {
      FieldsFuzzySnoc(sp, e, SearchFields, k, maxDistance);
      matches := FuzzyField(sp, e, SearchFields[k], maxDistance, matches);
      assert matches == matches0 + (FieldsFuzzy(sp, e, SearchFields[..k], maxDistance) + FieldFuzzy(sp, e, SearchFields[k], maxDistance));
      k := k + 1;
    }
    assert SearchFields[..|SearchFields|] == SearchFields;
  }

  /** One field of the loop: an empty value is skipped, a close one appended. */
  method FuzzyField(sp: string, e: Entry, field: Field, maxDistance: int, matches0: seq<FuzzyMatch>)
    returns (matches: seq<FuzzyMatch>)
    ensures matches == matches0 + FieldFuzzy(sp, e, field, maxDistance)
  {
    matches := matches0;
    var entryValue := FieldValue(e, field);
    if entryValue == [] {
      assert matches0 + [] == matches0;
      return;
    }
    var entryPhonetic := PhoneticNormalize(entryValue);
    var distance := LevenshteinDistance(sp, entryPhonetic);
    if distance <= maxDistance {
      matches := matches + [FuzzyMatch(e, distance, field)];
    } else {
      assert matches0 + [] == matches0;
    }
  }

  lemma FieldsFuzzySnoc(sp: string, e: Entry, fs: seq<Field>, k: nat, maxDistance: int)
    requires k < |fs|
    ensures FieldsFuzzy(sp, e, fs[..k + 1], maxDistance) == FieldsFuzzy(sp, e, fs[..k], maxDistance) + FieldFuzzy(sp, e, fs[k], maxDistance)
  {
    assert fs[..k + 1][..k] == fs[..k];
  }

  /** The `seen` loop over the sorted matches. */
  method KeepFirstPerVassdrag(ms: seq<FuzzyMatch>) returns (unique: seq<FuzzyMatch>)
    ensures unique == FirstPerVassdrag(ms)
  {
    var seen: set<string> := {};
    unique := [];
    var i := 0;
    while i < |ms|
      invariant 0 <= i <= |ms|
      invariant unique == FirstPerVassdrag(ms[..i]) && seen == VnrsOf(unique)
    {
      var m := ms[i];
      assert ms[..i + 1][..i] == ms[..i];
      if m.entry.vassdragsnr !in seen {
        seen := seen + {m.entry.vassdragsnr};
        unique := unique + [m];
        assert VnrsOf(unique) == VnrsOf(unique[..|unique| - 1]) + {m.entry.vassdragsnr};
      }
      i := i + 1;
    }
    assert ms[..i] == ms;
  }

  /** `find_fuzzy_matches` as written. */
  method FindFuzzyMatches(search: string, es: seq<Entry>, maxDistance: int, minLength: int)
    returns (r: seq<FuzzyMatch>)
    ensures r == FuzzyMatchesOf(search, es, maxDistance, minLength)
  {
    if |search| < minLength {
      return [];
    }
    var searchPhonetic := PhoneticNormalize(search);
    var matches: seq<FuzzyMatch> := [];
    var i := 0;
    while i < |es|
      invariant 0 <= i <= |es|
      invariant matches == CollectFuzzy(searchPhonetic, es[..i], maxDistance)
    {
      assert es[..i + 1][..i] == es[..i];
      matches := FuzzyEntry(searchPhonetic, es[i], maxDistance, matches);
      i := i + 1;
    }
    assert es[..i] == es;
    matches := SortBy(matches, Closer);
    r := KeepFirstPerVassdrag(matches);
  }

  // ---------------------------------------------------------------------
  // find_startswith_matches
  // ---------------------------------------------------------------------

  /** Either string starts with the other. */
  predicate MutualPrefix(a: string, b: string) {
    StartsWith(a, b) || StartsWith(b, a)
  }

  /** A field long enough whose lowered value and the lowered query are prefixes one of the other. */
  predicate PrefixHit(e: Entry, f: Field, searchLower: string, minLength: int) {
    var v := FieldValue(e, f);
    v != [] && |v| >= minLength && MutualPrefix(Lower(v), searchLower)
  }

  /** `(entry["vassdragsnr"], field)`: the key of the `seen` set. */
  function KeyOf(x: (Entry, Field)): (string, Field) {
    (x.0.vassdragsnr, x.1)
  }

  function KeysOf(xs: seq<(Entry, Field)>): set<(string, Field)> {
    set x | x in xs :: KeyOf(x)
  }

  /** One field of one entry: appended when it is a hit whose key is new. */
  function PrefixStep(acc: seq<(Entry, Field)>, e: Entry, f: Field, searchLower: string, minLength: int): (r: seq<(Entry, Field)>)
    ensures KeysOf(r) == KeysOf(acc) + (if PrefixHit(e, f, searchLower, minLength) then {KeyOf((e, f))} else {})
  {
    if PrefixHit(e, f, searchLower, minLength) && KeyOf((e, f)) !in KeysOf(acc) then
      assert KeysOf(acc + [(e, f)]) == KeysOf(acc) + {KeyOf((e, f))};
      acc + [(e, f)]
    else acc
  }

  /** The field loop for one entry, over a prefix of the fields. */
  function PrefixFields(acc: seq<(Entry, Field)>, e: Entry, fs: seq<Field>, searchLower: string, minLength: int): seq<(Entry, Field)> {
    if |fs| == 0 then acc
    else PrefixStep(PrefixFields(acc, e, fs[..|fs| - 1], searchLower, minLength), e, fs[|fs| - 1], searchLower, minLength)
  }

  /** The entry loop over a prefix of the index. */
  function PrefixScan(es: seq<Entry>, searchLower: string, minLength: int): seq<(Entry, Field)> {
    if |es| == 0 then []
    else PrefixFields(PrefixScan(es[..|es| - 1], searchLower, minLength), es[|es| - 1], SearchFields, searchLower, minLength)
  }

  /** `find_startswith_matches(search_name, regine_index, min_length)`. */
  function StartswithMatchesOf(search: string, es: seq<Entry>, minLength: int): seq<(Entry, Field)> {
    if |search| < minLength then [] else PrefixScan(es, Lower(search), minLength)
  }

  /** Every kept pair is a hit, and no key is kept twice. */
  predicate PrefixKept(xs: seq<(Entry, Field)>, es: seq<Entry>, searchLower: string, minLength: int) {
    (forall x :: x in xs ==> x.0 in es && PrefixHit(x.0, x.1, searchLower, minLength))
    && forall i, j :: 0 <= i < j < |xs| ==> KeyOf(xs[i]) != KeyOf(xs[j])
  }

  lemma PrefixStepKept(acc: seq<(Entry, Field)>, es: seq<Entry>, e: Entry, f: Field, searchLower: string, minLength: int)
    requires PrefixKept(acc, es, searchLower, minLength) && e in es
    ensures PrefixKept(PrefixStep(acc, e, f, searchLower, minLength), es, searchLower, minLength)
  {
    if PrefixHit(e, f, searchLower, minLength) && KeyOf((e, f)) !in KeysOf(acc) {
      var r := acc + [(e, f)];
      forall i, j | 0 <= i < j < |r| ensures KeyOf(r[i]) != KeyOf(r[j]) {
        if j == |r| - 1 {
          assert r[i] in acc;
        } else {
          assert r[i] == acc[i] && r[j] == acc[j];
        }
      }
    }
  }

  lemma {:induction false} PrefixFieldsKept(acc: seq<(Entry, Field)>, es: seq<Entry>, e: Entry, fs: seq<Field>, searchLower: string, minLength: int)
    requires PrefixKept(acc, es, searchLower, minLength) && e in es
    ensures PrefixKept(PrefixFields(acc, e, fs, searchLower, minLength), es, searchLower, minLength)
    ensures KeysOf(PrefixFields(acc, e, fs, searchLower, minLength))
      == KeysOf(acc) + set f | f in fs && PrefixHit(e, f, searchLower, minLength) :: KeyOf((e, f))
    decreases |fs|
  {
    if |fs| > 0 {
      var init := fs[..|fs| - 1];
      var f := fs[|fs| - 1];
      PrefixFieldsKept(acc, es, e, init, searchLower, minLength);
      PrefixStepKept(PrefixFields(acc, e, init, searchLower, minLength), es, e, f, searchLower, minLength);
      FieldHitKeysSnoc(e, fs, searchLower, minLength);
    } else {
      assert (set g | g in fs && PrefixHit(e, g, searchLower, minLength) :: KeyOf((e, g))) == {};
    }
  }

  /** The keys of every field of every entry that is a hit. */
  function HitKeys(es: seq<Entry>, searchLower: string, minLength: int): set<(string, Field)> {
    set e, f | e in es && f in SearchFields && PrefixHit(e, f, searchLower, minLength) :: KeyOf((e, f))
  }

  lemma {:induction false} PrefixScanSpec(es: seq<Entry>, searchLower: string, minLength: int)
    ensures PrefixKept(PrefixScan(es, searchLower, minLength), es, searchLower, minLength)
    ensures KeysOf(PrefixScan(es, searchLower, minLength)) == HitKeys(es, searchLower, minLength)
    decreases |es|
  {
    if |es| > 0 {
      var init := es[..|es| - 1];
      var e := es[|es| - 1];
      PrefixScanSpec(init, searchLower, minLength);
      var p := PrefixScan(init, searchLower, minLength);
      assert PrefixKept(p, es, searchLower, minLength) by {
        forall x | x in p ensures x.0 in es { assert x.0 in init; }
      }
      PrefixFieldsKept(p, es, e, SearchFields, searchLower, minLength);
      HitKeysSnoc(es, searchLower, minLength);
    } else {
      assert HitKeys(es, searchLower, minLength) == {};
    }
  }

  /** The hit keys of a list of entries: those of all but the last, and those of the last. */
  lemma HitKeysSnoc(es: seq<Entry>, searchLower: string, minLength: int)
    requires |es| > 0
    ensures var e := es[|es| - 1];
      HitKeys(es, searchLower, minLength) == HitKeys(es[..|es| - 1], searchLower, minLength)
        + set f | f in SearchFields && PrefixHit(e, f, searchLower, minLength) :: KeyOf((e, f))
  {
    assert es == es[..|es| - 1] + [es[|es| - 1]];
  }

  /** The hit keys of an entry's fields: those of all but the last field, and the last one's if it hits. */
  lemma FieldHitKeysSnoc(e: Entry, fs: seq<Field>, searchLower: string, minLength: int)
    requires |fs| > 0
    ensures var init := fs[..|fs| - 1]; var f := fs[|fs| - 1];
      (set g | g in fs && PrefixHit(e, g, searchLower, minLength) :: KeyOf((e, g)))
        == (set g | g in init && PrefixHit(e, g, searchLower, minLength) :: KeyOf((e, g)))
           + (if PrefixHit(e, f, searchLower, minLength) then {KeyOf((e, f))} else {})
  {
    assert fs == fs[..|fs| - 1] + [fs[|fs| - 1]];
  }

  /**
   * A query shorter than the minimum finds nothing. Otherwise every pair is
   * a field of an index entry, at least the minimum long, that is a prefix of
   * the lowered query or has it as a prefix; no (number, field) key occurs
   * twice; and every such key of the index occurs.
   */
  lemma StartswithMatchesSpec(search: string, es: seq<Entry>, minLength: int)
    ensures |search| < minLength ==> StartswithMatchesOf(search, es, minLength) == []
    ensures PrefixKept(StartswithMatchesOf(search, es, minLength), es, Lower(search), minLength)
    ensures |search| >= minLength ==> KeysOf(StartswithMatchesOf(search, es, minLength)) == HitKeys(es, Lower(search), minLength)
  {
    PrefixScanSpec(es, Lower(search), minLength);
  }

  /** The field loop for one entry, with the `seen` set beside the list. */
  method PrefixEntry(e: Entry, searchLower: string, minLength: int, matches0: seq<(Entry, Field)>, seen0: set<(string, Field)>)
    returns (matches: seq<(Entry, Field)>, seen: set<(string, Field)>)
    requires seen0 == KeysOf(matches0)
    ensures matches == PrefixFields(matches0, e, SearchFields, searchLower, minLength) && seen == KeysOf(matches)
  {
    matches, seen := matches0, seen0;
    var k := 0;
    while k < |SearchFields|
      invariant 0 <= k <= |SearchFields|
      invariant matches == PrefixFields(matches0, e, SearchFields[..k], searchLower, minLength) && seen == KeysOf(matches)
    {
      var field := SearchFields[k];
      assert SearchFields[..k + 1][..k] == SearchFields[..k];
      var entryValue := FieldValue(e, field);
      if entryValue == [] || |entryValue| < minLength {
        k := k + 1;
        continue;
      }
      var entryLower := Lower(entryValue);
      if StartsWith(entryLower, searchLower) || StartsWith(searchLower, entryLower) {
        var key := (e.vassdragsnr, field);
        if key !in seen {
          seen := seen + {key};
          matches := matches + [(e, field)];
        }
      }
      k := k + 1;
    }
    assert SearchFields[..|SearchFields|] == SearchFields;
  }

  /** `find_startswith_matches` as written. */
  method FindStartswithMatches(search: string, es: seq<Entry>, minLength: int) returns (r: seq<(Entry, Field)>)
    ensures r == StartswithMatchesOf(search, es, minLength)
  {
    if |search| < minLength {
      return [];
    }
    var searchLower := Lower(search);
    var matches: seq<(Entry, Field)> := [];
    var seen: set<(string, Field)> := {};
    var i := 0;
    while i < |es|
      invariant 0 <= i <= |es|
      invariant matches == PrefixScan(es[..i], searchLower, minLength) && seen == KeysOf(matches)
    {
      assert es[..i + 1][..i] == es[..i];
      matches, seen := PrefixEntry(es[i], searchLower, minLength, matches, seen);
      i := i + 1;
    }
    assert es[..i] == es;
    r := matches;
  }
}
