/**
 * The prepared index of the new resolver: per-entry precomputed fields and
 * the three case-folded lookup tables (by `navn`, by `navn_normalisert`, by
 * first clean letter), built in one pass over the Regine index, and the
 * exact-match lookup that reads them.
 */
module IndexPreparation {
  import opened Text
  import opened Opt
  import opened Regine
  import opened CategoryNormalization
  import opened Phonetics

  datatype PreparedEntry = PreparedEntry(
    entry: Entry,
    navn: Option<string>,
    navnSignature: string,
    stemSignature: string,
    stemClean: string,
    normalizedName: string,
    category: Option<string>,
    stem: string,
    firstLetter: string)

  /** A lookup table: key to the ascending indices of the entries with that key. */
  type Lookup = map<string, seq<nat>>

  datatype PreparedIndex = PreparedIndex(
    entries: seq<Entry>,
    preparedEntries: seq<PreparedEntry>,
    navnLookup: Lookup,
    navnNormalizedLookup: Lookup,
    firstLetterLookup: Lookup,
    allIndices: seq<nat>)

  // ---------------------------------------------------------------------
  // Per-entry fields
  // ---------------------------------------------------------------------

  function NavnSignatureOf(navn: string): string {
    if navn != [] then Signature(navn) else []
  }

  /** The stem's signature, falling back on the name's when the stem is empty. */
  function StemSignatureOf(stem: string, navnSignature: string): string {
    if stem != [] then Signature(stem) else navnSignature
  }

  /** First clean letter of the name, else of the stem, else "". */
  function FirstLetterOf(navn: string, stemClean: string): (r: string)
    ensures |r| <= 1
    ensures CleanLetters(navn) != [] ==> r == [CleanLetters(navn)[0]]
    ensures CleanLetters(navn) == [] ==> r == (if stemClean != [] then [stemClean[0]] else [])
  {
    var first := CleanLetters(navn);
    if first != [] then first[..1]
    else if stemClean != [] then stemClean[..1]
    else []
  }

  function PrepareEntry(e: Entry, endingMap: EndingMap, suffixes: seq<string>): PreparedEntry {
    var n := NormalizeName(e.navn, endingMap, suffixes);
    var stemClean := CleanLetters(n.stem);
    var navnSig := NavnSignatureOf(e.navn);
    PreparedEntry(
      e,
      if e.navn != [] then Some(e.navn) else None,
      navnSig,
      StemSignatureOf(n.stem, navnSig),
      stemClean,
      n.name,
      n.category,
      n.stem,
      FirstLetterOf(e.navn, stemClean))
  }

  // ---------------------------------------------------------------------
  // Lookup tables
  // ---------------------------------------------------------------------

  /** Ascending indices i with keys[i] == k. */
  function Bucket(keys: seq<string>, k: string): seq<nat> {
    if |keys| == 0 then []
    else Bucket(keys[..|keys| - 1], k) + (if keys[|keys| - 1] == k then [|keys| - 1] else [])
  }

  /** The table over a key column: every non-empty key to its bucket. */
  function LookupOf(keys: seq<string>): Lookup {
    map k | k in keys && k != [] :: Bucket(keys, k)
  }

  /** `lookup[k].append(i)` on a default-dict of lists. */
  function AddIndex(m: Lookup, k: string, i: nat): Lookup {
    m[k := (if k in m then m[k] else []) + [i]]
  }

  lemma BucketAppend(keys: seq<string>, k: string, x: string)
    ensures Bucket(keys + [k], x) == Bucket(keys, x) + (if k == x then [|keys|] else [])
  {
    assert (keys + [k])[..|keys|] == keys;
  }

  /** A bucket holds exactly the positions carrying its key, in ascending order. */
  lemma {:induction false} BucketSpec(keys: seq<string>, k: string)
    ensures forall i: int :: i in Bucket(keys, k) <==> 0 <= i < |keys| && keys[i] == k
    ensures forall a, b :: 0 <= a < b < |Bucket(keys, k)| ==> Bucket(keys, k)[a] < Bucket(keys, k)[b]
  {
    if |keys| > 0 {
      var n := |keys| - 1;
      var p := keys[..n];
      BucketSpec(p, k);
      var tail: seq<nat> := if keys[n] == k then [n] else [];
      assert Bucket(keys, k) == Bucket(p, k) + tail;
      forall a | 0 <= a < |Bucket(p, k)| ensures Bucket(p, k)[a] < n {
        assert Bucket(p, k)[a] in Bucket(p, k);
      }
      forall i: int ensures i in Bucket(keys, k) <==> 0 <= i < |keys| && keys[i] == k {
        if 0 <= i < n { assert keys[i] == p[i]; }
      }
    }
  }

  lemma {:induction false} BucketAbsent(keys: seq<string>, k: string)
    requires k !in keys
    ensures Bucket(keys, k) == []
  {
    if |keys| > 0 {
      BucketAbsent(keys[..|keys| - 1], k);
    }
  }

  lemma LookupAppend(keys: seq<string>, k: string)
    ensures LookupOf(keys + [k]) == (if k != [] then AddIndex(LookupOf(keys), k, |keys|) else LookupOf(keys))
  {
    var ks := keys + [k];
    var l := LookupOf(ks);
    var r := if k != [] then AddIndex(LookupOf(keys), k, |keys|) else LookupOf(keys);
    forall x ensures x in ks <==> x in keys || x == k {
      if x in ks {
        var i :| 0 <= i < |ks| && ks[i] == x;
        if i < |keys| { assert keys[i] == x; }
      }
    }
    forall x | x in l ensures x in r && l[x] == r[x] {
      BucketAppend(keys, k, x);
      if x == k && k !in keys {
        BucketAbsent(keys, k);
      }
    }
    assert forall x :: x in r ==> x in l;
  }

  function NavnKeys(es: seq<Entry>): (r: seq<string>)
    ensures |r| == |es| && forall i :: 0 <= i < |es| ==> r[i] == Lower(es[i].navn)
  {
    seq(|es|, i requires 0 <= i < |es| => Lower(es[i].navn))
  }

  function NormalizedKeys(es: seq<Entry>): (r: seq<string>)
    ensures |r| == |es| && forall i :: 0 <= i < |es| ==> r[i] == Lower(es[i].navnNormalisert)
  {
    seq(|es|, i requires 0 <= i < |es| => Lower(es[i].navnNormalisert))
  }

  function FirstLetterKeys(ps: seq<PreparedEntry>): (r: seq<string>)
    ensures |r| == |ps| && forall i :: 0 <= i < |ps| ==> r[i] == ps[i].firstLetter
  {
    seq(|ps|, i requires 0 <= i < |ps| => ps[i].firstLetter)
  }

  function PrepareAll(es: seq<Entry>, endingMap: EndingMap, suffixes: seq<string>): (r: seq<PreparedEntry>)
    ensures |r| == |es|
  {
    MapSeq(es, (e: Entry) => PrepareEntry(e, endingMap, suffixes))
  }

  lemma PrepareAllSpec(es: seq<Entry>, endingMap: EndingMap, suffixes: seq<string>)
    ensures forall i :: 0 <= i < |es| ==> PrepareAll(es, endingMap, suffixes)[i].entry == es[i]
  {
    forall i | 0 <= i < |es| ensures PrepareAll(es, endingMap, suffixes)[i].entry == es[i] {
      var pe := PrepareEntry(es[i], endingMap, suffixes);
      assert PrepareAll(es, endingMap, suffixes)[i] == pe;
    }
  }

  function Range(n: nat): (r: seq<nat>)
    ensures |r| == n && forall i :: 0 <= i < n ==> r[i] == i
  {
    seq(n, i requires 0 <= i < n => i)
  }

  /** What `_build_prepared_index` computes. */
  function PreparedIndexOf(es: seq<Entry>, endingMap: EndingMap, suffixes: seq<string>): PreparedIndex {
    var ps := PrepareAll(es, endingMap, suffixes);
    PreparedIndex(es, ps, LookupOf(NavnKeys(es)), LookupOf(NormalizedKeys(es)),
                  LookupOf(FirstLetterKeys(ps)), Range(|es|))
  }

  // ---------------------------------------------------------------------
  // _build_prepared_index
  // ---------------------------------------------------------------------

  /** One pass over the index, filling the three tables and the prepared entries. */
  method BuildPreparedIndex(es: seq<Entry>, endingMap: EndingMap, suffixes: seq<string>)
    returns (pi: PreparedIndex)
    ensures pi == PreparedIndexOf(es, endingMap, suffixes)
  {
    var navnLookup: Lookup := map[];
    var normalizedLookup: Lookup := map[];
    var firstLetterLookup: Lookup := map[];
    var prepared: seq<PreparedEntry> := [];
    var idx := 0;
    while idx < |es|
      invariant 0 <= idx <= |es|
      invariant prepared == PrepareAll(es[..idx], endingMap, suffixes)
      invariant navnLookup == LookupOf(NavnKeys(es[..idx]))
      invariant normalizedLookup == LookupOf(NormalizedKeys(es[..idx]))
      invariant firstLetterLookup == LookupOf(FirstLetterKeys(prepared))
    {
      var entry := es[idx];
      var pe := PrepareOne(entry, endingMap, suffixes);
      BuildStep(es, idx, prepared, endingMap, suffixes);
      FirstLetterSnoc(prepared, pe);
      var navnLower := Lower(entry.navn);
      if navnLower != [] {
        navnLookup := AddIndex(navnLookup, navnLower, idx);
      }
      var normalizedLower := Lower(entry.navnNormalisert);
      if normalizedLower != [] {
        normalizedLookup := AddIndex(normalizedLookup, normalizedLower, idx);
      }
      if pe.firstLetter != [] {
        firstLetterLookup := AddIndex(firstLetterLookup, pe.firstLetter, idx);
      }
      prepared := prepared + [pe];
      idx := idx + 1;
    }
    assert es[..|es|] == es;
    pi := PreparedIndex(es, prepared, navnLookup, normalizedLookup, firstLetterLookup, Range(|prepared|));
  }

  /** How one more entry extends the prepared list and the tables over the entries' own fields. */
  lemma BuildStep(es: seq<Entry>, idx: nat, prepared: seq<PreparedEntry>, endingMap: EndingMap, suffixes: seq<string>)
    requires idx < |es|
    requires prepared == PrepareAll(es[..idx], endingMap, suffixes)
    ensures PrepareAll(es[..idx + 1], endingMap, suffixes) == prepared + [PrepareEntry(es[idx], endingMap, suffixes)]
    ensures LookupOf(NavnKeys(es[..idx + 1]))
         == (if Lower(es[idx].navn) != [] then AddIndex(LookupOf(NavnKeys(es[..idx])), Lower(es[idx].navn), idx)
             else LookupOf(NavnKeys(es[..idx])))
    ensures LookupOf(NormalizedKeys(es[..idx + 1]))
         == (if Lower(es[idx].navnNormalisert) != []
             then AddIndex(LookupOf(NormalizedKeys(es[..idx])), Lower(es[idx].navnNormalisert), idx)
             else LookupOf(NormalizedKeys(es[..idx])))
  {
    PrepareAllSnoc(es, idx, endingMap, suffixes);
    NavnKeysSnoc(es, idx);
    NormalizedKeysSnoc(es, idx);
  }

  /** How one more prepared entry extends the first-letter table. */
  lemma FirstLetterSnoc(prepared: seq<PreparedEntry>, pe: PreparedEntry)
    ensures LookupOf(FirstLetterKeys(prepared + [pe]))
         == (if pe.firstLetter != [] then AddIndex(LookupOf(FirstLetterKeys(prepared)), pe.firstLetter, |prepared|)
             else LookupOf(FirstLetterKeys(prepared)))
  {
    LookupAppend(FirstLetterKeys(prepared), pe.firstLetter);
    assert FirstLetterKeys(prepared + [pe]) == FirstLetterKeys(prepared) + [pe.firstLetter];
  }

  lemma PrepareAllSnoc(es: seq<Entry>, idx: nat, endingMap: EndingMap, suffixes: seq<string>)
    requires idx < |es|
    ensures PrepareAll(es[..idx + 1], endingMap, suffixes)
         == PrepareAll(es[..idx], endingMap, suffixes) + [PrepareEntry(es[idx], endingMap, suffixes)]
  {
    assert es[..idx + 1] == es[..idx] + [es[idx]];
    MapSeqAppend(es[..idx], es[idx], (e: Entry) => PrepareEntry(e, endingMap, suffixes));
  }

  lemma NavnKeysSnoc(es: seq<Entry>, idx: nat)
    requires idx < |es|
    ensures LookupOf(NavnKeys(es[..idx + 1]))
         == (if Lower(es[idx].navn) != [] then AddIndex(LookupOf(NavnKeys(es[..idx])), Lower(es[idx].navn), idx)
             else LookupOf(NavnKeys(es[..idx])))
  {
    LookupAppend(NavnKeys(es[..idx]), Lower(es[idx].navn));
    assert NavnKeys(es[..idx + 1]) == NavnKeys(es[..idx]) + [Lower(es[idx].navn)];
  }

  lemma NormalizedKeysSnoc(es: seq<Entry>, idx: nat)
    requires idx < |es|
    ensures LookupOf(NormalizedKeys(es[..idx + 1]))
         == (if Lower(es[idx].navnNormalisert) != []
             then AddIndex(LookupOf(NormalizedKeys(es[..idx])), Lower(es[idx].navnNormalisert), idx)
             else LookupOf(NormalizedKeys(es[..idx])))
  {
    LookupAppend(NormalizedKeys(es[..idx]), Lower(es[idx].navnNormalisert));
    assert NormalizedKeys(es[..idx + 1]) == NormalizedKeys(es[..idx]) + [Lower(es[idx].navnNormalisert)];
  }

  /** The loop body's per-entry computation, with the signatures computed by their loops. */
  method PrepareOne(e: Entry, endingMap: EndingMap, suffixes: seq<string>) returns (pe: PreparedEntry)
    ensures pe == PrepareEntry(e, endingMap, suffixes)
  {
    var n := NormalizeName(e.navn, endingMap, suffixes);
    var stemClean := CleanLetters(n.stem);
    var navnSig: string := [];
    if e.navn != [] {
      navnSig := PhoneticSignature(e.navn);
    }
    var stemSig := navnSig;
    if n.stem != [] {
      stemSig := PhoneticSignature(n.stem);
    }
    pe := PreparedEntry(e, if e.navn != [] then Some(e.navn) else None, navnSig, stemSig, stemClean,
                        n.name, n.category, n.stem, FirstLetterOf(e.navn, stemClean));
  }

  // ---------------------------------------------------------------------
  // Well-formedness and _lookup_exact
  // ---------------------------------------------------------------------

  /** Every index a table or `allIndices` hands out addresses a prepared entry. */
  ghost predicate WellFormed(pi: PreparedIndex) {
    |pi.preparedEntries| == |pi.entries|
    && (forall k, j :: k in pi.navnLookup && 0 <= j < |pi.navnLookup[k]| ==> pi.navnLookup[k][j] < |pi.preparedEntries|)
    && (forall k, j :: k in pi.navnNormalizedLookup && 0 <= j < |pi.navnNormalizedLookup[k]| ==> pi.navnNormalizedLookup[k][j] < |pi.preparedEntries|)
    && (forall k, j :: k in pi.firstLetterLookup && 0 <= j < |pi.firstLetterLookup[k]| ==> pi.firstLetterLookup[k][j] < |pi.preparedEntries|)
    && (forall j :: 0 <= j < |pi.allIndices| ==> pi.allIndices[j] < |pi.preparedEntries|)
  }

  lemma LookupOfBounded(keys: seq<string>)
    ensures forall k, j :: k in LookupOf(keys) && 0 <= j < |LookupOf(keys)[k]| ==> LookupOf(keys)[k][j] < |keys|
  {
    forall k, j | k in LookupOf(keys) && 0 <= j < |LookupOf(keys)[k]| ensures LookupOf(keys)[k][j] < |keys| {
      BucketSpec(keys, k);
      assert LookupOf(keys)[k][j] in Bucket(keys, k);
    }
  }

  /** The index the build produces is well formed and its tables are exactly the buckets. */
  lemma PreparedIndexWellFormed(es: seq<Entry>, endingMap: EndingMap, suffixes: seq<string>)
    ensures WellFormed(PreparedIndexOf(es, endingMap, suffixes))
  {
    LookupOfBounded(NavnKeys(es));
    LookupOfBounded(NormalizedKeys(es));
    LookupOfBounded(FirstLetterKeys(PrepareAll(es, endingMap, suffixes)));
  }

  /** The entries behind a list of indices. */
  function EntriesAt(ps: seq<PreparedEntry>, idxs: seq<nat>): (r: seq<Entry>)
    requires forall j :: 0 <= j < |idxs| ==> idxs[j] < |ps|
    ensures |r| == |idxs| && forall j :: 0 <= j < |idxs| ==> r[j] == ps[idxs[j]].entry
  {
    seq(|idxs|, j requires 0 <= j < |idxs| => ps[idxs[j]].entry)
  }

  /** `_lookup_exact`: the entries whose case-folded field equals the case-folded value. */
  function LookupExact(pi: PreparedIndex, field: string, value: string): seq<Entry>
    requires WellFormed(pi)
  {
    var key := Lower(value);
    var mapping := if field == "navn" then pi.navnLookup
                   else if field == "navn_normalisert" then pi.navnNormalizedLookup
                   else map[];
    if key in mapping then EntriesAt(pi.preparedEntries, mapping[key]) else []
  }

  /** The entries, in index order, whose key column value is `key`. */
  function EntriesWithKey(es: seq<Entry>, keys: seq<string>, key: string): seq<Entry>
    requires |keys| == |es|
  {
    if |es| == 0 then []
    else EntriesWithKey(es[..|es| - 1], keys[..|keys| - 1], key)
         + (if keys[|keys| - 1] == key then [es[|es| - 1]] else [])
  }

  lemma EntriesAtAppend(ps: seq<PreparedEntry>, idxs: seq<nat>, tail: seq<nat>)
    requires forall j :: 0 <= j < |idxs| ==> idxs[j] < |ps|
    requires forall j :: 0 <= j < |tail| ==> tail[j] < |ps|
    ensures forall j :: 0 <= j < |idxs + tail| ==> (idxs + tail)[j] < |ps|
    ensures EntriesAt(ps, idxs + tail) == EntriesAt(ps, idxs) + EntriesAt(ps, tail)
  {
  }

  /** Every position in a bucket is a position of the key column. */
  lemma BucketBelow(keys: seq<string>, key: string)
    ensures forall j :: 0 <= j < |Bucket(keys, key)| ==> Bucket(keys, key)[j] < |keys|
  {
    BucketSpec(keys, key);
    forall j | 0 <= j < |Bucket(keys, key)| ensures Bucket(keys, key)[j] < |keys| {
      assert Bucket(keys, key)[j] in Bucket(keys, key);
    }
  }

  lemma EntriesAtLast(ps: seq<PreparedEntry>, n: nat, hit: bool)
    requires n < |ps|
    ensures EntriesAt(ps, if hit then [n] else []) == (if hit then [ps[n].entry] else [])
  {
  }

  lemma {:induction false} BucketEntries(es: seq<Entry>, keys: seq<string>, key: string, ps: seq<PreparedEntry>)
    requires |keys| == |es| && |ps| >= |es|
    requires forall i :: 0 <= i < |es| ==> ps[i].entry == es[i]
    ensures forall j :: 0 <= j < |Bucket(keys, key)| ==> Bucket(keys, key)[j] < |es|
    ensures EntriesAt(ps, Bucket(keys, key)) == EntriesWithKey(es, keys, key)
  {
    BucketBelow(keys, key);
    if |es| > 0 {
      var n := |es| - 1;
      BucketEntries(es[..n], keys[..n], key, ps);
      var b := Bucket(keys[..n], key);
      var tail: seq<nat> := if keys[n] == key then [n] else [];
      EntriesAtAppend(ps, b, tail);
      EntriesAtLast(ps, n, keys[n] == key);
    }
  }

  /**
   * Exact lookup by name returns, in index order, exactly the entries whose
   * name equals the value case-insensitively; the empty value finds nothing.
   */
  lemma LookupExactNavn(es: seq<Entry>, endingMap: EndingMap, suffixes: seq<string>, value: string)
    ensures WellFormed(PreparedIndexOf(es, endingMap, suffixes))
    ensures LookupExact(PreparedIndexOf(es, endingMap, suffixes), "navn", value)
         == (if value == [] then [] else EntriesWithKey(es, NavnKeys(es), Lower(value)))
  {
    PreparedIndexWellFormed(es, endingMap, suffixes);
    var pi := PreparedIndexOf(es, endingMap, suffixes);
    var key := Lower(value);
    PrepareAllSpec(es, endingMap, suffixes);
    BucketEntries(es, NavnKeys(es), key, pi.preparedEntries);
    if value != [] && key !in NavnKeys(es) {
      EntriesWithKeyAbsent(es, NavnKeys(es), key);
    }
  }

  lemma LookupExactNormalized(es: seq<Entry>, endingMap: EndingMap, suffixes: seq<string>, value: string)
    ensures WellFormed(PreparedIndexOf(es, endingMap, suffixes))
    ensures LookupExact(PreparedIndexOf(es, endingMap, suffixes), "navn_normalisert", value)
         == (if value == [] then [] else EntriesWithKey(es, NormalizedKeys(es), Lower(value)))
  {
    PreparedIndexWellFormed(es, endingMap, suffixes);
    var pi := PreparedIndexOf(es, endingMap, suffixes);
    var key := Lower(value);
    PrepareAllSpec(es, endingMap, suffixes);
    BucketEntries(es, NormalizedKeys(es), key, pi.preparedEntries);
    if value != [] && key !in NormalizedKeys(es) {
      EntriesWithKeyAbsent(es, NormalizedKeys(es), key);
    }
  }

  lemma {:induction false} EntriesWithKeyAbsent(es: seq<Entry>, keys: seq<string>, key: string)
    requires |keys| == |es| && key !in keys
    ensures EntriesWithKey(es, keys, key) == []
  {
    if |es| > 0 {
      EntriesWithKeyAbsent(es[..|es| - 1], keys[..|keys| - 1], key);
    }
  }

  /** Membership reading of `EntriesWithKey`. */
  lemma {:induction false} EntriesWithKeySpec(es: seq<Entry>, keys: seq<string>, key: string)
    requires |keys| == |es|
    ensures forall e :: e in EntriesWithKey(es, keys, key) <==> exists i :: 0 <= i < |es| && es[i] == e && keys[i] == key
  {
    if |es| > 0 {
      var n := |es| - 1;
      EntriesWithKeySpec(es[..n], keys[..n], key);
      forall e ensures e in EntriesWithKey(es, keys, key) <==> exists i :: 0 <= i < |es| && es[i] == e && keys[i] == key {
        if exists i :: 0 <= i < |es| && es[i] == e && keys[i] == key {
          var i :| 0 <= i < |es| && es[i] == e && keys[i] == key;
          if i < n { assert es[..n][i] == e && keys[..n][i] == key; }
        }
      }
    }
  }
}
