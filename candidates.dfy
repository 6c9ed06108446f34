/**
 * The candidate spellings tried for one watercourse name, in the order the
 * resolver tries them: the name itself, its spellings without "æ" and with
 * "å" for "aa", the forms with and without a final "s", without direction
 * words ("Øvre", "Nedre", ...), with the ending replaced by "dal"/"dalselva",
 * with "-reguleringen" replaced by "-vassdraget", with "vassdraget" appended
 * and, for names of several words, the last word.
 */
module CandidateGeneration {
  import opened Text
  import opened Suffixes

  /** A list of candidates as `_add` keeps it: every entry non-empty and not among the earlier ones. */
  predicate Good(cs: seq<string>) {
    |cs| == 0 || (Good(cs[..|cs| - 1]) && cs[|cs| - 1] != [] && cs[|cs| - 1] !in cs[..|cs| - 1])
  }

  /** That is: no repetitions and no empty entry. */
  lemma {:induction false} GoodSpec(cs: seq<string>)
    ensures Good(cs) <==> Distinct(cs) && forall i :: 0 <= i < |cs| ==> cs[i] != []
  {
    if |cs| > 0 {
      var n := |cs| - 1;
      GoodSpec(cs[..n]);
      assert forall i :: 0 <= i < n ==> cs[..n][i] == cs[i];
      if Distinct(cs) {
        forall i | 0 <= i < n ensures cs[..n][i] != cs[n] {
          assert cs[i] != cs[n];
        }
      }
    }
  }

  // ---------------------------------------------------------------------
  // Alternative spellings of one candidate
  // ---------------------------------------------------------------------

  /** `candidate.replace("æ", "e").replace("Æ", "E")`. */
  function AeVariant(t: string): (r: string)
    ensures |r| == |t|
    ensures 'æ' !in r
  {
    ReplaceCharLength(t, 'æ', 'e');
    ReplaceCharLength(Replace(t, "æ", "e"), 'Æ', 'E');
    ReplaceRemovesChar(t, 'æ', "e");
    ReplaceChars(Replace(t, "æ", "e"), "Æ", "E");
    Replace(Replace(t, "æ", "e"), "Æ", "E")
  }

  /** An "aa" in any case starts at k. */
  predicate AaAt(s: string, k: int) {
    0 <= k && k + 1 < |s| && LowerChar(s[k]) == 'a' && LowerChar(s[k + 1]) == 'a'
  }

  /**
   * `re.sub("aa", _replace_aa, s, flags=re.IGNORECASE)`: every "aa" in any
   * case, left to right and without overlap, becomes "Å" when its first
   * letter is upper case and "å" otherwise.
   */
  function AaVariant(s: string): (r: string)
    ensures |r| <= |s|
    ensures |s| > 0 ==> |r| > 0
  {
    if |s| < 2 then s
    else if AaAt(s, 0) then [if IsUpper(s[0]) then 'Å' else 'å'] + AaVariant(s[2..])
    else [s[0]] + AaVariant(s[1..])
  }

  /** The aa→å spelling is shorter exactly when the text holds an "aa", and the text itself otherwise. */
  lemma {:induction false} AaVariantSpec(s: string)
    ensures (exists k :: AaAt(s, k)) ==> |AaVariant(s)| < |s|
    ensures (forall k :: !AaAt(s, k)) ==> AaVariant(s) == s
    decreases |s|
  {
    if |s| >= 2 {
      if !AaAt(s, 0) {
        AaVariantSpec(s[1..]);
        forall k | AaAt(s, k) && k > 0 ensures AaAt(s[1..], k - 1) {
        }
        if forall k :: !AaAt(s, k) {
          forall k | AaAt(s[1..], k) ensures false {
            assert AaAt(s, k + 1);
          }
          assert s == [s[0]] + s[1..];
        }
      }
    } else {
      assert forall k :: !AaAt(s, k);
    }
  }

  /** `"aa" in candidate.lower()` is the presence of an "aa" in any case. */
  lemma ContainsAa(s: string)
    ensures Contains(Lower(s), "aa") <==> exists k :: AaAt(s, k)
  {
    if Contains(Lower(s), "aa") {
      ContainsIndex(Lower(s), "aa");
      var k :| OccursAt(Lower(s), "aa", k);
      assert Lower(s)[k..k + 2][0] == 'a' && Lower(s)[k..k + 2][1] == 'a';
      assert AaAt(s, k);
    }
    if exists k :: AaAt(s, k) {
      var k :| AaAt(s, k);
      assert Lower(s)[k..k + 2] == "aa";
      ContainsAt(Lower(s), "aa", k);
    }
  }

  // ---------------------------------------------------------------------
  // _add
  // ---------------------------------------------------------------------

  /** Appends a spelling unless the list already holds it. */
  function AddSpelling(cs: seq<string>, v: string): (r: seq<string>)
    ensures cs <= r
    ensures v in r
    ensures Good(cs) && v != [] ==> Good(r)
  {
    if v in cs then cs else cs + [v]
  }

  /** `_add`: the stripped candidate, if it is new, followed by its new æ→e and aa→å spellings. */
  function AddOne(cs: seq<string>, c: string): (r: seq<string>)
    ensures cs <= r
    ensures Strip(c) != [] ==> Strip(c) in r
    ensures Good(cs) ==> Good(r)
  {
    var t := Strip(c);
    if t == [] || t in cs then cs
    else
      var cs1 := AddSpelling(cs, t);
      var cs2 := if 'æ' in t then AddSpelling(cs1, AeVariant(t)) else cs1;
      if Contains(Lower(t), "aa") then AddSpelling(cs2, AaVariant(t)) else cs2
  }

  /** Adding the same candidate twice changes nothing the second time. */
  lemma AddOneIdempotent(cs: seq<string>, c: string)
    ensures AddOne(AddOne(cs, c), c) == AddOne(cs, c)
  {
  }

  /** A new candidate brings its æ→e spelling and, when it holds an "aa", its aa→å spelling along, both different from it. */
  lemma AddOneSpellings(cs: seq<string>, c: string)
    requires Strip(c) != [] && Strip(c) !in cs
    ensures 'æ' in Strip(c) ==> AeVariant(Strip(c)) != Strip(c) && AeVariant(Strip(c)) in AddOne(cs, c)
    ensures Contains(Lower(Strip(c)), "aa") ==>
      AaVariant(Strip(c)) != Strip(c) && AaVariant(Strip(c)) in AddOne(cs, c)
  {
    var t := Strip(c);
    ContainsAa(t);
    AaVariantSpec(t);
  }

  /** `for x in xs: _add(x)`. */
  function AddAll(cs: seq<string>, xs: seq<string>): (r: seq<string>)
    ensures cs <= r
    ensures Good(cs) ==> Good(r)
  {
    if |xs| == 0 then cs else AddOne(AddAll(cs, xs[..|xs| - 1]), xs[|xs| - 1])
  }

  /** `[_join_stem_suffix(v, suffix) for v in vs]`. */
  function Joined(vs: seq<string>, suffix: string): (r: seq<string>)
    ensures |r| == |vs| && forall i :: 0 <= i < |vs| ==> r[i] == JoinStemSuffix(vs[i], suffix)
  {
    MapSeq(vs, (v: string) => JoinStemSuffix(v, suffix))
  }

  lemma AddAllSnoc(cs: seq<string>, xs: seq<string>, i: nat)
    requires i < |xs|
    ensures AddAll(cs, xs[..i + 1]) == AddOne(AddAll(cs, xs[..i]), xs[i])
  {
    assert xs[..i + 1][..i] == xs[..i];
  }

  /** Every candidate that is not blank ends up in the list. */
  lemma {:induction false} AddAllMember(cs: seq<string>, xs: seq<string>, i: nat)
    requires i < |xs| && Strip(xs[i]) != []
    ensures Strip(xs[i]) in AddAll(cs, xs)
  {
    var n := |xs| - 1;
    var prev := AddAll(cs, xs[..n]);
    if i < n {
      assert xs[..n][i] == xs[i];
      AddAllMember(cs, xs[..n], i);
      PrefixMember(Strip(xs[i]), prev, AddAll(cs, xs));
    }
  }

  /** The first candidate added to an empty list is the stripped name itself. */
  lemma FirstCandidate(t: string)
    requires t != [] && IsStripped(t)
    ensures |AddOne([], t)| >= 1 && AddOne([], t)[0] == t
  {
    StripOfStripped(t);
  }

  // ---------------------------------------------------------------------
  // _iter_s_variants
  // ---------------------------------------------------------------------

  /** The variants before repetitions are dropped: the base, then it with its final "s" removed or added. */
  function RawSVariants(base: string): seq<string> {
    var b := Strip(base);
    if b == [] then []
    else if LowerChar(b[|b| - 1]) == 's' then
      var alt := RStrip(b[..|b| - 1]);
      if alt != [] then [b, alt] else [b]
    else [b, b + "s"]
  }

  /** The `unique` loop: non-empty items, first occurrences only. */
  function KeepUnique(xs: seq<string>): seq<string> {
    if |xs| == 0 then []
    else
      var acc := KeepUnique(xs[..|xs| - 1]);
      var x := xs[|xs| - 1];
      if x != [] && x !in acc then acc + [x] else acc
  }

  function SVariants(base: string): seq<string> {
    KeepUnique(RawSVariants(base))
  }

  /** `_iter_s_variants`, with its `unique` loop. */
  method IterSVariants(base: string) returns (unique: seq<string>)
    ensures unique == SVariants(base)
  {
    var variants := RawSVariants(base);
    unique := [];
    var i := 0;
    while i < |variants|
      invariant 0 <= i <= |variants|
      invariant unique == KeepUnique(variants[..i])
    {
      assert variants[..i + 1][..i] == variants[..i];
      var item := variants[i];
      if item != [] && item !in unique {
        unique := unique + [item];
      }
      i := i + 1;
    }
    assert variants[..|variants|] == variants;
  }

  /**
   * What `_iter_s_variants` promises: nothing for a blank base, otherwise the
   * stripped base first and at most one more, distinct and non-empty, form.
   */
  lemma SVariantsSpec(base: string)
    ensures Strip(base) == [] <==> SVariants(base) == []
    ensures Strip(base) != [] ==>
      SVariants(base) == RawSVariants(base) && 1 <= |SVariants(base)| <= 2
      && SVariants(base)[0] == Strip(base)
    ensures Good(SVariants(base))
  {
    var b := Strip(base);
    var raw := RawSVariants(base);
    if b != [] {
      assert KeepUnique(raw[..1]) == [b] by {
        assert raw[..1][..0] == [];
      }
      if |raw| == 2 {
        assert raw[1] != b by {
          if LowerChar(b[|b| - 1]) == 's' {
            assert |raw[1]| < |b|;
          } else {
            assert |raw[1]| == |b| + 1;
          }
        }
        assert raw[..2] == raw;
      } else {
        assert raw[..1] == raw;
      }
    }
  }

  /** A base not ending in "s" gets the form with a final "s" as its variant: "Suldal", "Suldals". */
  lemma SVariantsAddS(x: string)
    requires x != [] && IsStripped(x) && LowerChar(x[|x| - 1]) != 's'
    ensures SVariants(x) == [x, x + "s"]
  {
    StripOfStripped(x);
    SVariantsSpec(x);
  }

  /** A final "s" is removed again: the variant of "Suldals" is "Suldal". */
  lemma SVariantsDropS(x: string)
    requires x != [] && IsStripped(x)
    ensures SVariants(x + "s") == [x + "s", x]
  {
    var xs := x + "s";
    assert IsStripped(xs);
    StripOfStripped(xs);
    assert xs[..|xs| - 1] == x;
    assert RStrip(x) == x;
    assert RawSVariants(xs) == [xs, x];
    SVariantsSpec(xs);
  }

  // ---------------------------------------------------------------------
  // Direction words
  // ---------------------------------------------------------------------

  const DirectionWords: set<string> := {"østre", "vestre", "nordre", "søndre", "sødre", "øvre", "nedre"}

  /** `[w for w in words if w.casefold() not in direction_words]`. */
  function NonDirection(ws: seq<string>): (r: seq<string>)
    ensures forall k :: 0 <= k < |r| ==> r[k] in ws && Lower(r[k]) !in DirectionWords
  {
    if |ws| == 0 then []
    else
      var rest := NonDirection(ws[..|ws| - 1]);
      var w := ws[|ws| - 1];
      if Lower(w) !in DirectionWords then rest + [w] else rest
  }

  /** `_strip_direction_words`: a text of several words loses its direction words. */
  function StripDirectionWords(text: string): string {
    var ws := Words(text);
    if |ws| <= 1 then text else Join(NonDirection(ws), " ")
  }

  /**
   * A single word is kept as it is; of several words, exactly the words that
   * are not direction words remain, in order.
   */
  lemma StripDirectionWordsSpec(text: string)
    ensures |Words(text)| <= 1 ==> StripDirectionWords(text) == text
    ensures |Words(text)| > 1 ==>
      Words(StripDirectionWords(text)) == NonDirection(Words(text))
      && forall w :: w in Words(StripDirectionWords(text)) ==> Lower(w) !in DirectionWords
  {
    var ws := Words(text);
    if |ws| > 1 {
      var kept := NonDirection(ws);
      assert forall k :: 0 <= k < |kept| ==> kept[k] != [] && NoSpace(kept[k]);
      WordsOfJoin(kept);
    }
  }

  // ---------------------------------------------------------------------
  // _add_s_variants and _add_directionless
  // ---------------------------------------------------------------------

  function AddSVariants(cs: seq<string>, base: string, includeOriginal: bool): (r: seq<string>)
    ensures cs <= r
    ensures Good(cs) ==> Good(r)
  {
    var vs := SVariants(base);
    if |vs| == 0 then cs else AddAll(cs, if includeOriginal then vs else vs[1..])
  }

  function AddDirectionless(cs: seq<string>, base: string): (r: seq<string>)
    ensures cs <= r
    ensures Good(cs) ==> Good(r)
  {
    var stripped := StripDirectionWords(base);
    if stripped != [] && stripped != base then AddSVariants(AddOne(cs, stripped), stripped, false) else cs
  }

  /** A candidate followed by its s-variants and its directionless form. */
  function AddWithVariants(cs: seq<string>, x: string): (r: seq<string>)
    ensures cs <= r
    ensures Good(cs) ==> Good(r)
  {
    AddDirectionless(AddSVariants(AddOne(cs, x), x, false), x)
  }

  // ---------------------------------------------------------------------
  // The blocks of _generate_original_candidates
  // ---------------------------------------------------------------------

  /** The stem with its s-variants, or the name's own s-variants when it has no ending. */
  function StemBlock(cs: seq<string>, trimmed: string, stem: string, suffix: string): (r: seq<string>)
    ensures cs <= r
    ensures Good(cs) ==> Good(r)
  {
    if stem != [] && stem != trimmed then AddDirectionless(AddSVariants(cs, stem, true), stem)
    else if suffix == [] then AddSVariants(cs, trimmed, false)
    else cs
  }

  /** An ending that the ending map calls "DAL" gives the "-dal" and "-dalselva" forms. */
  function DalBlock(cs: seq<string>, trimmed: string, stem: string, suffix: string,
                    endingMap: map<string, string>): (r: seq<string>)
    ensures cs <= r
    ensures Good(cs) ==> Good(r)
  {
    if suffix != [] && Lower(suffix) in endingMap && endingMap[Lower(suffix)] == "DAL" then
      var dal := JoinStemSuffix(if stem != [] then stem else trimmed, "dal");
      var elv := JoinStemSuffix(dal, "selva");
      AddWithVariants(AddWithVariants(cs, dal), elv)
    else cs
  }

  const Regulering: string := "reguleringen"
  const Vassdraget: string := "vassdraget"

  /** `re.sub(r"reguleringen$", "vassdraget", trimmed, flags=re.IGNORECASE)` for a name ending so. */
  function ReguleringToVassdraget(trimmed: string): string
    requires |trimmed| >= |Regulering|
  {
    trimmed[..|trimmed| - |Regulering|] + Vassdraget
  }

  function ReguleringBlock(cs: seq<string>, trimmed: string): (r: seq<string>)
    ensures cs <= r
    ensures Good(cs) ==> Good(r)
  {
    if EndsWith(Lower(trimmed), Regulering) then
      var repl := ReguleringToVassdraget(trimmed);
      AddSVariants(AddOne(cs, repl), repl, false)
    else cs
  }

  /** The base and its s-variants with "vassdraget" appended, also without direction words. */
  function VassdragetBlock(cs: seq<string>, trimmed: string, stem: string): (r: seq<string>)
    ensures cs <= r
    ensures Good(cs) ==> Good(r)
  {
    var baseClean := RStrip(if stem != [] then stem else trimmed);
    if baseClean != [] && !EndsWith(Lower(baseClean), Regulering) then
      var cs1 := AddAll(cs, Joined(SVariants(baseClean), Vassdraget));
      var strippedBase := StripDirectionWords(baseClean);
      if strippedBase != [] && strippedBase != baseClean then AddAll(cs1, Joined(SVariants(strippedBase), Vassdraget))
      else cs1
    else cs
  }

  /** The last word of a name of several words, with its s-variants and "vassdraget" forms. */
  function LastWordBlock(cs: seq<string>, trimmed: string): (r: seq<string>)
    ensures cs <= r
    ensures Good(cs) ==> Good(r)
  {
    var ws := Words(trimmed);
    if ' ' in trimmed && |ws| > 0 then
      var lastWord := ws[|ws| - 1];
      var cs1 := AddOne(cs, lastWord);
      var lastLower := Lower(lastWord);
      if lastLower != Regulering && !EndsWith(lastLower, Vassdraget) then
        AddAll(AddSVariants(cs1, lastWord, false), Joined(SVariants(lastWord), Vassdraget))
      else cs1
    else cs
  }

  /** The blocks before the "vassdraget" block: the name first, then its variants. */
  function EarlyBlocks(trimmed: string, stem: string, suffix: string, endingMap: map<string, string>): (r: seq<string>)
    requires trimmed != [] && IsStripped(trimmed)
    ensures |r| >= 1 && r[0] == trimmed
    ensures Good(r)
  {
    FirstCandidate(trimmed);
    var c0 := AddDirectionless(AddOne([], trimmed), trimmed);
    var c1 := StemBlock(c0, trimmed, stem, suffix);
    var c2 := DalBlock(c1, trimmed, stem, suffix, endingMap);
    ReguleringBlock(c2, trimmed)
  }

  /** What `_generate_original_candidates` returns. */
  function OriginalCandidates(name: string, suffixes: seq<string>, endingMap: map<string, string>): (r: seq<string>)
    ensures Strip(name) == [] <==> r == []
    ensures r != [] ==> r[0] == Strip(name)
    ensures Good(r)
  {
    var trimmed := Strip(name);
    if trimmed == [] then []
    else
      var (stem, suffix) := SplitSuffix(trimmed, suffixes);
      LastWordBlock(VassdragetBlock(EarlyBlocks(trimmed, stem, suffix, endingMap), trimmed, stem), trimmed)
  }

  // ---------------------------------------------------------------------
  // The candidate list and its `seen` set
  // ---------------------------------------------------------------------

  /** The `candidates` list and `seen` set shared by the helpers of `_generate_original_candidates`. */
  class CandidateList {
    var candidates: seq<string>
    var seen: set<string>

    ghost predicate Valid()
      reads this
    {
      forall x :: x in seen <==> x in candidates
    }

    constructor ()
      ensures Valid() && candidates == []
    {
      candidates := [];
      seen := {};
    }

    method AddNew(v: string)
      requires Valid()
      modifies this
      ensures Valid() && candidates == AddSpelling(old(candidates), v)
    {
      if v !in seen {
        seen := seen + {v};
        candidates := candidates + [v];
      }
    }

    /** `_add`. */
    method Add(candidate: string)
      requires Valid()
      modifies this
      ensures Valid() && candidates == AddOne(old(candidates), candidate)
    {
      var t := Strip(candidate);
      if t != [] && t !in seen {
        AddNew(t);
        if 'æ' in t {
          AddNew(AeVariant(t));
        }
        if Contains(Lower(t), "aa") {
          AddNew(AaVariant(t));
        }
      }
    }

    /** `for x in xs: _add(x)`. */
    method AddEach(xs: seq<string>)
      requires Valid()
      modifies this
      ensures Valid() && candidates == AddAll(old(candidates), xs)
    {
      ghost var start := candidates;
      var i := 0;
      while i < |xs|
        invariant 0 <= i <= |xs|
        invariant Valid() && candidates == AddAll(start, xs[..i])
      {
        AddAllSnoc(start, xs, i);
        Add(xs[i]);
        i := i + 1;
      }
      assert xs[..|xs|] == xs;
    }

    /** `for v in vs: _add(_join_stem_suffix(v, suffix))`. */
    method AddEachJoined(vs: seq<string>, suffix: string)
      requires Valid()
      modifies this
      ensures Valid() && candidates == AddAll(old(candidates), Joined(vs, suffix))
    {
      ghost var start := candidates;
      ghost var js := Joined(vs, suffix);
      var i := 0;
      while i < |vs|
        invariant 0 <= i <= |vs|
        invariant Valid() && candidates == AddAll(start, js[..i])
      {
        var joined := JoinStemSuffix(vs[i], suffix);
        AddAllSnoc(start, js, i);
        Add(joined);
        i := i + 1;
      }
      assert js[..|vs|] == js;
    }

    /** `_add_s_variants`. */
    method AddSVariantsOf(base: string, includeOriginal: bool)
      requires Valid()
      modifies this
      ensures Valid() && candidates == AddSVariants(old(candidates), base, includeOriginal)
    {
      var variants := IterSVariants(base);
      if |variants| == 0 {
        return;
      }
      var startIndex := if includeOriginal then 0 else 1;
      AddEach(variants[startIndex..]);
      assert variants[0..] == variants;
    }

    /** `_add_directionless`. */
    method AddDirectionlessOf(base: string)
      requires Valid()
      modifies this
      ensures Valid() && candidates == AddDirectionless(old(candidates), base)
    {
      var stripped := StripDirectionWords(base);
      if stripped != [] && stripped != base {
        Add(stripped);
        AddSVariantsOf(stripped, false);
      }
    }

    method AddWithVariantsOf(x: string)
      requires Valid()
      modifies this
      ensures Valid() && candidates == AddWithVariants(old(candidates), x)
    {
      Add(x);
      AddSVariantsOf(x, false);
      AddDirectionlessOf(x);
    }

    method AddStemBlock(trimmed: string, stem: string, suffix: string)
      requires Valid()
      modifies this
      ensures Valid() && candidates == StemBlock(old(candidates), trimmed, stem, suffix)
    {
      if stem != [] && stem != trimmed {
        AddSVariantsOf(stem, true);
        AddDirectionlessOf(stem);
      } else if suffix == [] {
        AddSVariantsOf(trimmed, false);
      }
    }

    method AddDalBlock(trimmed: string, stem: string, suffix: string, endingMap: map<string, string>)
      requires Valid()
      modifies this
      ensures Valid() && candidates == DalBlock(old(candidates), trimmed, stem, suffix, endingMap)
    {
      if suffix != [] && Lower(suffix) in endingMap && endingMap[Lower(suffix)] == "DAL" {
        var dalVariant := JoinStemSuffix(if stem != [] then stem else trimmed, "dal");
        AddWithVariantsOf(dalVariant);
        var elvVariant := JoinStemSuffix(dalVariant, "selva");
        AddWithVariantsOf(elvVariant);
      }
    }

    method AddReguleringBlock(trimmed: string)
      requires Valid()
      modifies this
      ensures Valid() && candidates == ReguleringBlock(old(candidates), trimmed)
    {
      if EndsWith(Lower(trimmed), Regulering) {
        var repl := ReguleringToVassdraget(trimmed);
        Add(repl);
        AddSVariantsOf(repl, false);
      }
    }

    method AddVassdragetBlock(trimmed: string, stem: string)
      requires Valid()
      modifies this
      ensures Valid() && candidates == VassdragetBlock(old(candidates), trimmed, stem)
    {
      var baseClean := RStrip(if stem != [] then stem else trimmed);
      if baseClean != [] && !EndsWith(Lower(baseClean), Regulering) {
        var variants := IterSVariants(baseClean);
        AddEachJoined(variants, Vassdraget);
        var strippedBase := StripDirectionWords(baseClean);
        if strippedBase != [] && strippedBase != baseClean {
          variants := IterSVariants(strippedBase);
          AddEachJoined(variants, Vassdraget);
        }
      }
    }

    method AddLastWordBlock(trimmed: string)
      requires Valid()
      modifies this
      ensures Valid() && candidates == LastWordBlock(old(candidates), trimmed)
    {
      var ws := Words(trimmed);
      if ' ' in trimmed && |ws| > 0 {
        var lastWord := ws[|ws| - 1];
        var lastLower := Lower(lastWord);
        Add(lastWord);
        if lastLower != Regulering && !EndsWith(lastLower, Vassdraget) {
          AddSVariantsOf(lastWord, false);
          var variants := IterSVariants(lastWord);
          AddEachJoined(variants, Vassdraget);
        }
      }
    }
  }

  /** `_generate_original_candidates`. */
  method GenerateOriginalCandidates(name: string, suffixes: seq<string>, endingMap: map<string, string>)
    returns (r: seq<string>)
    ensures r == OriginalCandidates(name, suffixes, endingMap)
  {
    var trimmed := Strip(name);
    if trimmed == [] {
      return [];
    }
    var list := new CandidateList();
    list.Add(trimmed);
    list.AddDirectionlessOf(trimmed);
    var (stem, suffix) := SplitSuffix(trimmed, suffixes);
    list.AddStemBlock(trimmed, stem, suffix);
    list.AddDalBlock(trimmed, stem, suffix, endingMap);
    list.AddReguleringBlock(trimmed);
    list.AddVassdragetBlock(trimmed, stem);
    list.AddLastWordBlock(trimmed);
    r := list.candidates;
  }

  /** A stripped variant with "vassdraget" appended is among the joined candidates. */
  lemma JoinedMember(cs: seq<string>, vs: seq<string>, i: nat)
    requires i < |vs| && vs[i] != [] && IsStripped(vs[i]) && vs[i][|vs[i]| - 1] != '-'
    ensures vs[i] + Vassdraget in AddAll(cs, Joined(vs, Vassdraget))
  {
    JoinIsConcat(vs[i], Vassdraget);
    StripOfStripped(vs[i] + Vassdraget);
    AddAllMember(cs, Joined(vs, Vassdraget), i);
  }

  lemma VassdragetBlockPrefix(cs: seq<string>, trimmed: string)
    requires trimmed != [] && IsStripped(trimmed)
    requires !EndsWith(Lower(trimmed), Regulering)
    ensures AddAll(cs, Joined(SVariants(trimmed), Vassdraget)) <= VassdragetBlock(cs, trimmed, trimmed)
  {
    assert RStrip(trimmed) == trimmed;
  }

  /** The "vassdraget" block adds the base with "vassdraget", and with "svassdraget" when the base does not end in "s". */
  lemma VassdragetBlockMembers(cs: seq<string>, trimmed: string)
    requires trimmed != [] && IsStripped(trimmed) && trimmed[|trimmed| - 1] != '-'
    requires !EndsWith(Lower(trimmed), Regulering)
    ensures trimmed + Vassdraget in VassdragetBlock(cs, trimmed, trimmed)
    ensures LowerChar(trimmed[|trimmed| - 1]) != 's' ==> trimmed + "s" + Vassdraget in VassdragetBlock(cs, trimmed, trimmed)
  {
    StripOfStripped(trimmed);
    SVariantsSpec(trimmed);
    var vs := SVariants(trimmed);
    var cs1 := AddAll(cs, Joined(vs, Vassdraget));
    VassdragetBlockPrefix(cs, trimmed);
    JoinedMember(cs, vs, 0);
    PrefixMember(trimmed + Vassdraget, cs1, VassdragetBlock(cs, trimmed, trimmed));
    if LowerChar(trimmed[|trimmed| - 1]) != 's' {
      SVariantsAddS(trimmed);
      var ts := trimmed + "s";
      assert IsStripped(ts) && ts[|ts| - 1] != '-';
      JoinedMember(cs, vs, 1);
      PrefixMember(ts + Vassdraget, cs1, VassdragetBlock(cs, trimmed, trimmed));
    }
  }

  /**
   * «Glomma» -> «Glommavassdraget», «Suldal» -> «Suldalsvassdraget»: a name
   * without a known ending is also tried with "vassdraget" appended, and with
   * "s" and "vassdraget" appended when it does not end in "s".
   */
  lemma OriginalCandidatesVassdraget(name: string, suffixes: seq<string>, endingMap: map<string, string>)
    requires name != [] && IsStripped(name) && name[|name| - 1] != '-'
    requires SplitSuffix(name, suffixes).1 == [] && !EndsWith(Lower(name), Regulering)
    ensures name + Vassdraget in OriginalCandidates(name, suffixes, endingMap)
    ensures LowerChar(name[|name| - 1]) != 's' ==> name + "s" + Vassdraget in OriginalCandidates(name, suffixes, endingMap)
  {
    StripOfStripped(name);
    SplitSuffixSpec(name, suffixes);
    var c3 := EarlyBlocks(name, name, [], endingMap);
    var c4 := VassdragetBlock(c3, name, name);
    VassdragetBlockMembers(c3, name);
    var r := OriginalCandidates(name, suffixes, endingMap);
    assert r == LastWordBlock(c4, name);
    PrefixMember(name + Vassdraget, c4, r);
    if LowerChar(name[|name| - 1]) != 's' {
      PrefixMember(name + "s" + Vassdraget, c4, r);
    }
  }
}
