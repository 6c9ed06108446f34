/**
 * Step 3 of the document pipeline, `steg3_identifiser_entiteter.py`: the
 * tagged entities of a document (rivers, lakes, power plants, dams) are
 * looked up in the NVE registers by a normalised name, the best candidate is
 * chosen, and the tag is rewritten on one line with the looked-up attributes.
 *
 * The register rows and the lookup results are loosely typed Python values;
 * `Value` keeps the kinds the code distinguishes.
 */
module EntityMatching {
  import opened Text
  import opened Opt
  import opened Sorting
  import opened OrderedDict
  import CommonEndings

  /** A JSON-ish field value: `None`, a string, an integer or a boolean. */
  datatype Value = Null | Str(s: string) | Int(i: int) | Bool(b: bool)

  /** Python truthiness. */
  predicate Truthy(v: Value) {
    match v
    case Null => false
    case Str(s) => s != []
    case Int(i) => i != 0
    case Bool(b) => b
  }

  /** `str(v)`. */
  function StrOf(v: Value): string {
    match v
    case Null => "None"
    case Str(s) => s
    case Int(i) => IntToString(i)
    case Bool(b) => if b then "True" else "False"
  }

  // ---------------------------------------------------------------------
  // normalize_name
  // ---------------------------------------------------------------------

  const GeneralSuffixes: seq<string> := [
    "kraftverk", "vannkraftverk", "vindkraftverk", "solkraftverk",
    "kraftanlegg", "anlegg", "pumpestasjon", "kraftstasjon",
    "minikraftverk", "mikrokraftverk", "småkraftverk"]
  const RiverSuffixes: seq<string> := ["elva", " elvi", " elven", " åna", " åni", " åne", " bekken"]
  const LakeSuffixes: seq<string> := ["vatnet", " vannet", " sjøen", " tjernet", " tjønna", " tjønn", " løken"]

  /** The suffixes removed for an entity type: the general ones, extended for rivers and lakes only. */
  function SuffixesFor(entityType: string): (r: seq<string>)
    ensures |r| >= |GeneralSuffixes|
    ensures r[..|GeneralSuffixes|] == GeneralSuffixes
    ensures |r| > |GeneralSuffixes| <==> entityType == "elv" || entityType == "innsjø"
    ensures entityType == "elv" ==> r[|GeneralSuffixes|..] == RiverSuffixes
    ensures entityType == "innsjø" ==> r[|GeneralSuffixes|..] == LakeSuffixes
    ensures forall k :: 0 <= k < |r| ==> r[k] != []
  {
    if entityType == "elv" then GeneralSuffixes + RiverSuffixes
    else if entityType == "innsjø" then GeneralSuffixes + LakeSuffixes
    else GeneralSuffixes
  }

  /** One test of the inner loop: a listed suffix is cut off and the rest stripped. */
  function CutSuffix(s: string, suffix: string): string {
    if EndsWith(s, suffix) then Strip(s[..|s| - |suffix|]) else s
  }

  /** One pass over the suffix list, in list order; each suffix is tried once. */
  function SuffixPass(s: string, sufs: seq<string>): string
    decreases |sufs|
  {
    if sufs == [] then s else CutSuffix(SuffixPass(s, sufs[..|sufs| - 1]), sufs[|sufs| - 1])
  }

  /** `n` passes over the list. */
  function RepeatPass(s: string, sufs: seq<string>, n: nat): string {
    if n == 0 then s else SuffixPass(RepeatPass(s, sufs, n - 1), sufs)
  }

  /** Whitespace only as single ' ' characters. */
  predicate SingleSpaced(s: string) {
    forall i :: 0 <= i < |s| && IsSpace(s[i]) ==> s[i] == ' ' && (i + 1 == |s| || !IsSpace(s[i + 1]))
  }

  /** `re.sub(r'\s+', ' ', s)`. */
  function CollapseSpaces(s: string): (r: string)
    ensures SingleSpaced(r)
    ensures forall c :: c in r ==> c in s || c == ' '
    ensures |s| > 0 && !IsSpace(s[0]) ==> |r| > 0 && r[0] == s[0]
    decreases |s|
  {
    if s == [] then []
    else if IsSpace(s[0]) then
      var j := SpaceRunEnd(s, 0);
      var rest := CollapseSpaces(s[j..]);
      assert forall c :: c in rest ==> c in s || c == ' ' by {
        forall c | c in rest && c != ' ' ensures c in s {
          assert c in s[j..];
        }
      }
      " " + rest
    else
      var rest := CollapseSpaces(s[1..]);
      assert forall c :: c in rest ==> c in s || c == ' ' by {
        forall c | c in rest && c != ' ' ensures c in s {
          assert c in s[1..];
        }
      }
      [s[0]] + rest
  }

  /** `normalize_name(name, entity_type)`. */
  function NormalizeNameOf(name: Value, entityType: string): string {
    if !name.Str? then ""
    else
      var stripped := RepeatPass(Strip(Lower(name.s)), SuffixesFor(entityType), 2);
      Strip(CollapseSpaces(Replace(stripped, "-", " ")))
  }

  method NormalizeName(name: Value, entityType: string) returns (r: string)
    ensures r == NormalizeNameOf(name, entityType)
  {
    if !name.Str? {
      return "";
    }
    var sufs := SuffixesFor(entityType);
    var nameLower := Strip(Lower(name.s));
    ghost var start := nameLower;
    var round := 0;
    while round < 2
      invariant 0 <= round <= 2
      invariant nameLower == RepeatPass(start, sufs, round)
    {
      nameLower := RunPass(nameLower, sufs);
      round := round + 1;
    }
    r := Strip(CollapseSpaces(Replace(nameLower, "-", " ")));
  }

  /** The inner loop: `for suffix in suffixes_to_remove`. */
  method RunPass(s: string, sufs: seq<string>) returns (t: string)
    ensures t == SuffixPass(s, sufs)
  {
    t := s;
    var j := 0;
    while j < |sufs|
      invariant 0 <= j <= |sufs|
      invariant t == SuffixPass(s, sufs[..j])
    {
      ghost var t0 := t;
      if EndsWith(t, sufs[j]) {
        t := Strip(t[..|t| - |sufs[j]|]);
      }
      assert t == CutSuffix(t0, sufs[j]);
      assert sufs[..j + 1][..j] == sufs[..j];
      j := j + 1;
    }
    assert sufs[..|sufs|] == sufs;
  }

  /** Stripping a stripped string's prefix only trims its end. */
  lemma CutStripped(s: string, suffix: string)
    requires IsStripped(s)
    ensures IsStripped(CutSuffix(s, suffix)) && StartsWith(s, CutSuffix(s, suffix))
  {
    if EndsWith(s, suffix) {
      var t := s[..|s| - |suffix|];
      assert LStrip(t) == t;
      assert Strip(t) == RStrip(t);
      assert RStrip(t) == t[..|RStrip(t)|];
      assert s[..|RStrip(t)|] == t[..|RStrip(t)|];
    }
  }

  /** A pass keeps the name stripped and only ever shortens it from the end. */
  lemma {:induction false} PassPrefix(s: string, sufs: seq<string>)
    requires IsStripped(s)
    ensures IsStripped(SuffixPass(s, sufs)) && StartsWith(s, SuffixPass(s, sufs))
    decreases |sufs|
  {
    if sufs != [] {
      var p := SuffixPass(s, sufs[..|sufs| - 1]);
      PassPrefix(s, sufs[..|sufs| - 1]);
      CutStripped(p, sufs[|sufs| - 1]);
      var q := CutSuffix(p, sufs[|sufs| - 1]);
      assert s[..|q|] == p[..|q|];
    }
  }

  lemma {:induction false} RepeatPrefix(s: string, sufs: seq<string>, n: nat)
    requires IsStripped(s)
    ensures IsStripped(RepeatPass(s, sufs, n)) && StartsWith(s, RepeatPass(s, sufs, n))
  {
    if n > 0 {
      var p := RepeatPass(s, sufs, n - 1);
      RepeatPrefix(s, sufs, n - 1);
      PassPrefix(p, sufs);
      var q := SuffixPass(p, sufs);
      assert s[..|q|] == p[..|q|];
    }
  }

  /** A pass that finds none of its suffixes changes nothing. */
  lemma {:induction false} PassNoSuffix(s: string, sufs: seq<string>)
    requires forall k :: 0 <= k < |sufs| ==> !EndsWith(s, sufs[k])
    ensures SuffixPass(s, sufs) == s
    decreases |sufs|
  {
    if sufs != [] {
      PassNoSuffix(s, sufs[..|sufs| - 1]);
    }
  }

  /** A stripped string is a contiguous piece of its input. */
  lemma StripSlice(s: string) returns (a: nat)
    ensures a + |Strip(s)| <= |s| && Strip(s) == s[a..a + |Strip(s)|]
  {
    var l := LStrip(s);
    a := |s| - |l|;
    assert Strip(s) == l[..|Strip(s)|];
  }

  lemma SliceSingleSpaced(s: string, a: nat, b: nat)
    requires SingleSpaced(s) && a <= b <= |s|
    ensures SingleSpaced(s[a..b])
  {
    var t := s[a..b];
    forall i | 0 <= i < |t| && IsSpace(t[i]) ensures t[i] == ' ' && (i + 1 == |t| || !IsSpace(t[i + 1])) {
      assert t[i] == s[a + i];
      if i + 1 < |t| {
        assert t[i + 1] == s[a + i + 1];
      }
    }
  }

  /** A single-spaced string is left alone by the whitespace rewrite. */
  lemma {:induction false} CollapseSingleSpaced(s: string)
    requires SingleSpaced(s)
    ensures CollapseSpaces(s) == s
    decreases |s|
  {
    if s != [] {
      SliceSingleSpaced(s, 1, |s|);
      CollapseSingleSpaced(s[1..]);
      if IsSpace(s[0]) {
        assert SpaceRunEnd(s, 1) == 1;
        assert SpaceRunEnd(s, 0) == 1;
      }
      assert s == [s[0]] + s[1..];
    }
  }

  /**
   * What a normalised name looks like: empty for a non-string, otherwise
   * stripped, without hyphens and with whitespace only as single spaces.
   */
  lemma NormalizedShape(name: Value, entityType: string)
    ensures !name.Str? ==> NormalizeNameOf(name, entityType) == []
    ensures IsStripped(NormalizeNameOf(name, entityType))
    ensures '-' !in NormalizeNameOf(name, entityType)
    ensures SingleSpaced(NormalizeNameOf(name, entityType))
  {
    if name.Str? {
      var stripped := RepeatPass(Strip(Lower(name.s)), SuffixesFor(entityType), 2);
      var replaced := Replace(stripped, "-", " ");
      ReplaceRemovesChar(stripped, '-', " ");
      var collapsed := CollapseSpaces(replaced);
      assert '-' !in collapsed;
      StripKeepsSpacing(collapsed);
    }
  }

  /** Stripping a single-spaced text keeps it single-spaced and adds no character. */
  lemma StripKeepsSpacing(s: string)
    requires SingleSpaced(s)
    ensures SingleSpaced(Strip(s)) && CharsWithin(Strip(s), s)
  {
    var a := StripSlice(s);
    SliceSingleSpaced(s, a, a + |Strip(s)|);
    StripChars(s);
  }

  /**
   * Normalisation only removes the listed suffixes, hyphens, case and
   * whitespace: a name already in normal form is its own normalisation.
   */
  lemma NormalizedFixpoint(s: string, entityType: string)
    requires Lower(s) == s && IsStripped(s) && SingleSpaced(s) && '-' !in s
    requires forall k :: 0 <= k < |SuffixesFor(entityType)| ==> !EndsWith(s, SuffixesFor(entityType)[k])
    ensures NormalizeNameOf(Str(s), entityType) == s
  {
    var sufs := SuffixesFor(entityType);
    StripOfStripped(s);
    PassNoSuffix(s, sufs);
    assert RepeatPass(s, sufs, 1) == s;
    assert RepeatPass(s, sufs, 2) == s;
    ReplaceAbsentChar(s, '-', " ");
    CollapseSingleSpaced(s);
  }

  /** After both passes the name is still a stripped prefix of the lowered input. */
  lemma NormalizedPasses(s: string, entityType: string)
    ensures IsStripped(RepeatPass(Strip(Lower(s)), SuffixesFor(entityType), 2))
    ensures StartsWith(Strip(Lower(s)), RepeatPass(Strip(Lower(s)), SuffixesFor(entityType), 2))
  {
    RepeatPrefix(Strip(Lower(s)), SuffixesFor(entityType), 2);
  }

  // ---------------------------------------------------------------------
  // escape_attribute_value_for_nsd
  // ---------------------------------------------------------------------

  /** The characters `str.splitlines` breaks at. */
  predicate IsLineBreak(c: char) {
    c == '\n' || c == '\r' || c == '\U{B}' || c == '\U{C}' || c == '\U{1C}' || c == '\U{1D}'
    || c == '\U{1E}' || c == '\U{85}' || c == '\U{2028}' || c == '\U{2029}'
  }

  predicate NoLineBreak(s: string) {
    forall i :: 0 <= i < |s| ==> !IsLineBreak(s[i])
  }

  /** Index of the first line break, or |s|. */
  function LineEnd(s: string): (k: nat)
    ensures k <= |s|
    ensures NoLineBreak(s[..k])
    ensures k < |s| ==> IsLineBreak(s[k])
  {
    if |s| == 0 then 0
    else if IsLineBreak(s[0]) then 0
    else
      var k := 1 + LineEnd(s[1..]);
      assert s[..k] == [s[0]] + s[1..][..k - 1];
      k
  }

  /** `s.splitlines()`: "\r\n" is one break, and a final break opens no empty line. */
  function SplitLines(s: string): (ls: seq<string>)
    ensures forall k :: 0 <= k < |ls| ==> NoLineBreak(ls[k])
    ensures s == [] ==> ls == []
    ensures s != [] && NoLineBreak(s) ==> ls == [s]
    decreases |s|
  {
    if s == [] then []
    else
      var k := LineEnd(s);
      if k == |s| then (assert s[..k] == s; [s])
      else
        var next := if s[k] == '\r' && k + 1 < |s| && s[k + 1] == '\n' then k + 2 else k + 1;
        [s[..k]] + SplitLines(s[next..])
  }

  /** Joining break-free pieces with a space adds no break. */
  lemma {:induction false} JoinNoBreak(ls: seq<string>)
    requires forall k :: 0 <= k < |ls| ==> NoLineBreak(ls[k])
    ensures NoLineBreak(Join(ls, " "))
  {
    if |ls| > 1 {
      JoinNoBreak(ls[1..]);
      var rest := Join(ls[1..], " ");
      var r := ls[0] + " " + rest;
      assert Join(ls, " ") == r;
      forall i | 0 <= i < |r| ensures !IsLineBreak(r[i]) {
        if i < |ls[0]| {
          assert r[i] == ls[0][i];
        } else if i > |ls[0]| {
          assert r[i] == rest[i - |ls[0]| - 1];
        }
      }
    }
  }

  lemma StripNoBreak(s: string)
    requires NoLineBreak(s)
    ensures NoLineBreak(Strip(s))
  {
    var a := StripSlice(s);
    var r := Strip(s);
    forall i | 0 <= i < |r| ensures !IsLineBreak(r[i]) {
      assert r[i] == s[a + i];
    }
  }

  /**
   * `escape_attribute_value_for_nsd(v)` as written: `None` becomes "", any
   * other value its text with line breaks turned into spaces, stripped, and
   * passed through `replace('"', '"')`.
   */
  function EscapeValue(v: Value): string {
    if v.Null? then "" else Replace(Strip(Join(SplitLines(StrOf(v)), " ")), "\"", "\"")
  }

  /** The cleaned text: no line breaks, no surrounding whitespace; the quote replacement changes nothing. */
  lemma EscapeSpec(v: Value)
    ensures v.Null? ==> EscapeValue(v) == []
    ensures NoLineBreak(EscapeValue(v)) && IsStripped(EscapeValue(v))
    ensures !v.Null? ==> EscapeValue(v) == Strip(Join(SplitLines(StrOf(v)), " "))
  {
    if !v.Null? {
      var joined := Join(SplitLines(StrOf(v)), " ");
      ReplaceSame(Strip(joined), "\"");
      JoinNoBreak(SplitLines(StrOf(v)));
      StripNoBreak(joined);
    }
  }

  /** A string that is already clean is kept as it is, double quotes included. */
  lemma EscapePlain(s: string)
    requires NoLineBreak(s) && IsStripped(s)
    ensures EscapeValue(Str(s)) == s
  {
    EscapeSpec(Str(s));
    StripOfStripped(s);
  }

  lemma EscapeIdempotent(v: Value)
    ensures EscapeValue(Str(EscapeValue(v))) == EscapeValue(v)
  {
    EscapeSpec(v);
    EscapePlain(EscapeValue(v));
  }

  /**
   * As written, the escape leaves a '"' in place, so a clean value holding
   * one is not read back: `k="a"b"` reads as k = "a".
   */
  lemma QuoteEndsValueEarly(k: string, a: string, b: string)
    requires IsKey(k) && '"' !in a && '\n' !in a
    requires NoLineBreak(a + "\"" + b) && IsStripped(a + "\"" + b)
    ensures EscapeValue(Str(a + "\"" + b)) == a + "\"" + b
    ensures FindAttrs(RenderAttr((k, EscapeValue(Str(a + "\"" + b))))) != [(k, a + "\"" + b)]
  {
    EscapePlain(a + "\"" + b);
    ValueCutAtQuote(k, a, b);
    var r := FindAttrs(RenderAttr((k, a + "\"" + b)));
    assert r[0] == (k, a);
  }

  /** A value with a '"' inside is read back only up to that quote. */
  lemma ValueCutAtQuote(k: string, a: string, b: string)
    requires IsKey(k) && '"' !in a && '\n' !in a
    ensures FindAttrs(RenderAttr((k, a + "\"" + b))) == [(k, a)] + FindAttrs(b + "\"")
  {
    var s := RenderAttr((k, a + "\"" + b));
    Regroup(k + "=\"", a, "\"", b, "\"");
    assert s == RenderAttr((k, a)) + (b + "\"");
    AttrAtRendered((k, a), b + "\"");
    FindAttrsAt(s, AttrMatch(k, a, |RenderAttr((k, a))|));
    assert s[|RenderAttr((k, a))|..] == b + "\"";
  }

  /** The evidently intended escape: the cleaned text with each '"' written as `&quot;`. */
  function EscapeQuoted(v: Value): string {
    if v.Null? then "" else Replace(EscapeValue(v), "\"", "&quot;")
  }

  lemma EscapeQuotedSpec(v: Value)
    ensures v.Null? ==> EscapeQuoted(v) == []
    ensures '"' !in EscapeQuoted(v)
    ensures NoLineBreak(EscapeQuoted(v))
    ensures '"' !in EscapeValue(v) ==> EscapeQuoted(v) == EscapeValue(v)
  {
    if !v.Null? {
      var e := EscapeValue(v);
      EscapeSpec(v);
      QuoteReplaced(e);
      if '"' !in e {
        ReplaceAbsentChar(e, '"', "&quot;");
      }
    }
  }

  lemma QuoteReplaced(e: string)
    requires NoLineBreak(e)
    ensures '"' !in Replace(e, "\"", "&quot;") && NoLineBreak(Replace(e, "\"", "&quot;"))
  {
    ReplaceRemovesChar(e, '"', "&quot;");
    ReplaceChars(e, "\"", "&quot;");
    var r := Replace(e, "\"", "&quot;");
    forall i | 0 <= i < |r| ensures !IsLineBreak(r[i]) {
      assert r[i] in r;
      if r[i] in e {
        var j :| 0 <= j < |e| && e[j] == r[i];
      }
    }
  }

  // ---------------------------------------------------------------------
  // Reading key="value" attributes
  // ---------------------------------------------------------------------

  /** `[\w_:-]`. */
  predicate IsKeyChar(c: char) { IsWordChar(c) || c == ':' || c == '-' }

  predicate IsKey(k: string) { k != [] && forall i :: 0 <= i < |k| ==> IsKeyChar(k[i]) }

  function KeyLen(s: string): (n: nat)
    ensures n <= |s|
    ensures forall i :: 0 <= i < n ==> IsKeyChar(s[i])
    ensures n < |s| ==> !IsKeyChar(s[n])
  {
    if |s| > 0 && IsKeyChar(s[0]) then 1 + KeyLen(s[1..]) else 0
  }

  /** Where a lazy `.*?"` stops: the first '"' or newline, or |s|. */
  function QuoteEnd(s: string): (n: nat)
    ensures n <= |s|
    ensures forall i :: 0 <= i < n ==> s[i] != '"' && s[i] != '\n'
    ensures n < |s| ==> s[n] == '"' || s[n] == '\n'
  {
    if |s| > 0 && s[0] != '"' && s[0] != '\n' then 1 + QuoteEnd(s[1..]) else 0
  }

  datatype AttrMatch = AttrMatch(key: string, value: string, len: nat)

  /**
   * A match of `([\w_:-]+)\s*=\s*"(.*?)"` at the start of `s`. Backtracking
   * cannot help a failed attempt: a shorter key or whitespace run leaves a
   * key or space character where '=' or '"' is needed.
   */
  function AttrAt(s: string): (m: Option<AttrMatch>)
    ensures m.Some? ==> 0 < m.value.len <= |s| && IsKey(m.value.key)
    ensures m.Some? ==> '"' !in m.value.value && '\n' !in m.value.value
  {
    var j := KeyLen(s);
    if j == 0 then None
    else
      var k := SpaceRunEnd(s, j);
      if k == |s| || s[k] != '=' then None
      else
        var m := SpaceRunEnd(s, k + 1);
        if m == |s| || s[m] != '"' then None
        else
          var q := m + 1 + QuoteEnd(s[m + 1..]);
          if q == |s| || s[q] != '"' then None
          else
            assert s[m + 1..q] == s[m + 1..][..q - m - 1];
            Some(AttrMatch(s[..j], s[m + 1..q], q + 1))
  }

  /** `re.finditer(attr_regex_existing, s)`, as (key, value) pairs. */
  function FindAttrs(s: string): (ps: seq<(string, string)>)
    decreases |s|
  {
    if s == [] then []
    else match AttrAt(s)
      case Some(a) => [(a.key, a.value)] + FindAttrs(s[a.len..])
      case None => FindAttrs(s[1..])
  }

  /** `f'{key}="{value}"'`. */
  function RenderAttr(p: (string, string)): string {
    p.0 + "=\"" + p.1 + "\""
  }

  /** `' '.join(...)` of the rendered attributes. */
  function RenderAttrs(ps: seq<(string, string)>): string {
    Join(MapSeq(ps, RenderAttr), " ")
  }

  /** Pairs that survive being written out and read back. */
  predicate Readable(ps: seq<(string, string)>) {
    forall k :: 0 <= k < |ps| ==> IsKey(ps[k].0) && '"' !in ps[k].1 && '\n' !in ps[k].1
  }

  lemma AttrAtRendered(p: (string, string), rest: string)
    requires IsKey(p.0) && '"' !in p.1 && '\n' !in p.1
    ensures AttrAt(RenderAttr(p) + rest) == Some(AttrMatch(p.0, p.1, |RenderAttr(p)|))
  {
    var s := RenderAttr(p) + rest;
    var j := |p.0|;
    RenderedKey(p, rest);
    RenderedValue(p, rest);
    AttrAtOf(s, j, j + 2 + |p.1|, p.0, p.1);
  }

  /** A rendered attribute starts with its key, then `="`. */
  lemma RenderedKey(p: (string, string), rest: string)
    requires IsKey(p.0)
    ensures var s := RenderAttr(p) + rest;
      |p.0| + 1 < |s| && KeyLen(s) == |p.0| && s[..|p.0|] == p.0 && s[|p.0|] == '=' && s[|p.0| + 1] == '"'
      && SpaceRunEnd(s, |p.0|) == |p.0| && SpaceRunEnd(s, |p.0| + 1) == |p.0| + 1
  {
    var s := RenderAttr(p) + rest;
    var j := |p.0|;
    assert s[..j] == p.0;
    assert forall i :: 0 <= i < j ==> s[i] == p.0[i];
    assert s[j] == '=';
    KeyLenOf(s, j);
    assert s[j + 1] == '"';
    assert SpaceRunEnd(s, j) == j;
    assert SpaceRunEnd(s, j + 1) == j + 1;
  }

  /** After the rendered `="`, the value runs up to the closing quote. */
  lemma RenderedValue(p: (string, string), rest: string)
    requires '"' !in p.1 && '\n' !in p.1
    ensures var s := RenderAttr(p) + rest; var q := |p.0| + 2 + |p.1|;
      q < |s| && |RenderAttr(p)| == q + 1 && QuoteEnd(s[|p.0| + 2..]) == |p.1| && s[q] == '"' && s[|p.0| + 2..q] == p.1
  {
    var s := RenderAttr(p) + rest;
    var j := |p.0|;
    var t := s[j + 2..];
    assert t == p.1 + "\"" + rest;
    QuoteEndOf(t, |p.1|);
    assert s[j + 2 + |p.1|] == '"';
    assert s[j + 2..j + 2 + |p.1|] == p.1;
  }

  /** `AttrAt` on a key, `=` and `"` with no spaces between, and a closing quote at `q`. */
  lemma AttrAtOf(s: string, j: nat, q: nat, key: string, value: string)
    requires 0 < j && j + 1 < q < |s| && KeyLen(s) == j
    requires s[j] == '=' && SpaceRunEnd(s, j) == j && s[j + 1] == '"' && SpaceRunEnd(s, j + 1) == j + 1
    requires q == j + 2 + QuoteEnd(s[j + 2..]) && s[q] == '"'
    requires key == s[..j] && value == s[j + 2..q]
    ensures AttrAt(s) == Some(AttrMatch(key, value, q + 1))
  {
  }

  lemma KeyLenOf(s: string, n: nat)
    requires n < |s| && !IsKeyChar(s[n]) && forall i :: 0 <= i < n ==> IsKeyChar(s[i])
    ensures KeyLen(s) == n
    decreases n
  {
    if n > 0 {
      KeyLenOf(s[1..], n - 1);
    }
  }

  lemma QuoteEndOf(s: string, n: nat)
    requires n < |s| && s[n] == '"' && forall i :: 0 <= i < n ==> s[i] != '"' && s[i] != '\n'
    ensures QuoteEnd(s) == n
    decreases n
  {
    if n > 0 {
      QuoteEndOf(s[1..], n - 1);
    }
  }

  lemma AttrAtNone(s: string)
    requires |s| > 0 && !IsKeyChar(s[0])
    ensures AttrAt(s) == None
  {
    assert KeyLen(s) == 0;
  }

  lemma FindAttrsSpace(t: string)
    ensures FindAttrs(" " + t) == FindAttrs(t)
  {
    AttrAtNone(" " + t);
    assert (" " + t)[1..] == t;
  }

  lemma RenderAttrsCons(ps: seq<(string, string)>)
    requires |ps| >= 2
    ensures RenderAttrs(ps) == RenderAttr(ps[0]) + (" " + RenderAttrs(ps[1..]))
  {
    assert MapSeq(ps, RenderAttr) == [RenderAttr(ps[0])] + MapSeq(ps[1..], RenderAttr);
  }

  lemma ReadableTail(ps: seq<(string, string)>)
    requires Readable(ps) && ps != []
    ensures Readable(ps[1..])
  {
    forall k | 0 <= k < |ps[1..]| ensures IsKey(ps[1..][k].0) && '"' !in ps[1..][k].1 && '\n' !in ps[1..][k].1 {
      assert ps[1..][k] == ps[k + 1];
    }
  }

  /** Attributes written as `key="value"` separated by spaces are read back exactly. */
  lemma FindAttrsAt(s: string, a: AttrMatch)
    requires s != [] && AttrAt(s) == Some(a)
    ensures FindAttrs(s) == [(a.key, a.value)] + FindAttrs(s[a.len..])
  {
  }

  lemma {:induction false} AttrsRoundTrip(ps: seq<(string, string)>)
    requires Readable(ps)
    ensures FindAttrs(RenderAttrs(ps)) == ps
  {
    if |ps| == 1 {
      FindAttrsRenderedOne(ps[0]);
    } else if |ps| >= 2 {
      ReadableTail(ps);
      AttrsRoundTrip(ps[1..]);
      RenderAttrsCons(ps);
      FindAttrsRenderedCons(ps[0], RenderAttrs(ps[1..]));
      assert ps == [ps[0]] + ps[1..];
    }
  }

  /** One rendered attribute is read back as itself. */
  lemma FindAttrsRenderedOne(p: (string, string))
    requires IsKey(p.0) && '"' !in p.1 && '\n' !in p.1
    ensures FindAttrs(RenderAttr(p)) == [p]
  {
    var first := RenderAttr(p);
    AttrAtRendered(p, []);
    assert first + [] == first;
    FindAttrsAt(first, AttrMatch(p.0, p.1, |first|));
    assert first[|first|..] == [];
  }

  /** A rendered attribute, a space and more text: the attribute, then what the text holds. */
  lemma FindAttrsRenderedCons(p: (string, string), rest: string)
    requires IsKey(p.0) && '"' !in p.1 && '\n' !in p.1
    ensures FindAttrs(RenderAttr(p) + (" " + rest)) == [p] + FindAttrs(rest)
  {
    var first := RenderAttr(p);
    var s := first + (" " + rest);
    AttrAtRendered(p, " " + rest);
    FindAttrsAt(s, AttrMatch(p.0, p.1, |first|));
    assert s[|first|..] == " " + rest;
    FindAttrsSpace(rest);
  }

  // ---------------------------------------------------------------------
  // find_best_match
  // ---------------------------------------------------------------------

  /** One register row: field name to value; `item.get(k)` is `Null` for a missing field. */
  type Item = map<string, Value>

  function Get(item: Item, key: string): Value {
    if key in item then item[key] else Null
  }

  function Abs(n: int): nat { if n < 0 then -n else n }

  /**
   * The partial-match test on normalised names: containment either way and a
   * length difference of at most `max(5, len(input) * 0.3)`, the bound
   * written in integers.
   */
  predicate IsPartial(input: string, name: string) {
    (Contains(name, input) || Contains(input, name))
    && (Abs(|input| - |name|) <= 5 || 10 * Abs(|input| - |name|) <= 3 * |input|)
  }

  function MaxReal(a: real, b: real): real { if a < b then b else a }

  /** The integer bound is exactly the source's `len_diff <= max(5, len(input) * 0.3)`. */
  lemma PartialBound(input: string, name: string)
    ensures IsPartial(input, name) <==>
      (Contains(name, input) || Contains(input, name))
      && Abs(|input| - |name|) as real <= MaxReal(5.0, |input| as real * 0.3)
  {
    var d := Abs(|input| - |name|) as real;
    var l := |input| as real;
    assert 10 * Abs(|input| - |name|) <= 3 * |input| <==> d <= l * 0.3;
  }

  /** The item has a truthy name whose normalisation equals the normalised input. */
  predicate IsExact(input: string, item: Item, nameKey: string, entityType: string) {
    Truthy(Get(item, nameKey)) && NormalizeNameOf(Get(item, nameKey), entityType) == input
  }

  /** The item has a truthy name that is not exact but partially matches. */
  predicate IsPartialItem(input: string, item: Item, nameKey: string, entityType: string) {
    Truthy(Get(item, nameKey))
    && NormalizeNameOf(Get(item, nameKey), entityType) != input
    && IsPartial(input, NormalizeNameOf(Get(item, nameKey), entityType))
  }

  /** `exact_match_candidates`, in register order. */
  function ExactOf(input: string, items: seq<Item>, nameKey: string, entityType: string): (r: seq<Item>)
    ensures forall x :: x in r <==> x in items && IsExact(input, x, nameKey, entityType)
  {
    if items == [] then []
    else
      var init := ExactOf(input, items[..|items| - 1], nameKey, entityType);
      var item := items[|items| - 1];
      assert items == items[..|items| - 1] + [item];
      if IsExact(input, item, nameKey, entityType) then init + [item] else init
  }

  /** `partial_match_candidates`, in register order. */
  function PartialOf(input: string, items: seq<Item>, nameKey: string, entityType: string): (r: seq<Item>)
    ensures forall x :: x in r <==> x in items && IsPartialItem(input, x, nameKey, entityType)
  {
    if items == [] then []
    else
      var init := PartialOf(input, items[..|items| - 1], nameKey, entityType);
      var item := items[|items| - 1];
      assert items == items[..|items| - 1] + [item];
      if IsPartialItem(input, item, nameKey, entityType) then init + [item] else init
  }

  /** `candidates`: the exact matches, or the partial ones when there are none. */
  function CandidatesOf(input: string, items: seq<Item>, nameKey: string, entityType: string): seq<Item> {
    var exact := ExactOf(input, items, nameKey, entityType);
    if exact != [] then exact else PartialOf(input, items, nameKey, entityType)
  }

  /**
   * The state of the distance loop: the best candidate so far and the
   * smallest distance, `None` standing for `float('inf')`.
   */
  datatype Nearest = Nearest(best: Option<Item>, minDist: Option<real>)

  /**
   * The distance loop over `cands`; `dist(c)` is the distance from the
   * document's municipality, `None` when the candidate's coordinates are
   * missing or do not parse.
   */
  function NearestOf(cands: seq<Item>, dist: Item -> Option<real>): Nearest {
    if cands == [] then Nearest(None, None)
    else
      var n := NearestOf(cands[..|cands| - 1], dist);
      var c := cands[|cands| - 1];
      match dist(c)
      case None => n
      case Some(d) =>
        if n.minDist.None? || d < n.minDist.value then Nearest(Some(c), Some(d))
        else if n.minDist == Some(d) && n.best.None? then Nearest(Some(c), n.minDist)
        else n
  }

  /** `cands[k]` is strictly nearer than every earlier candidate and no farther than every later one. */
  ghost predicate NearestAt(cands: seq<Item>, dist: Item -> Option<real>, k: int) {
    0 <= k < |cands| && dist(cands[k]).Some?
    && (forall j :: 0 <= j < k && dist(cands[j]).Some? ==> dist(cands[j]).value > dist(cands[k]).value)
    && (forall j :: k < j < |cands| && dist(cands[j]).Some? ==> dist(cands[j]).value >= dist(cands[k]).value)
  }

  /**
   * The distance loop picks the strictly nearest candidate, the first one on
   * ties, and nothing when no candidate has a distance.
   */
  lemma {:induction false} NearestSpec(cands: seq<Item>, dist: Item -> Option<real>) returns (k: int)
    ensures NearestOf(cands, dist).best.None? <==> forall j :: 0 <= j < |cands| ==> dist(cands[j]).None?
    ensures NearestOf(cands, dist).best.Some? ==>
      NearestAt(cands, dist, k) && NearestOf(cands, dist).best == Some(cands[k])
      && NearestOf(cands, dist).minDist == dist(cands[k])
    ensures NearestOf(cands, dist).best.None? <==> NearestOf(cands, dist).minDist.None?
  {
    k := -1;
    if cands != [] {
      var init := cands[..|cands| - 1];
      var c := cands[|cands| - 1];
      var k0 := NearestSpec(init, dist);
      var n := NearestOf(init, dist);
      assert forall j :: 0 <= j < |init| ==> init[j] == cands[j];
      if dist(c).None? {
        k := k0;
      } else if n.minDist.None? || dist(c).value < n.minDist.value {
        k := |cands| - 1;
      } else {
        k := k0;
      }
    }
  }

  /** `find_best_match(...)`, with `hasCoords` for `if doc_kommune_coords`. */
  function BestMatchOf(name: Value, entityType: string, items: seq<Item>, nameKey: string,
                       dist: Item -> Option<real>, hasCoords: bool): Option<Item>
  {
    var cands := CandidatesOf(NormalizeNameOf(name, entityType), items, nameKey, entityType);
    if cands == [] then None
    else if |cands| == 1 then Some(cands[0])
    else if hasCoords && NearestOf(cands, dist).best.Some? then NearestOf(cands, dist).best
    else Some(cands[0])
  }

  method FindBestMatch(name: Value, entityType: string, items: seq<Item>, nameKey: string,
                       dist: Item -> Option<real>, hasCoords: bool) returns (best: Option<Item>)
    ensures best == BestMatchOf(name, entityType, items, nameKey, dist, hasCoords)
  {
    var input := NormalizeName(name, entityType);
    var exact, partial := CollectCandidates(input, items, nameKey, entityType);
    var cands := exact;
    if cands == [] {
      cands := partial;
    }
    if cands == [] {
      return None;
    }
    if |cands| == 1 {
      return Some(cands[0]);
    }
    if hasCoords {
      var nearest := NearestLoop(cands, dist);
      if nearest.best.Some? {
        return nearest.best;
      }
      return Some(cands[0]);
    }
    return Some(cands[0]);
  }

  /** The `for item in nve_items` loop: exact and partial matches, in register order. */
  method CollectCandidates(input: string, items: seq<Item>, nameKey: string, entityType: string)
    returns (exact: seq<Item>, partial: seq<Item>)
    ensures exact == ExactOf(input, items, nameKey, entityType)
    ensures partial == PartialOf(input, items, nameKey, entityType)
  {
    exact := [];
    partial := [];
    var i := 0;
    while i < |items|
      invariant 0 <= i <= |items|
      invariant exact == ExactOf(input, items[..i], nameKey, entityType)
      invariant partial == PartialOf(input, items[..i], nameKey, entityType)
    {
      var item := items[i];
      assert items[..i + 1][..i] == items[..i];
      var isExact, isPartial := ClassifyItem(input, item, nameKey, entityType);
      if isExact {
        exact := exact + [item];
      } else if isPartial {
        partial := partial + [item];
      }
      i := i + 1;
    }
    assert items[..i] == items;
  }

  /** One iteration: skip a falsy name, else compare the normalised names. */
  method ClassifyItem(input: string, item: Item, nameKey: string, entityType: string)
    returns (isExact: bool, isPartial: bool)
    ensures isExact == IsExact(input, item, nameKey, entityType)
    ensures isPartial == IsPartialItem(input, item, nameKey, entityType)
  {
    isExact, isPartial := false, false;
    var original := Get(item, nameKey);
    if !Truthy(original) {
      return;
    }
    var normalized := NormalizeName(original, entityType);
    if normalized == input {
      isExact := true;
    } else if Contains(input, normalized) || Contains(normalized, input) {
      var lenDiff := Abs(|input| - |normalized|);
      if lenDiff <= 5 || 10 * lenDiff <= 3 * |input| {
        isPartial := true;
      }
    }
  }

  /** The `for cand in candidates` distance loop. */
  method NearestLoop(cands: seq<Item>, dist: Item -> Option<real>) returns (n: Nearest)
    ensures n == NearestOf(cands, dist)
  {
    var bestCandidate: Option<Item> := None;
    var minDist: Option<real> := None;
    for k := 0 to |cands|
      invariant Nearest(bestCandidate, minDist) == NearestOf(cands[..k], dist)
    {
      assert cands[..k + 1][..k] == cands[..k];
      var cand := cands[k];
      var d := dist(cand);
      if d.Some? {
        if minDist.None? || d.value < minDist.value {
          minDist := d;
          bestCandidate := Some(cand);
        } else if minDist == d && bestCandidate.None? {
          bestCandidate := Some(cand);
        }
      }
    }
    assert cands[..|cands|] == cands;
    n := Nearest(bestCandidate, minDist);
  }

  /** No candidate at all exactly when no item matches exactly or partially. */
  lemma BestMatchNone(name: Value, entityType: string, items: seq<Item>, nameKey: string,
                      dist: Item -> Option<real>, hasCoords: bool)
    ensures BestMatchOf(name, entityType, items, nameKey, dist, hasCoords).None? <==>
      forall k :: 0 <= k < |items| ==>
        !IsExact(NormalizeNameOf(name, entityType), items[k], nameKey, entityType)
        && !IsPartialItem(NormalizeNameOf(name, entityType), items[k], nameKey, entityType)
  {
    var input := NormalizeNameOf(name, entityType);
    var exact := ExactOf(input, items, nameKey, entityType);
    var partial := PartialOf(input, items, nameKey, entityType);
    if exact != [] {
      assert exact[0] in exact;
    } else if partial != [] {
      assert partial[0] in partial;
    }
    assert exact != [] ==> BestMatchOf(name, entityType, items, nameKey, dist, hasCoords).Some? by {
      if exact != [] && |exact| > 1 && hasCoords {
        var k := NearestSpec(exact, dist);
      }
    }
    assert exact == [] && partial != [] ==> BestMatchOf(name, entityType, items, nameKey, dist, hasCoords).Some? by {
      if exact == [] && |partial| > 1 && hasCoords {
        var k := NearestSpec(partial, dist);
      }
    }
  }

  /**
   * The chosen item is a register item; it matches exactly, or partially
   * and only when nothing matched exactly.
   */
  lemma BestMatchKind(name: Value, entityType: string, items: seq<Item>, nameKey: string,
                      dist: Item -> Option<real>, hasCoords: bool)
    ensures var r := BestMatchOf(name, entityType, items, nameKey, dist, hasCoords);
      var input := NormalizeNameOf(name, entityType);
      (r.Some? ==>
        r.value in items
        && (IsExact(input, r.value, nameKey, entityType)
            || (IsPartialItem(input, r.value, nameKey, entityType)
                && forall k :: 0 <= k < |items| ==> !IsExact(input, items[k], nameKey, entityType))))
  {
    var input := NormalizeNameOf(name, entityType);
    var cands := CandidatesOf(input, items, nameKey, entityType);
    var exact := ExactOf(input, items, nameKey, entityType);
    if |cands| > 1 && hasCoords {
      var k := NearestSpec(cands, dist);
      if NearestOf(cands, dist).best.Some? {
        assert cands[k] in cands;
      }
    }
    if cands != [] {
      assert cands[0] in cands;
    }
    if exact == [] {
      forall k | 0 <= k < |items| ensures !IsExact(input, items[k], nameKey, entityType) {
        assert items[k] in items;
      }
    }
  }

  /**
   * With several candidates and a reference point: the strictly nearest
   * candidate, the first on ties; the first candidate when none has a
   * distance or there is no reference point.
   */
  lemma BestMatchPosition(name: Value, entityType: string, items: seq<Item>, nameKey: string,
                          dist: Item -> Option<real>, hasCoords: bool)
    requires |CandidatesOf(NormalizeNameOf(name, entityType), items, nameKey, entityType)| >= 2
    ensures var cands := CandidatesOf(NormalizeNameOf(name, entityType), items, nameKey, entityType);
      var r := BestMatchOf(name, entityType, items, nameKey, dist, hasCoords);
      (hasCoords && (exists j :: 0 <= j < |cands| && dist(cands[j]).Some?) ==>
         exists k :: NearestAt(cands, dist, k) && r == Some(cands[k]))
      && (!hasCoords || (forall j :: 0 <= j < |cands| ==> dist(cands[j]).None?) ==> r == Some(cands[0]))
  {
    var cands := CandidatesOf(NormalizeNameOf(name, entityType), items, nameKey, entityType);
    var k := NearestSpec(cands, dist);
  }

  // ---------------------------------------------------------------------
  // enrich_tag_match: the attributes written and the output tag
  // ---------------------------------------------------------------------

  /** Every pair the attribute scan finds has a key of key characters and a value without '"' or newline. */
  lemma {:induction false} FindAttrsReadable(s: string)
    ensures Readable(FindAttrs(s))
    decreases |s|
  {
    if s != [] {
      match AttrAt(s)
      case Some(a) =>
        FindAttrsReadable(s[a.len..]);
        FindAttrsAt(s, a);
        var ps := FindAttrs(s);
        forall k | 0 <= k < |ps| ensures IsKey(ps[k].0) && '"' !in ps[k].1 && '\n' !in ps[k].1 {
          if k > 0 {
            assert ps[k] == FindAttrs(s[a.len..])[k - 1];
          }
        }
      case None =>
        FindAttrsReadable(s[1..]);
    }
  }

  /** A dict with string keys and loosely typed values, in insertion order. */
  type Attrs = ODict<string, Value>

  /** `key.lower() == "navn"`, checked character by character. */
  predicate IsNavn(k: string) {
    |k| == 4 && LowerChar(k[0]) == 'n' && LowerChar(k[1]) == 'a' && LowerChar(k[2]) == 'v' && LowerChar(k[3]) == 'n'
  }

  lemma IsNavnLower(k: string)
    ensures IsNavn(k) <==> Lower(k) == "navn"
  {
    if |k| == 4 && Lower(k) == "navn" {
      assert Lower(k)[0] == 'n' && Lower(k)[1] == 'a' && Lower(k)[2] == 'v' && Lower(k)[3] == 'n';
    }
    if IsNavn(k) {
      assert Lower(k) == "navn";
    }
  }

  /** Step 1: the existing attributes except any spelling of `navn`; a later duplicate overwrites. */
  function ExistingAttrsOf(ps: seq<(string, string)>): (d: Attrs)
    ensures Valid(d)
  {
    if ps == [] then Empty()
    else
      var d := ExistingAttrsOf(ps[..|ps| - 1]);
      var p := ps[|ps| - 1];
      if !IsNavn(p.0) then Put(d, p.0, Str(p.1)) else d
  }

  /** Step 2: the lookup values that are not `None`, in the lookup's key order. */
  function Override(d: Attrs, keys: seq<string>, lookup: map<string, Value>): (r: Attrs)
    requires Valid(d)
    ensures Valid(r)
  {
    if keys == [] then d
    else
      var r := Override(d, keys[..|keys| - 1], lookup);
      var k := keys[|keys| - 1];
      if k in lookup && lookup[k] != Null then Put(r, k, lookup[k]) else r
  }

  /** Some key other than `navn` and `match_found` (and not the falsy empty key). */
  predicate HasOtherKey(d: Attrs) {
    exists k :: k in d.keys && k != [] && k != "navn" && k != "match_found"
  }

  /** Step 3: `match_found` is "true" after any lookup result, "false" when nothing else is left. */
  function MarkMatch(d: Attrs, lookup: Attrs): (r: Attrs)
    requires Valid(d)
    ensures Valid(r)
  {
    if lookup.keys != [] then Put(d, "match_found", Str("true"))
    else if !HasOtherKey(d) then Put(d, "match_found", Str("false"))
    else d
  }

  /** `final_attrs_to_write`, for the existing attribute text and the lookup's attributes. */
  function FinalAttrsOf(existing: string, lookup: Attrs): (d: Attrs)
    ensures Valid(d)
  {
    MarkMatch(Override(ExistingAttrsOf(FindAttrs(existing)), lookup.keys, lookup.values), lookup)
  }

  predicate KeyBefore(a: (string, Value), b: (string, Value)) { StrLess(a.0, b.0) }

  /** The written attributes of the sorted items: `navn` in any case skipped, each value escaped by `esc`. */
  function OutputPairs(items: seq<(string, Value)>, esc: Value -> string): (r: seq<(string, string)>) {
    if items == [] then []
    else
      var init := OutputPairs(items[..|items| - 1], esc);
      var q := items[|items| - 1];
      if IsNavn(q.0) then init else init + [(q.0, esc(q.1))]
  }

  lemma {:induction false} OutputPairsSpec(items: seq<(string, Value)>, esc: Value -> string)
    ensures forall p :: p in OutputPairs(items, esc) <==> exists q :: q in items && !IsNavn(q.0) && p == (q.0, esc(q.1))
  {
    if items != [] {
      OutputPairsSpec(items[..|items| - 1], esc);
      assert items == items[..|items| - 1] + [items[|items| - 1]];
    }
  }

  /** The tag's attributes: `navn` first, then the others sorted by key, each value escaped by `esc`. */
  function TagPartsWith(name: string, d: Attrs, esc: Value -> string): seq<(string, string)>
    requires Valid(d)
  {
    [("navn", esc(Str(name)))] + OutputPairs(SortBy(CommonEndings.Items(d), KeyBefore), esc)
  }

  /** The attributes step 3 writes, through its escape as written. */
  function TagPartsOf(name: string, d: Attrs): seq<(string, string)>
    requires Valid(d)
  {
    TagPartsWith(name, d, EscapeValue)
  }

  /** The attributes written through the corrected escape. */
  function FixedTagPartsOf(name: string, d: Attrs): seq<(string, string)>
    requires Valid(d)
  {
    TagPartsWith(name, d, EscapeQuoted)
  }

  /** `enrich_tag_match(...)` for the matched tag type, name and attribute text and the lookup's attributes. */
  function EnrichTagOf(tagType: string, name: string, existing: string, lookup: Attrs): string {
    "<" + Lower(tagType) + " " + RenderAttrs(TagPartsOf(name, FinalAttrsOf(existing, lookup))) + ">"
  }

  /** The same tag written through the corrected escape. */
  function FixedEnrichTagOf(tagType: string, name: string, existing: string, lookup: Attrs): string {
    "<" + Lower(tagType) + " " + RenderAttrs(FixedTagPartsOf(name, FinalAttrsOf(existing, lookup))) + ">"
  }

  method EnrichTag(tagType: string, name: string, existing: string, lookup: Attrs) returns (out: string)
    requires Valid(lookup)
    ensures out == EnrichTagOf(tagType, name, existing, lookup)
  {
    var entityType := Lower(tagType);
    var found := FindAttrs(existing);
    var final := ReadExisting(found);
    final := AddLookup(final, lookup);
    if lookup.keys != [] {
      final := Put(final, "match_found", Str("true"));
    } else if !HasOtherKey(final) {
      final := Put(final, "match_found", Str("false"));
    }
    var parts := WriteParts(name, final);
    out := "<" + entityType + " " + RenderAttrs(parts) + ">";
  }

  /** `for attr_match in re.finditer(...)`. */
  method ReadExisting(found: seq<(string, string)>) returns (d: Attrs)
    ensures d == ExistingAttrsOf(found)
  {
    d := Empty();
    for i := 0 to |found|
      invariant d == ExistingAttrsOf(found[..i])
    {
      assert found[..i + 1][..i] == found[..i];
      var (key, val) := found[i];
      if !IsNavn(key) {
        d := Put(d, key, Str(val));
      }
    }
    assert found[..|found|] == found;
  }

  /** `for key, value in new_attrs_from_lookup.items()`. */
  method AddLookup(d0: Attrs, lookup: Attrs) returns (d: Attrs)
    requires Valid(d0) && Valid(lookup)
    ensures d == Override(d0, lookup.keys, lookup.values)
  {
    d := d0;
    for i := 0 to |lookup.keys|
      invariant Valid(d) && d == Override(d0, lookup.keys[..i], lookup.values)
    {
      assert lookup.keys[..i + 1][..i] == lookup.keys[..i];
      var key := lookup.keys[i];
      assert key in lookup.values;
      var value := lookup.values[key];
      if value != Null {
        d := Put(d, key, value);
      }
    }
    assert lookup.keys[..|lookup.keys|] == lookup.keys;
  }

  /** `for key, value in sorted(final_attrs_to_write.items())`. */
  method WriteParts(name: string, d: Attrs) returns (parts: seq<(string, string)>)
    requires Valid(d)
    ensures parts == TagPartsOf(name, d)
  {
    var items := SortBy(CommonEndings.Items(d), KeyBefore);
    var rest := WritePairs(items, EscapeValue);
    parts := [("navn", EscapeValue(Str(name)))] + rest;
  }

  /** The loop body: `continue` on `navn`, else append `key` with its escaped value. */
  method WritePairs(items: seq<(string, Value)>, esc: Value -> string) returns (parts: seq<(string, string)>)
    ensures parts == OutputPairs(items, esc)
  {
    parts := [];
    for i := 0 to |items|
      invariant parts == OutputPairs(items[..i], esc)
    {
      assert items[..i + 1][..i] == items[..i];
      var (key, value) := items[i];
      if IsNavn(key) {
        continue;
      }
      parts := parts + [(key, esc(value))];
    }
    assert items[..|items|] == items;
  }

  /** The last pair with key `k` is the one at index `i`. */
  ghost predicate LastWith(ps: seq<(string, string)>, k: string, i: int) {
    0 <= i < |ps| && ps[i].0 == k && forall j :: i < j < |ps| ==> ps[j].0 != k
  }

  /** Existing attributes: every non-`navn` key found, holding its last value. */
  lemma ExistingSpec(ps: seq<(string, string)>, k: string)
    ensures k in ExistingAttrsOf(ps).values <==> !IsNavn(k) && exists i :: 0 <= i < |ps| && ps[i].0 == k
    ensures forall i :: LastWith(ps, k, i) && !IsNavn(k) ==> ExistingAttrsOf(ps).values[k] == Str(ps[i].1)
  {
    ExistingKeys(ps, k);
    forall i | LastWith(ps, k, i) && !IsNavn(k) ensures ExistingAttrsOf(ps).values[k] == Str(ps[i].1) {
      ExistingValue(ps, k, i);
    }
  }

  lemma {:induction false} ExistingKeys(ps: seq<(string, string)>, k: string)
    ensures k in ExistingAttrsOf(ps).values <==> !IsNavn(k) && exists i :: 0 <= i < |ps| && ps[i].0 == k
  {
    if ps != [] {
      var init := ps[..|ps| - 1];
      ExistingKeys(init, k);
      if exists i :: 0 <= i < |ps| && ps[i].0 == k {
        var i :| 0 <= i < |ps| && ps[i].0 == k;
        if i < |init| {
          assert init[i] == ps[i];
        }
      }
      if exists i :: 0 <= i < |init| && init[i].0 == k {
        var i :| 0 <= i < |init| && init[i].0 == k;
        assert ps[i] == init[i];
      }
    }
  }

  lemma {:induction false} ExistingValue(ps: seq<(string, string)>, k: string, i: int)
    requires LastWith(ps, k, i) && !IsNavn(k)
    ensures k in ExistingAttrsOf(ps).values && ExistingAttrsOf(ps).values[k] == Str(ps[i].1)
  {
    var init := ps[..|ps| - 1];
    if i < |init| {
      assert LastWith(init, k, i) by {
        assert forall j :: 0 <= j < |init| ==> init[j] == ps[j];
      }
      ExistingValue(init, k, i);
      assert ps[|ps| - 1].0 != k;
    }
  }

  /** The override: a non-`None` lookup value wins, every other key keeps its value. */
  lemma {:induction false} OverrideSpec(d: Attrs, keys: seq<string>, lookup: map<string, Value>, k: string)
    requires Valid(d)
    ensures k in Override(d, keys, lookup).values <==> k in d.values || (k in keys && k in lookup && lookup[k] != Null)
    ensures k in keys && k in lookup && lookup[k] != Null ==> Override(d, keys, lookup).values[k] == lookup[k]
    ensures !(k in keys && k in lookup && lookup[k] != Null) && k in d.values ==> Override(d, keys, lookup).values[k] == d.values[k]
  {
    if keys != [] {
      OverrideSpec(d, keys[..|keys| - 1], lookup, k);
      assert keys == keys[..|keys| - 1] + [keys[|keys| - 1]];
    }
  }

  /**
   * Every attribute except `match_found`: held when the lookup has a
   * non-`None` value for it (which then wins) or when it occurs in the
   * existing text under a name other than `navn` (holding its last value).
   */
  lemma FinalAttrsSpec(existing: string, lookup: Attrs, k: string)
    requires Valid(lookup) && k != "match_found"
    ensures var d := FinalAttrsOf(existing, lookup);
      var ps := FindAttrs(existing);
      && (k in d.values <==>
            (k in lookup.values && lookup.values[k] != Null)
            || (!IsNavn(k) && exists i :: 0 <= i < |ps| && ps[i].0 == k))
      && (k in lookup.values && lookup.values[k] != Null ==> d.values[k] == lookup.values[k])
      && (forall i :: LastWith(ps, k, i) && !IsNavn(k) && !(k in lookup.values && lookup.values[k] != Null) ==>
            d.values[k] == Str(ps[i].1))
  {
    var ps := FindAttrs(existing);
    ExistingSpec(ps, k);
    var o := Override(ExistingAttrsOf(ps), lookup.keys, lookup.values);
    OverrideSpec(ExistingAttrsOf(ps), lookup.keys, lookup.values, k);
    MarkKeeps(o, lookup, k);
    assert FinalAttrsOf(existing, lookup) == MarkMatch(o, lookup);
  }

  /** Marking the match leaves every key other than `match_found` as it was. */
  lemma MarkKeeps(o: Attrs, lookup: Attrs, k: string)
    requires Valid(o) && k != "match_found"
    ensures k in MarkMatch(o, lookup).values <==> k in o.values
    ensures k in o.values ==> MarkMatch(o, lookup).values[k] == o.values[k]
  {
  }

  /** `match_found` is "true" whenever the lookup produced attributes. */
  lemma MatchFoundTrue(existing: string, lookup: Attrs)
    requires lookup.keys != []
    ensures "match_found" in FinalAttrsOf(existing, lookup).values
    ensures FinalAttrsOf(existing, lookup).values["match_found"] == Str("true")
  {
  }

  /** Without lookup attributes and with nothing but `navn` and `match_found` in the existing text, it is "false". */
  lemma MatchFoundFalse(existing: string, lookup: Attrs)
    requires lookup.keys == []
    requires forall i :: 0 <= i < |FindAttrs(existing)| ==>
      IsNavn(FindAttrs(existing)[i].0) || FindAttrs(existing)[i].0 == "match_found"
    ensures "match_found" in FinalAttrsOf(existing, lookup).values
    ensures FinalAttrsOf(existing, lookup).values["match_found"] == Str("false")
  {
    var ps := FindAttrs(existing);
    var e := ExistingAttrsOf(ps);
    assert Override(e, lookup.keys, lookup.values) == e;
    NoOtherKey(ps);
  }

  /** Without lookup attributes but with some other existing attribute, the existing attributes are written unchanged. */
  lemma MatchFoundKept(existing: string, lookup: Attrs, i: int)
    requires lookup.keys == []
    requires 0 <= i < |FindAttrs(existing)|
    requires !IsNavn(FindAttrs(existing)[i].0) && FindAttrs(existing)[i].0 != "match_found"
    ensures FinalAttrsOf(existing, lookup) == ExistingAttrsOf(FindAttrs(existing))
  {
    var ps := FindAttrs(existing);
    var e := ExistingAttrsOf(ps);
    assert Override(e, lookup.keys, lookup.values) == e;
    FindAttrsReadable(existing);
    OtherKey(ps, i);
  }

  lemma OtherKey(ps: seq<(string, string)>, i: int)
    requires Readable(ps) && 0 <= i < |ps| && !IsNavn(ps[i].0) && ps[i].0 != "match_found"
    ensures HasOtherKey(ExistingAttrsOf(ps))
  {
    var k := ps[i].0;
    ExistingKeys(ps, k);
    assert IsNavn("navn");
    assert k in ExistingAttrsOf(ps).keys && k != [];
  }

  lemma NoOtherKey(ps: seq<(string, string)>)
    requires forall i :: 0 <= i < |ps| ==> IsNavn(ps[i].0) || ps[i].0 == "match_found"
    ensures !HasOtherKey(ExistingAttrsOf(ps))
  {
    var e := ExistingAttrsOf(ps);
    forall k | k in e.keys && k != [] && k != "navn" ensures k == "match_found" {
      ExistingKeys(ps, k);
    }
  }

  /** The sorted attributes: strictly increasing keys, exactly the non-`navn` entries, each escaped. */
  lemma TagPairsSpec(d: Attrs, esc: Value -> string)
    requires Valid(d)
    ensures var out := OutputPairs(SortBy(CommonEndings.Items(d), KeyBefore), esc);
      && (forall i, j :: 0 <= i < j < |out| ==> StrLess(out[i].0, out[j].0))
      && (forall p :: p in out <==> p.0 in d.values && !IsNavn(p.0) && p.1 == esc(d.values[p.0]))
  {
    var items := CommonEndings.Items(d);
    var sorted := SortBy(items, KeyBefore);
    forall a: (string, Value), b: (string, Value), c: (string, Value) | KeyBefore(a, b) && KeyBefore(b, c)
      ensures KeyBefore(a, c)
    {
      StrLessTransitive(a.0, b.0, c.0);
    }
    forall a: (string, Value) ensures !KeyBefore(a, a) {
      StrLessIrreflexive(a.0);
    }
    SortBySorted(items, KeyBefore);
    CommonEndings.ItemsSpec(d);
    SortByDistinctBy(items, KeyBefore, CommonEndings.Key);
    SortByElements(items, KeyBefore);
    forall i, j | 0 <= i < j < |sorted| ensures StrLess(sorted[i].0, sorted[j].0) {
      assert CommonEndings.Key(sorted[i]) != CommonEndings.Key(sorted[j]);
      assert !KeyBefore(sorted[j], sorted[i]);
      StrLessTotal(sorted[i].0, sorted[j].0);
    }
    OutputOrdered(sorted, esc);
    OutputPairsSpec(sorted, esc);
  }

  predicate KeysIncreasing(ps: seq<(string, string)>) {
    forall i, j :: 0 <= i < j < |ps| ==> StrLess(ps[i].0, ps[j].0)
  }

  /** Dropping entries keeps the keys strictly increasing. */
  lemma {:induction false} OutputOrdered(items: seq<(string, Value)>, esc: Value -> string)
    requires forall i, j :: 0 <= i < j < |items| ==> StrLess(items[i].0, items[j].0)
    ensures KeysIncreasing(OutputPairs(items, esc))
  {
    if items != [] {
      var init := items[..|items| - 1];
      var q := items[|items| - 1];
      assert forall i, j :: 0 <= i < j < |init| ==> StrLess(init[i].0, init[j].0) by {
        assert forall i :: 0 <= i < |init| ==> init[i] == items[i];
      }
      OutputOrdered(init, esc);
      OutputPairsSpec(init, esc);
      var o := OutputPairs(init, esc);
      forall i | 0 <= i < |o| ensures StrLess(o[i].0, q.0) {
        assert o[i] in o;
        var x :| x in init && !IsNavn(x.0) && o[i] == (x.0, esc(x.1));
        var m :| 0 <= m < |init| && init[m] == x;
        assert items[m] == x;
      }
      var out := OutputPairs(items, esc);
      assert init == items[..|items| - 1];
      if !IsNavn(q.0) {
        assert out == o + [(q.0, esc(q.1))];
        forall i, j | 0 <= i < j < |out| ensures StrLess(out[i].0, out[j].0) {
          if j == |o| {
            assert out[i] == o[i] && out[j] == (q.0, esc(q.1));
            assert StrLess(o[i].0, q.0);
          } else {
            assert out[i] == o[i] && out[j] == o[j];
          }
        }
      } else {
        assert out == o;
      }
    }
  }

  /** Every key of the written attributes reads back as a key. */
  lemma FinalKeys(existing: string, lookup: Attrs)
    requires Valid(lookup) && forall k :: k in lookup.keys ==> IsKey(k)
    ensures forall k :: k in FinalAttrsOf(existing, lookup).values ==> IsKey(k)
  {
    var ps := FindAttrs(existing);
    FindAttrsReadable(existing);
    forall k | k in FinalAttrsOf(existing, lookup).values ensures IsKey(k) {
      if k == "match_found" {
        assert IsKeyChar('_');
      } else {
        FinalAttrsSpec(existing, lookup, k);
        if !(k in lookup.values && lookup.values[k] != Null) {
          var i :| 0 <= i < |ps| && ps[i].0 == k;
        }
      }
    }
  }

  /** The tag begins with the lowered type and the escaped `navn`, and ends with '>'. */
  lemma TagShape(tagType: string, name: string, existing: string, lookup: Attrs)
    ensures StartsWith(EnrichTagOf(tagType, name, existing, lookup),
                       "<" + Lower(tagType) + " " + RenderAttr(("navn", EscapeValue(Str(name)))))
    ensures EndsWith(EnrichTagOf(tagType, name, existing, lookup), ">")
  {
    var parts := TagPartsOf(name, FinalAttrsOf(existing, lookup));
    TagText(Lower(tagType), parts);
  }

  lemma TagText(t: string, parts: seq<(string, string)>)
    requires |parts| >= 1
    ensures StartsWith("<" + t + " " + RenderAttrs(parts) + ">", "<" + t + " " + RenderAttr(parts[0]))
    ensures EndsWith("<" + t + " " + RenderAttrs(parts) + ">", ">")
  {
    var head := "<" + t + " " + RenderAttr(parts[0]);
    var out := "<" + t + " " + RenderAttrs(parts) + ">";
    if |parts| == 1 {
      assert out == head + ">";
    } else {
      RenderAttrsCons(parts);
      assert out == head + (" " + RenderAttrs(parts[1..]) + ">");
    }
    assert out[..|head|] == head;
  }

  /** No escaped value of the tag holds a '"': the case where the two escapes agree. */
  ghost predicate QuoteFree(name: string, d: Attrs) {
    '"' !in EscapeValue(Str(name)) && forall k :: k in d.values ==> '"' !in EscapeValue(d.values[k])
  }

  lemma {:induction false} OutputPairsAgree(items: seq<(string, Value)>)
    requires forall q :: q in items ==> '"' !in EscapeValue(q.1)
    ensures OutputPairs(items, EscapeValue) == OutputPairs(items, EscapeQuoted)
  {
    if items != [] {
      var init := items[..|items| - 1];
      var q := items[|items| - 1];
      assert forall x :: x in init ==> x in items;
      OutputPairsAgree(init);
      EscapeQuotedSpec(q.1);
    }
  }

  /** When no escaped value holds a '"', the tag as written and the corrected tag agree. */
  lemma TagPartsAgree(name: string, d: Attrs)
    requires Valid(d) && QuoteFree(name, d)
    ensures TagPartsOf(name, d) == FixedTagPartsOf(name, d)
  {
    SortedQuoteFree(d);
    OutputPairsAgree(SortBy(CommonEndings.Items(d), KeyBefore));
    EscapeQuotedSpec(Str(name));
  }

  lemma SortedQuoteFree(d: Attrs)
    requires Valid(d) && forall k :: k in d.values ==> '"' !in EscapeValue(d.values[k])
    ensures forall q :: q in SortBy(CommonEndings.Items(d), KeyBefore) ==> '"' !in EscapeValue(q.1)
  {
    var items := CommonEndings.Items(d);
    CommonEndings.ItemsSpec(d);
    SortByElements(items, KeyBefore);
  }

  /**
   * Written with the corrected escape, the tag's attribute text reads back,
   * through the same attribute pattern, as exactly `navn` followed by the
   * sorted attributes: no value can end early.
   */
  lemma FixedTagReadBack(name: string, existing: string, lookup: Attrs)
    requires Valid(lookup) && forall k :: k in lookup.keys ==> IsKey(k)
    ensures var parts := FixedTagPartsOf(name, FinalAttrsOf(existing, lookup));
      FindAttrs(RenderAttrs(parts)) == parts
  {
    var d := FinalAttrsOf(existing, lookup);
    FinalKeys(existing, lookup);
    FixedPartsReadable(name, d);
    AttrsRoundTrip(FixedTagPartsOf(name, d));
  }

  /**
   * As written, the tag reads back the same way as long as no escaped value
   * holds a '"' (`QuoteEndsValueEarly` shows what happens otherwise).
   */
  lemma TagReadBack(name: string, existing: string, lookup: Attrs)
    requires Valid(lookup) && forall k :: k in lookup.keys ==> IsKey(k)
    requires QuoteFree(name, FinalAttrsOf(existing, lookup))
    ensures var parts := TagPartsOf(name, FinalAttrsOf(existing, lookup));
      FindAttrs(RenderAttrs(parts)) == parts
  {
    TagPartsAgree(name, FinalAttrsOf(existing, lookup));
    FixedTagReadBack(name, existing, lookup);
  }

  lemma FixedPartsReadable(name: string, d: Attrs)
    requires Valid(d) && forall k :: k in d.values ==> IsKey(k)
    ensures Readable(FixedTagPartsOf(name, d))
  {
    SortedPairsReadable(d);
    EscapeQuotedSpec(Str(name));
    NavnIsKey();
    ReadableCons(("navn", EscapeQuoted(Str(name))), OutputPairs(SortBy(CommonEndings.Items(d), KeyBefore), EscapeQuoted));
  }

  lemma SortedPairsReadable(d: Attrs)
    requires Valid(d) && forall k :: k in d.values ==> IsKey(k)
    ensures Readable(OutputPairs(SortBy(CommonEndings.Items(d), KeyBefore), EscapeQuoted))
  {
    var out := OutputPairs(SortBy(CommonEndings.Items(d), KeyBefore), EscapeQuoted);
    TagPairsSpec(d, EscapeQuoted);
    forall k | 0 <= k < |out| ensures IsKey(out[k].0) && '"' !in out[k].1 && '\n' !in out[k].1 {
      assert out[k] in out;
      EscapeQuotedSpec(d.values[out[k].0]);
    }
  }

  lemma NavnIsKey()
    ensures IsKey("navn")
  {
    assert IsWordChar('n') && IsWordChar('a') && IsWordChar('v');
  }

  lemma ReadableCons(p: (string, string), ps: seq<(string, string)>)
    requires IsKey(p.0) && '"' !in p.1 && '\n' !in p.1 && Readable(ps)
    ensures Readable([p] + ps)
  {
    forall k | 0 < k < |[p] + ps| ensures ([p] + ps)[k] == ps[k - 1] {
    }
  }

  lemma PartsReadable(name: string, d: Attrs)
    requires Valid(d) && (forall k :: k in d.values ==> IsKey(k)) && QuoteFree(name, d)
    ensures Readable(TagPartsOf(name, d))
  {
    TagPartsAgree(name, d);
    FixedPartsReadable(name, d);
  }
}
