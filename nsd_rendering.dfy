/**
 * Step 4 of the document pipeline, `steg4_nsd_til_html.py`: a tagged
 * document is turned into HTML. Tags `<type key="value" ...>` are first
 * rewritten to `[[type key="value" ...]]`, an inline rule of the Markdown
 * parser recognises that syntax and reads its attributes, and each tag is
 * rendered as its display name with a tooltip table.
 *
 * The Markdown parser itself is not modelled: the inline rule works on the
 * parser's state, which is here a small class holding the source text, the
 * position and the emitted tokens.
 */
module NsdRendering {
  import opened Text
  import opened Opt
  import EntityMatching

  // ---------------------------------------------------------------------
  // Attributes: `_parse_attributes`
  // ---------------------------------------------------------------------

  /** `[^\s>]`: a character of an unquoted value. */
  predicate IsBareChar(c: char) { !IsSpace(c) && c != '>' }

  function BareLen(s: string): (n: nat)
    ensures n <= |s|
    ensures forall i :: 0 <= i < n ==> IsBareChar(s[i])
    ensures n < |s| ==> !IsBareChar(s[n])
  {
    if |s| > 0 && IsBareChar(s[0]) then 1 + BareLen(s[1..]) else 0
  }

  datatype AttrValue = AttrValue(key: string, value: string, len: nat)

  /**
   * The value part `(?:"([^"]*)"|'([^']*)'|([^\s>]+))` at the start of `t`:
   * the value and the length matched. The alternatives are tried in order:
   * a quote with a closing quote of the same kind further on gives the text
   * between them; an opening quote without its partner falls through to the
   * unquoted alternative, which then takes the quote as its first character.
   */
  function ValueAt(t: string): (r: Option<(string, nat)>)
    ensures r.Some? ==> 0 < r.value.1 <= |t|
  {
    if t == [] then None
    else
      var q := 1 + IndexOfChar(t[1..], t[0]);
      if (t[0] == '"' || t[0] == '\'') && q < |t| then Some((t[1..q], q + 1))
      else
        var b := BareLen(t);
        if b == 0 then None else Some((t[..b], b))
  }

  /**
   * A match of `([\w_:-]+)\s*=\s*` followed by a value at the start of `s`.
   * Backtracking cannot help a failed attempt: a shorter key or whitespace
   * run leaves a key or space character where '=' or a value is needed.
   */
  function AttributeAt(s: string): (a: Option<AttrValue>)
    ensures a.Some? ==> 0 < a.value.len <= |s| && EntityMatching.IsKey(a.value.key)
  {
    var j := EntityMatching.KeyLen(s);
    if j == 0 then None
    else
      var k := SpaceRunEnd(s, j);
      if k == |s| || s[k] != '=' then None
      else
        var m := SpaceRunEnd(s, k + 1);
        WithKey(s[..j], m, ValueAt(s[m..]))
  }

  /** The attribute with key `k` whose value part, read from offset `off`, is `v`. */
  function WithKey(k: string, off: nat, v: Option<(string, nat)>): Option<AttrValue> {
    match v
    case None => None
    case Some(v) => Some(AttrValue(k, v.0, off + v.1))
  }

  /** `re.finditer(attr_regex, s)`, as (key, value) pairs in order. */
  function ScanAttributes(s: string): (ps: seq<(string, string)>)
    decreases |s|
  {
    if s == [] then []
    else match AttributeAt(s)
      case Some(a) => [(a.key, a.value)] + ScanAttributes(s[a.len..])
      case None => ScanAttributes(s[1..])
  }

  /** The dictionary filled from the pairs in order: a later key overwrites. */
  function AttrMapOf(ps: seq<(string, string)>): map<string, string>
  {
    if ps == [] then map[]
    else AttrMapOf(ps[..|ps| - 1])[ps[|ps| - 1].0 := ps[|ps| - 1].1]
  }

  method ParseAttributes(text: string) returns (attributes: map<string, string>)
    ensures attributes == AttrMapOf(ScanAttributes(text))
  {
    var found := ScanAttributes(text);
    attributes := map[];
    var i := 0;
    while i < |found|
      invariant i <= |found|
      invariant attributes == AttrMapOf(found[..i])
    {
      attributes := attributes[found[i].0 := found[i].1];
      i := i + 1;
      assert found[..i][..i - 1] == found[..i - 1];
    }
    assert found[..i] == found;
  }

  /** Each key read holds the value of its last occurrence, and no other key is present. */
  lemma {:induction false} AttrMapSpec(ps: seq<(string, string)>, k: string)
    ensures k in AttrMapOf(ps) <==> exists i :: 0 <= i < |ps| && ps[i].0 == k
    ensures forall i :: EntityMatching.LastWith(ps, k, i) ==> AttrMapOf(ps)[k] == ps[i].1
  {
    if ps != [] {
      var init := ps[..|ps| - 1];
      AttrMapSpec(init, k);
      if ps[|ps| - 1].0 != k {
        AttrMapOtherKey(ps, k);
      } else {
        AttrMapLastKey(ps, k);
      }
    }
  }

  /** A last pair with another key leaves `k` as the shorter list has it. */
  lemma AttrMapOtherKey(ps: seq<(string, string)>, k: string)
    requires ps != [] && ps[|ps| - 1].0 != k
    ensures var init := ps[..|ps| - 1];
      (k in AttrMapOf(ps) <==> k in AttrMapOf(init))
      && (k in AttrMapOf(init) ==> AttrMapOf(ps)[k] == AttrMapOf(init)[k])
      && ((exists i :: 0 <= i < |ps| && ps[i].0 == k) <==> exists i :: 0 <= i < |init| && init[i].0 == k)
      && forall i :: EntityMatching.LastWith(ps, k, i) ==> EntityMatching.LastWith(init, k, i)
  {
    var init := ps[..|ps| - 1];
    forall i | 0 <= i < |ps| && ps[i].0 == k ensures 0 <= i < |init| && init[i].0 == k {
    }
    forall i | 0 <= i < |init| && init[i].0 == k ensures ps[i].0 == k {
    }
  }

  /** A last pair with key `k` gives `k` its value, and it is the last occurrence. */
  lemma AttrMapLastKey(ps: seq<(string, string)>, k: string)
    requires ps != [] && ps[|ps| - 1].0 == k
    ensures k in AttrMapOf(ps) && AttrMapOf(ps)[k] == ps[|ps| - 1].1
    ensures forall i :: EntityMatching.LastWith(ps, k, i) ==> i == |ps| - 1
  {
  }

  lemma KeyLenIs(s: string, n: nat)
    requires n < |s| && !EntityMatching.IsKeyChar(s[n])
    requires forall i :: 0 <= i < n ==> EntityMatching.IsKeyChar(s[i])
    ensures EntityMatching.KeyLen(s) == n
    decreases n
  {
    if n > 0 {
      KeyLenIs(s[1..], n - 1);
    }
  }

  lemma IndexOfCharIs(s: string, c: char, n: nat)
    requires n < |s| && s[n] == c && forall i :: 0 <= i < n ==> s[i] != c
    ensures IndexOfChar(s, c) == n
    decreases n
  {
    if n > 0 {
      IndexOfCharIs(s[1..], c, n - 1);
    }
  }

  lemma BareLenIs(s: string, n: nat)
    requires n <= |s| && (n == |s| || !IsBareChar(s[n]))
    requires forall i :: 0 <= i < n ==> IsBareChar(s[i])
    ensures BareLen(s) == n
    decreases n
  {
    if n > 0 {
      BareLenIs(s[1..], n - 1);
    }
  }

  /** A key of length `j` directly followed by '=' and a non-space: the value part is read after the '='. */
  lemma AttributeAfterEq(s: string, j: nat)
    requires 0 < j < |s| && EntityMatching.KeyLen(s) == j && s[j] == '='
    requires j + 1 == |s| || !IsSpace(s[j + 1])
    ensures AttributeAt(s) == WithKey(s[..j], j + 1, ValueAt(s[j + 1..]))
  {
    assert SpaceRunEnd(s, j) == j;
    assert SpaceRunEnd(s, j + 1) == j + 1;
  }

  /** After `k=`, with no spaces around the '=', the value part is read. */
  lemma KeyThenValue(k: string, t: string, s: string)
    requires EntityMatching.IsKey(k) && t != [] && !IsSpace(t[0]) && s == k + "=" + t
    ensures AttributeAt(s) == WithKey(k, |k| + 1, ValueAt(t))
  {
    assert forall i :: 0 <= i < |k| ==> s[i] == k[i];
    KeyLenIs(s, |k|);
    assert s[|k| + 1] == t[0];
    AttributeAfterEq(s, |k|);
    assert s[..|k|] == k;
    assert s[|k| + 1..] == t;
  }

  lemma QuotedValue(v: string, rest: string, q: char, t: string)
    requires q !in v && (q == '"' || q == '\'') && t == [q] + v + [q] + rest
    ensures ValueAt(t) == Some((v, |v| + 2))
  {
    assert t[1..] == v + [q] + rest;
    IndexOfCharIs(t[1..], q, |v|);
    assert t[1..|v| + 1] == v;
  }

  /** `k="v"`: the double-quoted alternative gives `v`. */
  lemma DoubleQuotedValue(k: string, v: string, rest: string)
    requires EntityMatching.IsKey(k) && '"' !in v
    ensures AttributeAt(k + "=\"" + v + "\"" + rest) == Some(AttrValue(k, v, |k| + |v| + 3))
  {
    var t := ['"'] + v + ['"'] + rest;
    QuotedValue(v, rest, '"', t);
    KeyThenValue(k, t, k + "=\"" + v + "\"" + rest);
  }

  /** `k='v'`: the single-quoted alternative gives `v`. */
  lemma SingleQuotedValue(k: string, v: string, rest: string)
    requires EntityMatching.IsKey(k) && '\'' !in v
    ensures AttributeAt(k + "='" + v + "'" + rest) == Some(AttrValue(k, v, |k| + |v| + 3))
  {
    var t := ['\''] + v + ['\''] + rest;
    QuotedValue(v, rest, '\'', t);
    KeyThenValue(k, t, k + "='" + v + "'" + rest);
  }

  lemma BareValueAt(v: string, rest: string)
    requires v != [] && v[0] != '"' && v[0] != '\''
    requires forall i :: 0 <= i < |v| ==> IsBareChar(v[i])
    requires rest == [] || !IsBareChar(rest[0])
    ensures ValueAt(v + rest) == Some((v, |v|))
  {
    BareLenIs(v + rest, |v|);
    assert (v + rest)[..|v|] == v;
  }

  lemma ScanAttributesAt(s: string, a: AttrValue)
    requires s != [] && AttributeAt(s) == Some(a)
    ensures ScanAttributes(s) == [(a.key, a.value)] + ScanAttributes(s[a.len..])
  {
  }

  lemma ScanAttributesSpace(t: string)
    ensures ScanAttributes(" " + t) == ScanAttributes(t)
  {
    assert EntityMatching.KeyLen(" " + t) == 0;
    assert (" " + t)[1..] == t;
  }

  /** Pairs with attribute keys and values free of '"'. */
  predicate Quotable(ps: seq<(string, string)>) {
    forall k :: 0 <= k < |ps| ==> EntityMatching.IsKey(ps[k].0) && '"' !in ps[k].1
  }

  lemma QuotableTail(ps: seq<(string, string)>)
    requires Quotable(ps) && ps != []
    ensures Quotable(ps[1..])
  {
    forall k | 0 <= k < |ps[1..]| ensures EntityMatching.IsKey(ps[1..][k].0) && '"' !in ps[1..][k].1 {
      assert ps[1..][k] == ps[k + 1];
    }
  }

  lemma ScanRenderedOne(p: (string, string), rest: string)
    requires EntityMatching.IsKey(p.0) && '"' !in p.1
    ensures ScanAttributes(EntityMatching.RenderAttr(p) + rest) == [p] + ScanAttributes(rest)
  {
    var s := p.0 + "=\"" + p.1 + "\"" + rest;
    var a := AttrValue(p.0, p.1, |p.0| + |p.1| + 3);
    DoubleQuotedValue(p.0, p.1, rest);
    ScanAttributesAt(s, a);
    assert s[a.len..] == rest;
    assert EntityMatching.RenderAttr(p) + rest == s;
  }

  /** The attributes the entity step writes, `k="v"` separated by spaces, are read back exactly. */
  lemma {:induction false} ScanRendered(ps: seq<(string, string)>)
    requires Quotable(ps)
    ensures ScanAttributes(EntityMatching.RenderAttrs(ps)) == ps
  {
    if |ps| == 1 {
      var first := EntityMatching.RenderAttr(ps[0]);
      assert EntityMatching.RenderAttrs(ps) == first;
      ScanRenderedOne(ps[0], []);
      assert first + [] == first;
    } else if |ps| >= 2 {
      QuotableTail(ps);
      ScanRendered(ps[1..]);
      EntityMatching.RenderAttrsCons(ps);
      var rest := EntityMatching.RenderAttrs(ps[1..]);
      ScanRenderedOne(ps[0], " " + rest);
      ScanAttributesSpace(rest);
      assert ps == [ps[0]] + ps[1..];
    }
  }

  // ---------------------------------------------------------------------
  // The inline rule for `[[type attributes]]`: `nsd_tag_rule`
  // ---------------------------------------------------------------------

  /** `s.split(maxsplit=1)`: the first word and, when something follows, the rest after its separating whitespace. */
  function SplitFirst(s: string): (parts: seq<string>)
    ensures |parts| <= 2
  {
    var t := LStrip(s);
    if t == [] then []
    else
      var n := WordLen(t);
      var rest := LStrip(t[n..]);
      if rest == [] then [t[..n]] else [t[..n], rest]
  }

  /** What a successful match of the rule read: the tag type, the attribute text and where the tag ends. */
  datatype TagScan = TagScan(tagType: string, attrText: string, end: nat)

  /** `tag_full_content.strip().split(maxsplit=1)`. */
  function ContentParts(content: string): seq<string> {
    SplitFirst(Strip(content))
  }

  /**
   * The steps of the rule at position `pos` of `src`, without the state,
   * with the splitting of the tag's content as a parameter: `None` when the
   * rule does not match.
   */
  function TagRuleWith(src: string, pos: nat, split: string -> seq<string>): (r: Option<TagScan>)
    ensures r.Some? ==> pos + 4 <= r.value.end <= |src|
  {
    if !(pos + 2 <= |src| && src[pos..pos + 2] == "[[") then None
    else
      var start := pos + 2;
      if start >= |src| then None
      else
        var close := FindFrom(src, "]]", start);
        if close == -1 then None
        else
          var parts := split(src[start..close]);
          if |parts| == 0 then None
          else Some(TagScan(parts[0], if |parts| > 1 then parts[1] else "", close + 2))
  }

  /** The rule as the source runs it. */
  function TagRuleOf(src: string, pos: nat): Option<TagScan> {
    TagRuleWith(src, pos, ContentParts)
  }

  /** `k` is the first occurrence of "]]" after the "[[" at `pos`. */
  ghost predicate ClosesAt(src: string, pos: nat, k: nat) {
    pos + 2 <= k && OccursAt(src, "]]", k) && forall j :: pos + 2 <= j < k ==> !OccursAt(src, "]]", j)
  }

  datatype NsdToken = NsdToken(tagType: string, attributes: map<string, string>)

  function TokenOf(t: TagScan): NsdToken {
    NsdToken(t.tagType, AttrMapOf(ScanAttributes(t.attrText)))
  }

  /** The rule's reading steps: which tag, if any, starts at `pos`. */
  method ScanTag(src: string, pos: nat, split: string -> seq<string>) returns (r: Option<TagScan>)
    ensures r == TagRuleWith(src, pos, split)
  {
    if !(pos + 2 <= |src| && src[pos..pos + 2] == "[[") {
      return None;
    }
    var start := pos + 2;
    if start >= |src| {
      return None;
    }
    var close := FindFrom(src, "]]", start);
    if close == -1 {
      return None;
    }
    var parts := split(src[start..close]);
    if |parts| == 0 {
      return None;
    }
    var tagType := parts[0];
    var attrText := if |parts| > 1 then parts[1] else "";
    return Some(TagScan(tagType, attrText, close + 2));
  }

  /** The part of the inline parser state the rule reads and changes. */
  class InlineState {
    const src: string
    var pos: nat
    var tokens: seq<NsdToken>

    constructor (src: string, pos: nat)
      ensures this.src == src && this.pos == pos && tokens == []
    {
      this.src := src;
      this.pos := pos;
      tokens := [];
    }

    /**
     * Tries the rule at the current position. On a match the position moves
     * past the closing "]]" and, unless `silent`, one token with the tag type
     * and the parsed attributes is pushed; otherwise nothing changes.
     */
    method NsdTagRule(silent: bool) returns (ok: bool)
      modifies this
      ensures ok <==> TagRuleOf(src, old(pos)).Some?
      ensures !ok ==> pos == old(pos) && tokens == old(tokens)
      ensures ok ==> pos == TagRuleOf(src, old(pos)).value.end
      ensures ok && silent ==> tokens == old(tokens)
      ensures ok && !silent ==> tokens == old(tokens) + [TokenOf(TagRuleOf(src, old(pos)).value)]
    {
      ok := RuleWith(silent, ContentParts);
    }

    /** The rule with the content splitting as a parameter. */
    method RuleWith(silent: bool, split: string -> seq<string>) returns (ok: bool)
      modifies this
      ensures ok <==> TagRuleWith(src, old(pos), split).Some?
      ensures !ok ==> pos == old(pos) && tokens == old(tokens)
      ensures ok ==> pos == TagRuleWith(src, old(pos), split).value.end
      ensures ok && silent ==> tokens == old(tokens)
      ensures ok && !silent ==> tokens == old(tokens) + [TokenOf(TagRuleWith(src, old(pos), split).value)]
    {
      var scan := ScanTag(src, pos, split);
      if scan == None {
        return false;
      }
      if !silent {
        PushToken(scan.value);
      }
      pos := scan.value.end;
      return true;
    }

    /** `state.push("nsd_tag", ...)` with the tag type and the parsed attributes in its meta data. */
    method PushToken(scan: TagScan)
      modifies this
      ensures pos == old(pos) && tokens == old(tokens) + [TokenOf(scan)]
    {
      var attributes := ParseAttributes(scan.attrText);
      tokens := tokens + [NsdToken(scan.tagType, attributes)];
    }
  }

  lemma SplitFirstEmpty(s: string)
    ensures SplitFirst(s) == [] <==> Strip(s) == []
  {
    var t := LStrip(s);
    if t != [] {
      assert !IsSpace(t[0]);
      assert RStrip(t) != [];
    }
  }

  /** The first part is the first of `str.split()`'s words. */
  lemma SplitFirstWord(s: string)
    requires SplitFirst(s) != []
    ensures Words(s) != [] && SplitFirst(s)[0] == Words(s)[0]
  {
  }

  lemma SplitFirstWordOnly(w: string)
    requires w != [] && NoSpace(w)
    ensures SplitFirst(Strip(w + " ")) == [w]
  {
    var s := w + " ";
    assert s[..|s| - 1] == w;
    assert RStrip(w) == w;
    assert Strip(s) == w;
    WordLenNoSpace(w);
    assert w[..|w|] == w && w[|w|..] == [];
  }

  lemma SplitFirstWordRest(w: string, a: string)
    requires w != [] && NoSpace(w) && IsStripped(a) && a != []
    ensures SplitFirst(Strip(w + " " + a)) == [w, a]
  {
    var tail := " " + a;
    var s := w + tail;
    assert w + " " + a == s;
    assert s[0] == w[0] && s[|s| - 1] == a[|a| - 1];
    StripOfStripped(s);
    assert LStrip(s) == s;
    WordLenAppend(w, tail);
    assert s[..|w|] == w && s[|w|..] == tail;
    LStripSpace(a);
  }

  lemma LStripSpace(a: string)
    requires a != [] && !IsSpace(a[0])
    ensures LStrip(" " + a) == a
  {
    assert (" " + a)[1..] == a;
  }

  /** A word, a space and a stripped rest, stripped and split once, give the word and the rest. */
  lemma SplitFirstOf(w: string, a: string)
    requires w != [] && NoSpace(w) && IsStripped(a)
    ensures SplitFirst(Strip(w + " " + a)) == if a == [] then [w] else [w, a]
  {
    if a == [] {
      assert w + " " + a == w + " ";
      SplitFirstWordOnly(w);
    } else {
      SplitFirstWordRest(w, a);
    }
  }

  /** The rule, for any splitting of the content: where it matches and what it reads. */
  lemma TagRuleWithSpec(src: string, pos: nat, split: string -> seq<string>)
    ensures TagRuleWith(src, pos, split).Some? <==>
      pos + 2 <= |src| && src[pos..pos + 2] == "[[" &&
      exists k: nat :: ClosesAt(src, pos, k) && |split(src[pos + 2..k])| > 0
    ensures TagRuleWith(src, pos, split).Some? ==>
      var t := TagRuleWith(src, pos, split).value;
      var parts := split(src[pos + 2..t.end - 2]);
      ClosesAt(src, pos, t.end - 2) && |parts| > 0 && t.tagType == parts[0] &&
      t.attrText == if |parts| > 1 then parts[1] else ""
  {
    if pos + 2 <= |src| && src[pos..pos + 2] == "[[" {
      var close := FindFrom(src, "]]", pos + 2);
      if close != -1 {
        assert ClosesAt(src, pos, close);
        forall k: nat | ClosesAt(src, pos, k) ensures k == close {
        }
      }
    }
  }

  /** "[[" starts at `pos`, a "]]" follows and the text before the first one is not blank. */
  ghost predicate OpensTagAt(src: string, pos: nat) {
    pos + 2 <= |src| && src[pos..pos + 2] == "[[" &&
    exists k: nat :: ClosesAt(src, pos, k) && Strip(src[pos + 2..k]) != []
  }

  /** `t` ends after the first "]]" following `pos`, and its tag type is the first word of the text before it. */
  ghost predicate ReadsFirstWord(src: string, pos: nat, t: TagScan) {
    t.end >= 2 && ClosesAt(src, pos, t.end - 2) && Words(Strip(src[pos + 2..t.end - 2])) != [] &&
    t.tagType == Words(Strip(src[pos + 2..t.end - 2]))[0]
  }

  /** The rule fails unless "[[" starts at `pos`, a "]]" follows and the text before the first one is not blank; the tag type is that text's first word. */
  lemma TagRuleSpec(src: string, pos: nat)
    ensures TagRuleOf(src, pos).Some? <==> OpensTagAt(src, pos)
    ensures TagRuleOf(src, pos).Some? ==> ReadsFirstWord(src, pos, TagRuleOf(src, pos).value)
  {
    ContentPartsFacts();
    TagRuleWithStrip(src, pos, ContentParts);
  }

  /** `TagRuleWithSpec` for a splitting that behaves like `strip().split(maxsplit=1)` on the first word. */
  lemma TagRuleWithStrip(src: string, pos: nat, split: string -> seq<string>)
    requires forall c :: |split(c)| > 0 <==> Strip(c) != []
    requires forall c :: |split(c)| > 0 ==> Words(Strip(c)) != [] && split(c)[0] == Words(Strip(c))[0]
    ensures TagRuleWith(src, pos, split).Some? <==> OpensTagAt(src, pos)
    ensures TagRuleWith(src, pos, split).Some? ==> ReadsFirstWord(src, pos, TagRuleWith(src, pos, split).value)
  {
    TagRuleWithSpec(src, pos, split);
  }

  lemma ContentPartsFacts()
    ensures forall c :: |ContentParts(c)| > 0 <==> Strip(c) != []
    ensures forall c :: |ContentParts(c)| > 0 ==> Words(Strip(c)) != [] && ContentParts(c)[0] == Words(Strip(c))[0]
  {
    forall c ensures |ContentParts(c)| > 0 <==> Strip(c) != [] {
      ContentPartsEmpty(c);
    }
    forall c | |ContentParts(c)| > 0 ensures Words(Strip(c)) != [] && ContentParts(c)[0] == Words(Strip(c))[0] {
      SplitFirstWord(Strip(c));
    }
  }

  lemma ContentPartsEmpty(content: string)
    ensures ContentParts(content) == [] <==> Strip(content) == []
  {
    SplitFirstEmpty(Strip(content));
    StripOfStripped(Strip(content));
  }

  lemma FindFromIs(s: string, sub: string, start: nat, k: nat)
    requires start <= k && OccursAt(s, sub, k)
    requires forall j :: start <= j < k ==> !OccursAt(s, sub, j)
    ensures FindFrom(s, sub, start) == k
  {
  }

  /** In `pre + "[[" + content + "]]" + rest` with no ']' in `content`, the search from after "[[" finds the "]]" after `content`. */
  lemma CloseAfter(pre: string, content: string, rest: string)
    requires ']' !in content
    ensures var src := pre + "[[" + content + "]]" + rest;
      var start := |pre| + 2;
      src[|pre|..start] == "[[" && src[start..start + |content|] == content &&
      FindFrom(src, "]]", start) == start + |content|
  {
    var src := pre + "[[" + content + "]]" + rest;
    var start := |pre| + 2;
    var close := start + |content|;
    assert src[|pre|..start] == "[[";
    assert src[start..close] == content;
    assert src[close..close + 2] == "]]";
    forall j | start <= j < close ensures !OccursAt(src, "]]", j) {
      assert src[j] == content[j - start] && content[j - start] in content;
      assert j + 2 <= |src| ==> src[j..j + 2][0] == src[j];
    }
    FindFromIs(src, "]]", start, close);
  }

  /** `[[content]]` at position `|pre|`, with no ']' in `content`: the rule reads the splitting of `content`. */
  lemma TagRuleWithReads(pre: string, content: string, rest: string, split: string -> seq<string>)
    requires ']' !in content
    ensures var parts := split(content);
      TagRuleWith(pre + "[[" + content + "]]" + rest, |pre|, split) ==
        if |parts| == 0 then None
        else Some(TagScan(parts[0], if |parts| > 1 then parts[1] else "", |pre| + |content| + 4))
  {
    CloseAfter(pre, content, rest);
  }

  lemma TagRuleWithReadsAs(pre: string, content: string, rest: string, split: string -> seq<string>, w: string, a: string)
    requires ']' !in content
    requires split(content) == if a == [] then [w] else [w, a]
    requires |content| == |w| + |a| + 1
    ensures TagRuleWith(pre + "[[" + content + "]]" + rest, |pre|, split) == Some(TagScan(w, a, |pre| + |w| + |a| + 5))
  {
    TagRuleWithReads(pre, content, rest, split);
  }

  lemma TagContentOf(w: string, a: string)
    requires w != [] && NoSpace(w) && ']' !in w
    requires IsStripped(a) && ']' !in a
    ensures ']' !in w + " " + a
    ensures ContentParts(w + " " + a) == if a == [] then [w] else [w, a]
  {
    var content := w + " " + a;
    assert forall i :: 0 <= i < |content| ==> content[i] == (if i < |w| then w[i] else if i == |w| then ' ' else a[i - |w| - 1]);
    SplitFirstOf(w, a);
  }

  /** `[[w a]]` at position `|pre|`: the rule reads the tag type `w` and the attribute text `a`. */
  lemma TagRuleReads(pre: string, w: string, a: string, rest: string)
    requires w != [] && NoSpace(w) && ']' !in w
    requires IsStripped(a) && ']' !in a
    ensures TagRuleOf(pre + "[[" + (w + " " + a) + "]]" + rest, |pre|) ==
      Some(TagScan(w, a, |pre| + |w| + |a| + 5))
  {
    var content := w + " " + a;
    assert |content| == |w| + |a| + 1;
    TagContentOf(w, a);
    TagRuleWithReadsAs(pre, content, rest, ContentParts, w, a);
  }

  // ---------------------------------------------------------------------
  // Rewriting `<tag ...>` to `[[tag ...]]`: `preprocess_nsd_to_commonmark`
  // ---------------------------------------------------------------------

  /** Length of the leading run of `\w` characters. */
  function WordRun(s: string): (n: nat)
    ensures n <= |s|
    ensures forall i :: 0 <= i < n ==> IsWordChar(s[i])
    ensures n < |s| ==> !IsWordChar(s[n])
  {
    if |s| > 0 && IsWordChar(s[0]) then 1 + WordRun(s[1..]) else 0
  }

  /** What `\w+\s+[^>]*?` can match inside the angle brackets: a word, whitespace, then anything without '>'. */
  predicate IsTagContent(c: string) {
    var w := WordRun(c);
    0 < w < |c| && IsSpace(c[w]) && '>' !in c
  }

  /**
   * A match of `<(\w+\s+[^>]*?)>` at the start of `s`: the index of its '>'.
   * The word run is maximal, since a shorter one leaves a word character
   * where whitespace is needed, and the lazy part stops at the first '>'.
   */
  function TagEndAt(s: string): (g: Option<nat>)
    ensures g.Some? ==> 1 < g.value < |s|
  {
    if |s| == 0 || s[0] != '<' then None
    else
      var w := WordRun(s[1..]);
      if w == 0 || 1 + w == |s| || !IsSpace(s[1 + w]) then None
      else
        var g := 1 + w + IndexOfChar(s[1 + w..], '>');
        if g == |s| then None else Some(g)
  }

  /** `re.sub(r"<(\w+\s+[^>]*?)>", r"[[\1]]", s)`, scanning left to right. */
  function Preprocess(s: string): string
    decreases |s|
  {
    if s == [] then []
    else match TagEndAt(s)
      case Some(g) => "[[" + s[1..g] + "]]" + Preprocess(s[g + 1..])
      case None => [s[0]] + Preprocess(s[1..])
  }

  /** `s` starts with `<c>` where `c` is tag content. */
  ghost predicate TagPattern(s: string, g: nat) {
    1 < g < |s| && s[0] == '<' && s[g] == '>' && IsTagContent(s[1..g])
  }

  lemma WordRunExtend(c: string, y: string)
    requires WordRun(c) < |c|
    ensures WordRun(c + y) == WordRun(c)
    decreases |c|
  {
    if WordRun(c) > 0 {
      assert (c + y)[1..] == c[1..] + y;
      WordRunExtend(c[1..], y);
    }
  }

  lemma WordRunPrefix(x: string, n: nat)
    requires WordRun(x) < n <= |x|
    ensures WordRun(x[..n]) == WordRun(x)
    decreases n
  {
    if WordRun(x) > 0 {
      assert x[..n][1..] == x[1..][..n - 1];
      WordRunPrefix(x[1..], n - 1);
    }
  }

  /** `<c>` with tag content `c`, followed by anything, is a match ending at its '>'. */
  lemma TagEndOf(c: string, rest: string)
    requires IsTagContent(c)
    ensures TagEndAt("<" + c + ">" + rest) == Some(|c| + 1)
  {
    var s := "<" + c + ">" + rest;
    var w := WordRun(c);
    assert s[1..] == c + (">" + rest);
    WordRunExtend(c, ">" + rest);
    assert s[1 + w] == c[w];
    var t := s[1 + w..];
    forall i | 0 <= i < |c| - w ensures t[i] != '>' {
      assert t[i] == c[w + i];
    }
    assert t[|c| - w] == '>';
    IndexOfCharIs(t, '>', |c| - w);
  }

  /** A match has the shape of the pattern. */
  lemma TagEndSound(s: string)
    requires TagEndAt(s).Some?
    ensures TagPattern(s, TagEndAt(s).value)
  {
    var g := TagEndAt(s).value;
    var x := s[1..];
    var w := WordRun(x);
    var c := s[1..g];
    assert c == x[..g - 1];
    WordRunPrefix(x, g - 1);
    forall i | 0 <= i < |c| ensures c[i] != '>' {
      if i >= w {
        assert c[i] == s[1 + w..][i - w];
      }
    }
  }

  /** The rewrite matches exactly at a `<`, tag content and the first following `>`. */
  lemma TagEndSpec(s: string, g: nat)
    ensures TagEndAt(s) == Some(g) <==> TagPattern(s, g)
  {
    if TagEndAt(s).Some? {
      TagEndSound(s);
    }
    if TagPattern(s, g) {
      var c := s[1..g];
      assert s == "<" + c + ">" + s[g + 1..];
      TagEndOf(c, s[g + 1..]);
    }
  }

  /** Text without '<' is copied unchanged. */
  lemma {:induction false} PreprocessPlain(x: string, rest: string)
    requires '<' !in x
    ensures Preprocess(x + rest) == x + Preprocess(rest)
  {
    if x != [] {
      var s := x + rest;
      assert s[0] == x[0];
      assert TagEndAt(s) == None;
      assert s[1..] == x[1..] + rest;
      assert Preprocess(s) == [x[0]] + Preprocess(x[1..] + rest);
      PreprocessPlain(x[1..], rest);
      assert [x[0]] + (x[1..] + Preprocess(rest)) == ([x[0]] + x[1..]) + Preprocess(rest);
      assert x == [x[0]] + x[1..];
    } else {
      assert x + rest == rest && x + Preprocess(rest) == Preprocess(rest);
    }
  }

  /** A tag `<c>` becomes `[[c]]`, and scanning goes on after its '>'. */
  lemma PreprocessTag(c: string, rest: string)
    requires IsTagContent(c)
    ensures Preprocess("<" + c + ">" + rest) == "[[" + c + "]]" + Preprocess(rest)
  {
    var s := "<" + c + ">" + rest;
    TagEndOf(c, rest);
    assert s[1..|c| + 1] == c;
    assert s[|c| + 2..] == rest;
    PreprocessAt(s, |c| + 1, c, rest);
  }

  /** `Preprocess` where a tag ends at `g`: its content `c` in brackets, then the text `rest` after it. */
  lemma PreprocessAt(s: string, g: nat, c: string, rest: string)
    requires s != [] && TagEndAt(s) == Some(g) && g < |s| && c == s[1..g] && rest == s[g + 1..]
    ensures Preprocess(s) == "[[" + c + "]]" + Preprocess(rest)
  {
  }

  // ---------------------------------------------------------------------
  // The tooltip of a tag: `_build_interactive_tag_html`
  // ---------------------------------------------------------------------

  predicate IsSign(c: char) { c == '+' || c == '-' }

  function DropSign(s: string): (r: string)
    ensures |r| <= |s|
  {
    if |s| > 0 && IsSign(s[0]) then s[1..] else s
  }

  function DigitRun(s: string): (n: nat)
    ensures n <= |s|
    ensures forall i :: 0 <= i < n ==> IsDigit(s[i])
    ensures n < |s| ==> !IsDigit(s[n])
  {
    if |s| > 0 && IsDigit(s[0]) then 1 + DigitRun(s[1..]) else 0
  }

  predicate AllDigits(s: string) { s != [] && forall i :: 0 <= i < |s| ==> IsDigit(s[i]) }

  /** Digits with at most one '.', at least one digit, then optionally `e` or `E`, a sign and digits. */
  predicate IsDecimal(u: string) {
    var i := DigitRun(u);
    var dot := i < |u| && u[i] == '.';
    var frac := if dot then DigitRun(u[i + 1..]) else 0;
    var j := if dot then i + 1 + frac else i;
    i + frac > 0 && (j == |u| || ((u[j] == 'e' || u[j] == 'E') && AllDigits(DropSign(u[j + 1..]))))
  }

  /** `u` spells `word` in any mix of cases. */
  predicate SpellsIgnoringCase(u: string, word: string) {
    |u| == |word| && forall i :: 0 <= i < |u| ==> LowerChar(u[i]) == word[i]
  }

  /** `float(s)` succeeds: a signed decimal or one of `inf`, `infinity`, `nan`, with whitespace around. */
  predicate IsFloatText(s: string) {
    var u := DropSign(Strip(s));
    IsDecimal(u) || SpellsIgnoringCase(u, "inf") || SpellsIgnoringCase(u, "infinity") || SpellsIgnoringCase(u, "nan")
  }

  /** A row of the tooltip table: a labelled value, the position, or the map link. */
  datatype Row = TextRow(caption: string, value: string) | PositionRow(lat: string, lon: string) | MapRow(lat: string, lon: string)

  /** `key_display_order`: the keys shown, in order, with their labels. */
  const DisplayOrder: seq<(string, string)> := [
    ("navn", "Navn"), ("id", "ID"), ("eier", "Eier"), ("kommune", "Kommune"),
    ("status", "Status"), ("ytelse_MW", "Ytelse (MW)"), ("vassdragsNr", "Vassdragsnr."),
    ("magasinNr", "Magasinnr."), ("areal_km2", "Areal (km\U{b2})"),
    ("center_lat", "Latitude"), ("center_lon", "Longitude"),
    ("lat", "Latitude"), ("lon", "Longitude")]

  predicate IsLatKey(k: string) { k == "center_lat" || k == "lat" }
  predicate IsLonKey(k: string) { k == "center_lon" || k == "lon" }

  /** The first row: the `type` attribute, or else the tag type, capitalised. */
  function TypeRow(attrs: map<string, string>, tagType: string): Row {
    TextRow("Type", Capitalize(if "type" in attrs then attrs["type"] else tagType))
  }

  /** The rows so far and `processed_keys`. */
  datatype RowState = RowState(rows: seq<Row>, processed: set<string>)

  /** `k` is present with a value that is not blank. */
  predicate Shown(attrs: map<string, string>, k: string) {
    k in attrs && Strip(attrs[k]) != []
  }

  /**
   * One round of the loop over the display order. For a latitude key the
   * position row is added when the matching longitude is present and both
   * parse as numbers; the source then marks the latitude's VALUE as
   * processed, not its key.
   */
  function RowStep(attrs: map<string, string>, st: RowState, entry: (string, string)): RowState {
    var (key, display) := entry;
    if key in st.processed || !Shown(attrs, key) then st
    else if IsLatKey(key) then
      var lonKey := if "center_lon" in attrs then "center_lon" else "lon";
      if lonKey !in attrs then st
      else
        var latVal := attrs[key];
        var lonVal := attrs[lonKey];
        var rows := if latVal != [] && lonVal != [] && IsFloatText(latVal) && IsFloatText(lonVal)
          then st.rows + [PositionRow(latVal, lonVal)] else st.rows;
        RowState(rows, st.processed + {latVal} + {lonKey})
    else if IsLonKey(key) then st
    else RowState(st.rows + [TextRow(display, attrs[key])], st.processed + {key})
  }

  /** The rows after the type row and a loop over `order`. */
  function RowsOf(attrs: map<string, string>, tagType: string, order: seq<(string, string)>): RowState {
    if order == [] then RowState([TypeRow(attrs, tagType)], {"type"})
    else RowStep(attrs, RowsOf(attrs, tagType, order[..|order| - 1]), order[|order| - 1])
  }

  /** `attributes.get(primary, attributes.get(fallback))`. */
  function CoordOf(attrs: map<string, string>, primary: string, fallback: string): Option<string> {
    if primary in attrs then Some(attrs[primary])
    else if fallback in attrs then Some(attrs[fallback])
    else None
  }

  /** The coordinates of the map link, when both are present, not empty and numeric. */
  function MapLinkOf(attrs: map<string, string>): Option<(string, string)> {
    var lat := CoordOf(attrs, "center_lat", "lat");
    var lon := CoordOf(attrs, "center_lon", "lon");
    if lat.Some? && lon.Some? && lat.value != [] && lon.value != [] && IsFloatText(lat.value) && IsFloatText(lon.value)
    then Some((lat.value, lon.value))
    else None
  }

  /** What the tag shows: its display name, the tooltip rows and the map link. */
  datatype TagView = TagView(displayName: string, rows: seq<Row>, mapLink: Option<(string, string)>)

  function TooltipRowsOf(attrs: map<string, string>, tagType: string): seq<Row> {
    var link := MapLinkOf(attrs);
    RowsOf(attrs, tagType, DisplayOrder).rows + if link.Some? then [MapRow(link.value.0, link.value.1)] else []
  }

  function TagViewOf(attrs: map<string, string>, tagType: string): TagView {
    TagView(if "navn" in attrs then attrs["navn"] else "Ukjent Navn", TooltipRowsOf(attrs, tagType), MapLinkOf(attrs))
  }

  /** One round of the loop: the state after the entry `(key, display)`. */
  method ProcessEntry(attrs: map<string, string>, rows0: seq<Row>, processed0: set<string>, key: string, display: string)
    returns (rows: seq<Row>, processed: set<string>)
    ensures RowState(rows, processed) == RowStep(attrs, RowState(rows0, processed0), (key, display))
  {
    rows, processed := rows0, processed0;
    if key in processed {
      return;
    }
    if key in attrs && Strip(attrs[key]) != "" {
      var value := attrs[key];
      if key == "center_lat" || key == "lat" {
        rows, processed := ProcessLatitude(attrs, rows, processed, key, display);
        return;
      } else if key == "center_lon" || key == "lon" {
        return;
      }
      rows := rows + [TextRow(display, value)];
      processed := processed + {key};
    }
  }

  /** The round for a latitude key that is present and not blank. */
  method ProcessLatitude(attrs: map<string, string>, rows0: seq<Row>, processed0: set<string>, key: string, display: string)
    returns (rows: seq<Row>, processed: set<string>)
    requires key !in processed0 && Shown(attrs, key) && IsLatKey(key)
    ensures RowState(rows, processed) == RowStep(attrs, RowState(rows0, processed0), (key, display))
  {
    rows, processed := rows0, processed0;
    var lonKey := if "center_lon" in attrs then "center_lon" else "lon";
    if lonKey in attrs {
      var latVal := attrs[key];
      var lonVal := attrs[lonKey];
      if latVal != "" && lonVal != "" {
        if IsFloatText(latVal) && IsFloatText(lonVal) {
          rows := rows + [PositionRow(latVal, lonVal)];
        }
      }
      processed := processed + {latVal};
      processed := processed + {lonKey};
    }
  }

  /** The tooltip of a tag with attributes `attrs` and tag type `tagType`. */
  method BuildTagView(attrs: map<string, string>, tagType: string) returns (view: TagView)
    ensures view == TagViewOf(attrs, tagType)
  {
    var displayName := if "navn" in attrs then attrs["navn"] else "Ukjent Navn";
    var rows := [TypeRow(attrs, tagType)];
    var processed := {"type"};
    var i := 0;
    while i < |DisplayOrder|
      invariant i <= |DisplayOrder|
      invariant RowState(rows, processed) == RowsOf(attrs, tagType, DisplayOrder[..i])
    {
      rows, processed := ProcessEntry(attrs, rows, processed, DisplayOrder[i].0, DisplayOrder[i].1);
      i := i + 1;
      assert DisplayOrder[..i][..i - 1] == DisplayOrder[..i - 1];
    }
    assert DisplayOrder[..i] == DisplayOrder;
    var link := MapLinkOf(attrs);
    if link.Some? {
      rows := rows + [MapRow(link.value.0, link.value.1)];
    }
    view := TagView(displayName, rows, link);
  }

  /** Where the lon value of a position row comes from: `center_lon` when present, else `lon`. */
  function LonFor(attrs: map<string, string>): Option<string> {
    var k := if "center_lon" in attrs then "center_lon" else "lon";
    if k in attrs then Some(attrs[k]) else None
  }

  /** A row of the loop over `order`: the row some entry's round adds (see `EntryRow`). */
  ghost predicate FromOrder(attrs: map<string, string>, order: seq<(string, string)>, r: Row) {
    exists j :: 0 <= j < |order| && EntryRow(attrs, order[j], r)
  }

  ghost predicate RowsFrom(attrs: map<string, string>, tagType: string, order: seq<(string, string)>, rows: seq<Row>) {
    |rows| >= 1 && rows[0] == TypeRow(attrs, tagType) && forall i :: 1 <= i < |rows| ==> FromOrder(attrs, order, rows[i])
  }

  lemma FromOrderGrow(attrs: map<string, string>, order: seq<(string, string)>, r: Row)
    requires order != [] && FromOrder(attrs, order[..|order| - 1], r)
    ensures FromOrder(attrs, order, r)
  {
    var init := order[..|order| - 1];
    var j :| 0 <= j < |init| && EntryRow(attrs, init[j], r);
    assert order[j] == init[j];
  }

  /** The row one loop round over `entry` may add. */
  ghost predicate EntryRow(attrs: map<string, string>, entry: (string, string), r: Row) {
    match r
    case TextRow(c, v) =>
      entry.1 == c && Shown(attrs, entry.0) && attrs[entry.0] == v && !IsLatKey(entry.0) && !IsLonKey(entry.0)
    case PositionRow(a, b) =>
      a != [] && b != [] && IsFloatText(a) && IsFloatText(b) && LonFor(attrs) == Some(b) &&
      IsLatKey(entry.0) && Shown(attrs, entry.0) && attrs[entry.0] == a
    case MapRow(_, _) => false
  }

  /** A loop round keeps the rows so far and adds at most one row, taken from its entry. */
  lemma RowStepRows(attrs: map<string, string>, st: RowState, entry: (string, string))
    ensures var rows := RowStep(attrs, st, entry).rows;
      rows == st.rows || (|rows| == |st.rows| + 1 && rows[..|st.rows|] == st.rows && EntryRow(attrs, entry, rows[|st.rows|]))
  {
  }

  /** The first row is the type row; every other row of the loop comes from a shown key of `order`. */
  lemma {:induction false} RowsShape(attrs: map<string, string>, tagType: string, order: seq<(string, string)>)
    ensures RowsFrom(attrs, tagType, order, RowsOf(attrs, tagType, order).rows)
  {
    if order != [] {
      var init := order[..|order| - 1];
      var last := |order| - 1;
      var st := RowsOf(attrs, tagType, init);
      RowsShape(attrs, tagType, init);
      RowStepRows(attrs, st, order[last]);
      var rows := RowsOf(attrs, tagType, order).rows;
      assert rows == RowStep(attrs, st, order[last]).rows;
      forall i | 1 <= i < |rows| ensures FromOrder(attrs, order, rows[i]) {
        if i < |st.rows| {
          assert rows[i] == st.rows[i];
          FromOrderGrow(attrs, order, rows[i]);
        } else {
          assert EntryRow(attrs, order[last], rows[i]);
        }
      }
    }
  }

  /** The first tooltip row is the capitalised type, and no other row is labelled "Type". */
  lemma TypeRowFirst(attrs: map<string, string>, tagType: string)
    ensures var rows := TooltipRowsOf(attrs, tagType);
      |rows| >= 1 && rows[0] == TextRow("Type", Capitalize(if "type" in attrs then attrs["type"] else tagType)) &&
      forall i :: 1 <= i < |rows| ==> !(rows[i].TextRow? && rows[i].caption == "Type")
  {
    RowsShape(attrs, tagType, DisplayOrder);
    assert forall j :: 0 <= j < |DisplayOrder| ==> DisplayOrder[j].1 != "Type";
    var loop := RowsOf(attrs, tagType, DisplayOrder).rows;
    var rows := TooltipRowsOf(attrs, tagType);
    forall i | 1 <= i < |rows| ensures !(rows[i].TextRow? && rows[i].caption == "Type") {
      if i < |loop| {
        assert rows[i] == loop[i];
        assert FromOrder(attrs, DisplayOrder, loop[i]);
      }
    }
  }

  /** The map row is there exactly when the map link is; it is the last row and holds two non-empty numbers. */
  lemma MapRowSpec(attrs: map<string, string>, tagType: string)
    ensures var rows := TooltipRowsOf(attrs, tagType);
      (exists i :: 0 <= i < |rows| && rows[i].MapRow?) <==> MapLinkOf(attrs).Some?
    ensures MapLinkOf(attrs).Some? ==>
      var (lat, lon) := MapLinkOf(attrs).value;
      var rows := TooltipRowsOf(attrs, tagType);
      rows[|rows| - 1] == MapRow(lat, lon) &&
      lat != [] && lon != [] && IsFloatText(lat) && IsFloatText(lon) &&
      CoordOf(attrs, "center_lat", "lat") == Some(lat) && CoordOf(attrs, "center_lon", "lon") == Some(lon)
  {
    RowsShape(attrs, tagType, DisplayOrder);
    var loop := RowsOf(attrs, tagType, DisplayOrder).rows;
    var rows := TooltipRowsOf(attrs, tagType);
    forall i | 0 <= i < |loop| ensures !loop[i].MapRow? {
      if i > 0 {
        assert FromOrder(attrs, DisplayOrder, loop[i]);
      }
    }
    if MapLinkOf(attrs).None? {
      assert rows == loop;
    } else {
      assert rows[|rows| - 1].MapRow?;
    }
  }

  /** `x` is the value of one of the latitude keys. */
  ghost predicate LatValue(attrs: map<string, string>, x: string) {
    ("center_lat" in attrs && attrs["center_lat"] == x) || ("lat" in attrs && attrs["lat"] == x)
  }

  /** What may end up among the processed keys after a loop over `order`. */
  ghost predicate ProcessedFrom(attrs: map<string, string>, order: seq<(string, string)>, x: string) {
    x == "type" || IsLonKey(x) || LatValue(attrs, x) || exists i :: 0 <= i < |order| && order[i].0 == x
  }

  lemma RowStepProcessed(attrs: map<string, string>, st: RowState, entry: (string, string))
    ensures forall x :: x in RowStep(attrs, st, entry).processed ==>
      x in st.processed || x == entry.0 || IsLonKey(x) || LatValue(attrs, x)
  {
  }

  /** The processed keys are "type", longitude keys, latitude values and keys of the order. */
  lemma {:induction false} ProcessedWithin(attrs: map<string, string>, tagType: string, order: seq<(string, string)>)
    ensures forall x :: x in RowsOf(attrs, tagType, order).processed ==> ProcessedFrom(attrs, order, x)
  {
    if order != [] {
      var init := order[..|order| - 1];
      var last := |order| - 1;
      var st := RowsOf(attrs, tagType, init);
      ProcessedWithin(attrs, tagType, init);
      RowStepProcessed(attrs, st, order[last]);
      forall x | x in RowsOf(attrs, tagType, order).processed ensures ProcessedFrom(attrs, order, x) {
        if x in st.processed && !(x == "type" || IsLonKey(x) || LatValue(attrs, x)) {
          var i :| 0 <= i < |init| && init[i].0 == x;
          assert order[i] == init[i];
        }
      }
    }
  }

  /** The rows after a prefix of the order are a prefix of the rows after the whole order. */
  lemma {:induction false} RowsPrefix(attrs: map<string, string>, tagType: string, order: seq<(string, string)>, n: nat)
    requires n <= |order|
    ensures var a := RowsOf(attrs, tagType, order[..n]).rows;
      var b := RowsOf(attrs, tagType, order).rows;
      |a| <= |b| && b[..|a|] == a
    decreases |order| - n
  {
    if n < |order| {
      var init := order[..|order| - 1];
      assert init[..n] == order[..n];
      RowsPrefix(attrs, tagType, init, n);
      RowStepRows(attrs, RowsOf(attrs, tagType, init), order[|order| - 1]);
    } else {
      assert order[..n] == order;
    }
  }

  /** Load-bearing facts about the display order: distinct keys, none of them "type". */
  lemma DisplayOrderKeys()
    ensures forall i :: 0 <= i < |DisplayOrder| ==> DisplayOrder[i].0 != "type"
    ensures forall i, j :: 0 <= i < j < |DisplayOrder| ==> DisplayOrder[i].0 != DisplayOrder[j].0
  {
  }

  lemma RowStepText(attrs: map<string, string>, st: RowState, entry: (string, string))
    requires entry.0 !in st.processed && Shown(attrs, entry.0) && !IsLatKey(entry.0) && !IsLonKey(entry.0)
    ensures RowStep(attrs, st, entry).rows == st.rows + [TextRow(entry.1, attrs[entry.0])]
  {
  }

  /** `TextRowShown` for any order with distinct keys, none of them "type". */
  lemma TextRowShownIn(attrs: map<string, string>, tagType: string, order: seq<(string, string)>, j: nat)
    requires j < |order|
    requires forall i :: 0 <= i < |order| ==> order[i].0 != "type"
    requires forall i, i2 :: 0 <= i < i2 < |order| ==> order[i].0 != order[i2].0
    requires Shown(attrs, order[j].0) && !IsLatKey(order[j].0) && !IsLonKey(order[j].0)
    requires !LatValue(attrs, order[j].0)
    ensures TextRow(order[j].1, attrs[order[j].0]) in RowsOf(attrs, tagType, order).rows
  {
    var init := order[..j];
    var st := RowsOf(attrs, tagType, init);
    ProcessedWithin(attrs, tagType, init);
    assert !ProcessedFrom(attrs, init, order[j].0);
    assert order[..j + 1][..j] == init;
    RowStepText(attrs, st, order[j]);
    var rows1 := RowsOf(attrs, tagType, order[..j + 1]).rows;
    assert rows1 == st.rows + [TextRow(order[j].1, attrs[order[j].0])];
    RowsPrefix(attrs, tagType, order, j + 1);
    var all := RowsOf(attrs, tagType, order).rows;
    assert all[|st.rows|] == rows1[|st.rows|];
  }

  /**
   * Every shown attribute of the display order that is not a coordinate gets
   * its row, under its label, unless a latitude value happens to equal its key.
   */
  lemma TextRowShown(attrs: map<string, string>, tagType: string, j: nat)
    requires j < |DisplayOrder|
    requires Shown(attrs, DisplayOrder[j].0) && !IsLatKey(DisplayOrder[j].0) && !IsLonKey(DisplayOrder[j].0)
    requires !LatValue(attrs, DisplayOrder[j].0)
    ensures TextRow(DisplayOrder[j].1, attrs[DisplayOrder[j].0]) in TooltipRowsOf(attrs, tagType)
  {
    DisplayOrderKeys();
    TextRowShownIn(attrs, tagType, DisplayOrder, j);
  }

  // ---- From step 3's output to step 4's token ----

  /** A character that no rendered separator contributes is absent from the rendering when no pair holds it. */
  lemma {:induction false} RenderAttrsFree(ps: seq<(string, string)>, c: char)
    requires c != ' ' && c != '=' && c != '"'
    requires forall k :: 0 <= k < |ps| ==> c !in ps[k].0 && c !in ps[k].1
    ensures c !in EntityMatching.RenderAttrs(ps)
  {
    if |ps| == 1 {
      assert EntityMatching.RenderAttrs(ps) == ps[0].0 + "=\"" + ps[0].1 + "\"";
    } else if |ps| >= 2 {
      EntityMatching.RenderAttrsCons(ps);
      RenderAttrsFree(ps[1..], c);
      assert EntityMatching.RenderAttr(ps[0]) == ps[0].0 + "=\"" + ps[0].1 + "\"";
    }
  }

  /** The rendering begins with the first key's first character and ends with a quote. */
  lemma {:induction false} RenderAttrsEnds(ps: seq<(string, string)>)
    requires ps != [] && Quotable(ps)
    ensures var r := EntityMatching.RenderAttrs(ps);
      r != [] && r[0] == ps[0].0[0] && r[|r| - 1] == '"'
  {
    var head := EntityMatching.RenderAttr(ps[0]);
    assert head == ps[0].0 + "=\"" + ps[0].1 + "\"";
    if |ps| >= 2 {
      EntityMatching.RenderAttrsCons(ps);
      QuotableTail(ps);
      RenderAttrsEnds(ps[1..]);
      var r := head + (" " + EntityMatching.RenderAttrs(ps[1..]));
      assert r[0] == head[0];
    }
  }

  /** The tag text step 3 writes: a word, a space and the rendered pairs, none holding '>' or ']'. */
  predicate Renderable(t: string, parts: seq<(string, string)>) {
    t != [] && (forall i :: 0 <= i < |t| ==> IsWordChar(t[i])) &&
    parts != [] && Quotable(parts) &&
    forall k :: 0 <= k < |parts| ==> '>' !in parts[k].1 && ']' !in parts[k].1
  }

  lemma RenderedParts(t: string, parts: seq<(string, string)>)
    requires Renderable(t, parts)
    ensures var attrText := EntityMatching.RenderAttrs(parts);
      IsStripped(attrText) && '>' !in attrText && ']' !in attrText &&
      NoSpace(t) && ']' !in t && '>' !in t
  {
    forall k | 0 <= k < |parts| ensures '>' !in parts[k].0 && ']' !in parts[k].0 {
      assert EntityMatching.IsKey(parts[k].0);
    }
    RenderAttrsFree(parts, '>');
    RenderAttrsFree(parts, ']');
    RenderAttrsEnds(parts);
    assert EntityMatching.IsKey(parts[0].0);
  }

  /** A word, a space and text without '>' is what the preprocessing pattern takes as a tag. */
  lemma TagContentWord(t: string, a: string)
    requires t != [] && (forall i :: 0 <= i < |t| ==> IsWordChar(t[i])) && '>' !in t && '>' !in a
    ensures IsTagContent(t + " " + a)
  {
    WordRunWord(t, " ");
    WordRunExtend(t + " ", a);
    assert t + " " + a == (t + " ") + a;
    assert (t + " " + a)[|t|] == ' ';
  }

  lemma PreprocessOne(c: string)
    requires IsTagContent(c)
    ensures Preprocess("<" + c + ">") == "[[" + c + "]]"
  {
    PreprocessTag(c, []);
    assert "<" + c + ">" + [] == "<" + c + ">";
    assert "[[" + c + "]]" + Preprocess([]) == "[[" + c + "]]";
  }

  /** The preprocessing rewrites a rendered tag to the rule's brackets. */
  lemma PreprocessRendered(t: string, parts: seq<(string, string)>)
    requires Renderable(t, parts)
    ensures var body := t + " " + EntityMatching.RenderAttrs(parts);
      Preprocess("<" + body + ">") == "[[" + body + "]]"
  {
    RenderedParts(t, parts);
    TagContentWord(t, EntityMatching.RenderAttrs(parts));
    PreprocessOne(t + " " + EntityMatching.RenderAttrs(parts));
  }

  /** The rule reads the rewritten tag as its word and its attribute text. */
  lemma TagRuleRendered(t: string, parts: seq<(string, string)>)
    requires Renderable(t, parts)
    ensures var attrText := EntityMatching.RenderAttrs(parts);
      var body := t + " " + attrText;
      TagRuleOf("[[" + body + "]]", 0) == Some(TagScan(t, attrText, |body| + 4))
  {
    RenderedParts(t, parts);
    TagRuleReadsAttrs(t, parts);
  }

  lemma TagRuleReadsAttrs(t: string, parts: seq<(string, string)>)
    requires t != [] && NoSpace(t) && ']' !in t
    requires IsStripped(EntityMatching.RenderAttrs(parts)) && ']' !in EntityMatching.RenderAttrs(parts)
    ensures var attrText := EntityMatching.RenderAttrs(parts);
      var body := t + " " + attrText;
      TagRuleOf("[[" + body + "]]", 0) == Some(TagScan(t, attrText, |body| + 4))
  {
    TagRuleWordAndText(t, EntityMatching.RenderAttrs(parts));
  }

  /** A bracketed word, a space and stripped text without ']' is read as that word and that text. */
  lemma TagRuleWordAndText(t: string, a: string)
    requires t != [] && NoSpace(t) && ']' !in t && IsStripped(a) && ']' !in a
    ensures TagRuleOf("[[" + (t + " " + a) + "]]", 0) == Some(TagScan(t, a, |t + " " + a| + 4))
  {
    TagContentOf(t, a);
    TagRuleWithWhole(t, a, ContentParts);
  }

  /** `TagRuleWithReadsAs` for a source that is just the bracketed word and text. */
  lemma TagRuleWithWhole(w: string, a: string, split: string -> seq<string>)
    requires ']' !in w + " " + a
    requires split(w + " " + a) == if a == [] then [w] else [w, a]
    ensures TagRuleWith("[[" + (w + " " + a) + "]]", 0, split) == Some(TagScan(w, a, |w + " " + a| + 4))
  {
    var content := w + " " + a;
    TagRuleWithReads([], content, [], split);
    assert [] + "[[" + content + "]]" + [] == "[[" + content + "]]";
  }

  /** The token's dictionary is the one of the rendered pairs. */
  lemma TokenRendered(t: string, parts: seq<(string, string)>, end: nat)
    requires Quotable(parts)
    ensures TokenOf(TagScan(t, EntityMatching.RenderAttrs(parts), end)) == NsdToken(t, AttrMapOf(parts))
  {
    ScanRendered(parts);
  }

  /**
   * A tag written by step 3 is read back by step 4: the preprocessing turns
   * its angle brackets into the rule's brackets, the rule reads the same word
   * and attribute text, and the token's dictionary is the one of the pairs.
   */
  lemma TagSurvivesRendering(t: string, parts: seq<(string, string)>)
    requires Renderable(t, parts)
    ensures var attrText := EntityMatching.RenderAttrs(parts);
      var body := t + " " + attrText;
      Preprocess("<" + body + ">") == "[[" + body + "]]" &&
      TagRuleOf("[[" + body + "]]", 0) == Some(TagScan(t, attrText, |body| + 4)) &&
      TokenOf(TagScan(t, attrText, |body| + 4)) == NsdToken(t, AttrMapOf(parts))
  {
    PreprocessRendered(t, parts);
    TagRuleRendered(t, parts);
    TokenRendered(t, parts, |t + " " + EntityMatching.RenderAttrs(parts)| + 4);
  }

  lemma {:induction false} WordRunWord(w: string, y: string)
    requires forall i :: 0 <= i < |w| ==> IsWordChar(w[i])
    requires y != [] && !IsWordChar(y[0])
    ensures WordRun(w + y) == |w|
  {
    if w != [] {
      assert (w + y)[1..] == w[1..] + y;
      WordRunWord(w[1..], y);
    }
  }
}
