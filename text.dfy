/**
 * String helpers shared by every model in this project, written to behave
 * like the Python built-ins the repository uses (str.lower, str.strip,
 * str.split, str.replace, str.find, `in`, slicing and code-point ordering).
 *
 * Case folding and the character classes used by `isalpha`, `isspace` and the
 * regular-expression classes `\w` and `\s` are restricted to a fixed alphabet:
 * ASCII letters and digits plus the Norwegian letters æ, ø, å (and their
 * capitals).
 */
module Text {

  // ---------------------------------------------------------------------
  // Character classes
  // ---------------------------------------------------------------------

  /** Whitespace as `str.isspace` and the regex class `\s` see it (restricted set). */
  predicate IsSpace(c: char) {
    c == ' ' || c == '\t' || c == '\n' || c == '\r' || c == '\U{B}' || c == '\U{C}'
    || ('\U{1C}' <= c <= '\U{1F}') || c == '\U{85}' || c == '\U{A0}'
  }

  predicate IsAsciiUpper(c: char) { 'A' <= c <= 'Z' }
  predicate IsAsciiLower(c: char) { 'a' <= c <= 'z' }
  predicate IsDigit(c: char) { '0' <= c <= '9' }

  predicate IsUpper(c: char) { IsAsciiUpper(c) || c == 'Æ' || c == 'Ø' || c == 'Å' }
  predicate IsLowerLetter(c: char) { IsAsciiLower(c) || c == 'æ' || c == 'ø' || c == 'å' }

  /** `str.isalpha` on one character, over the fixed alphabet. */
  predicate IsAlpha(c: char) { IsUpper(c) || IsLowerLetter(c) }

  /** The regex class `\w`: letters, digits and underscore. */
  predicate IsWordChar(c: char) { IsAlpha(c) || IsDigit(c) || c == '_' }

  function LowerChar(c: char): (r: char)
    ensures IsUpper(c) ==> IsLowerLetter(r)
    ensures !IsUpper(c) ==> r == c
  {
    if IsAsciiUpper(c) then (c as int + 32) as char
    else if c == 'Æ' then 'æ'
    else if c == 'Ø' then 'ø'
    else if c == 'Å' then 'å'
    else c
  }

  function UpperChar(c: char): (r: char)
    ensures IsLowerLetter(c) ==> IsUpper(r)
    ensures !IsLowerLetter(c) ==> r == c
  {
    if IsAsciiLower(c) then (c as int - 32) as char
    else if c == 'æ' then 'Æ'
    else if c == 'ø' then 'Ø'
    else if c == 'å' then 'Å'
    else c
  }

  /** `str.lower()` / `str.casefold()` over the fixed alphabet: length-preserving, pointwise. */
  function Lower(s: string): (r: string)
    ensures |r| == |s|
    ensures forall i :: 0 <= i < |s| ==> r[i] == LowerChar(s[i])
  {
    seq(|s|, i requires 0 <= i < |s| => LowerChar(s[i]))
  }

  /** `str.capitalize()`: first character upper-cased, the rest lower-cased. */
  function Capitalize(s: string): (r: string)
    ensures |r| == |s|
    ensures |s| > 0 ==> r[0] == UpperChar(s[0]) && r[1..] == Lower(s[1..])
  {
    if s == [] then [] else [UpperChar(s[0])] + Lower(s[1..])
  }

  lemma LowerAppend(a: string, b: string)
    ensures Lower(a + b) == Lower(a) + Lower(b)
  {
    assert forall i :: 0 <= i < |a + b| ==> Lower(a + b)[i] == (Lower(a) + Lower(b))[i];
  }

  lemma LowerSlice(s: string, i: int, j: int)
    requires 0 <= i <= j <= |s|
    ensures Lower(s[i..j]) == Lower(s)[i..j]
  {
  }

  // ---------------------------------------------------------------------
  // Prefixes, suffixes, containment, search
  // ---------------------------------------------------------------------

  predicate StartsWith(s: string, p: string) { |p| <= |s| && s[..|p|] == p }
  predicate EndsWith(s: string, p: string) { |p| <= |s| && s[|s| - |p|..] == p }

  /** Python's `sub in s`. */
  predicate Contains(s: string, sub: string)
    decreases |s|
  {
    StartsWith(s, sub) || (|s| > 0 && Contains(s[1..], sub))
  }

  lemma ContainsAt(s: string, sub: string, i: nat)
    requires i + |sub| <= |s| && s[i..i + |sub|] == sub
    ensures Contains(s, sub)
    decreases i
  {
    if i > 0 {
      assert s[1..][i - 1..i - 1 + |sub|] == sub;
      ContainsAt(s[1..], sub, i - 1);
    }
  }

  lemma ContainsCharIn(s: string, c: char)
    ensures Contains(s, [c]) <==> c in s
    decreases |s|
  {
    if |s| > 0 {
      ContainsCharIn(s[1..], c);
      assert s == [s[0]] + s[1..];
    }
  }

  /** An occurrence is found at some position. */
  lemma {:induction false} ContainsIndex(s: string, sub: string)
    requires Contains(s, sub)
    ensures exists i :: OccursAt(s, sub, i)
    decreases |s|
  {
    if !StartsWith(s, sub) {
      ContainsIndex(s[1..], sub);
      var i :| OccursAt(s[1..], sub, i);
      assert s[i + 1..i + 1 + |sub|] == s[1..][i..i + |sub|];
      assert OccursAt(s, sub, i + 1);
    } else {
      assert s[0..|sub|] == sub;
      assert OccursAt(s, sub, 0);
    }
  }

  /** Python's `s.find(sub, start)`: the lowest index >= start where sub occurs, or -1. */
  predicate OccursAt(s: string, sub: string, k: int) {
    0 <= k && k + |sub| <= |s| && s[k..k + |sub|] == sub
  }

  function FindFrom(s: string, sub: string, start: nat): (r: int)
    ensures r == -1 || (start <= r && OccursAt(s, sub, r))
    ensures r != -1 ==> forall k :: start <= k < r ==> !OccursAt(s, sub, k)
    ensures r == -1 ==> forall k :: start <= k ==> !OccursAt(s, sub, k)
    decreases |s| - start
  {
    if start + |sub| > |s| then -1
    else if s[start..start + |sub|] == sub then start
    else FindFrom(s, sub, start + 1)
  }

  /** Index of the first occurrence of c, or |s| when there is none. */
  function IndexOfChar(s: string, c: char): (k: nat)
    ensures k <= |s|
    ensures forall j :: 0 <= j < k ==> s[j] != c
    ensures k < |s| ==> s[k] == c
  {
    if |s| == 0 then 0 else if s[0] == c then 0 else 1 + IndexOfChar(s[1..], c)
  }

  // ---------------------------------------------------------------------
  // Stripping
  // ---------------------------------------------------------------------

  /** End of the maximal whitespace run starting at i. */
  function SpaceRunEnd(s: string, i: nat): (j: nat)
    requires i <= |s|
    ensures i <= j <= |s|
    ensures forall k :: i <= k < j ==> IsSpace(s[k])
    ensures j == |s| || !IsSpace(s[j])
    decreases |s| - i
  {
    if i < |s| && IsSpace(s[i]) then SpaceRunEnd(s, i + 1) else i
  }

  function LStrip(s: string): (r: string)
    ensures |r| <= |s| && r == s[|s| - |r|..]
    ensures r == [] || !IsSpace(r[0])
    ensures forall i :: 0 <= i < |s| - |r| ==> IsSpace(s[i])
  {
    if |s| > 0 && IsSpace(s[0]) then LStrip(s[1..]) else s
  }

  function RStrip(s: string): (r: string)
    ensures |r| <= |s| && r == s[..|r|]
    ensures r == [] || !IsSpace(r[|r| - 1])
    ensures forall i :: |r| <= i < |s| ==> IsSpace(s[i])
  {
    if |s| > 0 && IsSpace(s[|s| - 1]) then RStrip(s[..|s| - 1]) else s
  }

  /** `str.strip()`: drops leading and trailing whitespace. */
  function Strip(s: string): (r: string)
    ensures r == [] || (!IsSpace(r[0]) && !IsSpace(r[|r| - 1]))
    ensures |r| <= |s|
  {
    RStrip(LStrip(s))
  }

  predicate IsStripped(s: string) { s == [] || (!IsSpace(s[0]) && !IsSpace(s[|s| - 1])) }

  lemma StripOfStripped(s: string)
    requires IsStripped(s)
    ensures Strip(s) == s
  {
  }

  lemma StripAllSpace(s: string)
    ensures (forall i :: 0 <= i < |s| ==> IsSpace(s[i])) <==> Strip(s) == []
  {
    if Strip(s) == [] {
      assert LStrip(s) == [];
    } else {
      NotAllSpace(s, |s| - |LStrip(s)|);
    }
  }

  lemma NotAllSpace(s: string, k: nat)
    requires k < |s| && !IsSpace(s[k])
    ensures !(forall i :: 0 <= i < |s| ==> IsSpace(s[i]))
  {
  }

  lemma LStripAllSpace(s: string)
    requires forall i :: 0 <= i < |s| ==> IsSpace(s[i])
    ensures LStrip(s) == []
    decreases |s|
  {
    if |s| > 0 { LStripAllSpace(s[1..]); }
  }

  lemma WordLenNoSpace(w: string)
    requires NoSpace(w)
    ensures WordLen(w) == |w|
    decreases |w|
  {
    if |w| > 0 { WordLenNoSpace(w[1..]); }
  }

  function LStripSet(s: string, cs: set<char>): (r: string)
    ensures |r| <= |s| && r == s[|s| - |r|..]
    ensures r == [] || r[0] !in cs
  {
    if |s| > 0 && s[0] in cs then LStripSet(s[1..], cs) else s
  }

  function RStripSet(s: string, cs: set<char>): (r: string)
    ensures |r| <= |s| && r == s[..|r|]
    ensures r == [] || r[|r| - 1] !in cs
  {
    if |s| > 0 && s[|s| - 1] in cs then RStripSet(s[..|s| - 1], cs) else s
  }

  /** `str.strip(chars)` with an explicit character set. */
  function StripSet(s: string, cs: set<char>): (r: string)
    ensures r == [] || (r[0] !in cs && r[|r| - 1] !in cs)
  {
    RStripSet(LStripSet(s, cs), cs)
  }

  /** Every character of r occurs in s. */
  predicate CharsWithin(r: string, s: string) {
    forall c :: c in r ==> c in s
  }

  lemma SliceCharsWithin(s: string, i: nat, j: nat)
    requires i <= j <= |s|
    ensures CharsWithin(s[i..j], s)
  {
    forall c | c in s[i..j] ensures c in s {
      var k :| 0 <= k < j - i && s[i..j][k] == c;
      assert s[i + k] == c;
    }
  }

  lemma StripChars(s: string)
    ensures CharsWithin(Strip(s), s)
  {
    var l := LStrip(s);
    SliceCharsWithin(s, |s| - |l|, |s|);
    SliceCharsWithin(l, 0, |Strip(s)|);
  }

  /** `[p.strip() for p in ps if p.strip()]`. */
  function StrippedPieces(ps: seq<string>): seq<string> {
    if |ps| == 0 then []
    else
      var p := Strip(ps[0]);
      (if p != [] then [p] else []) + StrippedPieces(ps[1..])
  }

  /** Every piece kept is a non-empty, stripped slice of one of the pieces given. */
  lemma {:induction false} StrippedPiecesMembers(ps: seq<string>)
    ensures forall x :: x in StrippedPieces(ps) ==> x != [] && IsStripped(x) && exists j :: 0 <= j < |ps| && x == Strip(ps[j])
  {
    if |ps| > 0 {
      var rest := ps[1..];
      StrippedPiecesMembers(rest);
      forall x | x in StrippedPieces(ps)
        ensures x != [] && IsStripped(x) && exists j :: 0 <= j < |ps| && x == Strip(ps[j])
      {
        if x in StrippedPieces(rest) {
          var j :| 0 <= j < |rest| && x == Strip(rest[j]);
          assert x == Strip(ps[j + 1]);
        } else {
          assert x == Strip(ps[0]);
        }
      }
    }
  }

  lemma StrippedPiecesOne(p: string)
    ensures StrippedPieces([p]) == if Strip(p) == [] then [] else [Strip(p)]
  {
    assert [p][1..] == [];
  }

  lemma StripSetChars(s: string, cs: set<char>)
    ensures CharsWithin(StripSet(s, cs), s)
  {
    var l := LStripSet(s, cs);
    SliceCharsWithin(s, |s| - |l|, |s|);
    SliceCharsWithin(l, 0, |StripSet(s, cs)|);
  }

  /** Stripping changes nothing when neither end is in the set. */
  lemma StripSetNone(s: string, cs: set<char>)
    requires s == [] || (s[0] !in cs && s[|s| - 1] !in cs)
    ensures StripSet(s, cs) == s
  {
  }

  // ---------------------------------------------------------------------
  // Splitting and joining
  // ---------------------------------------------------------------------

  /** Length of the leading run of non-whitespace characters. */
  function WordLen(s: string): (n: nat)
    ensures n <= |s|
    ensures forall i :: 0 <= i < n ==> !IsSpace(s[i])
    ensures n < |s| ==> IsSpace(s[n])
  {
    if |s| == 0 || IsSpace(s[0]) then 0 else 1 + WordLen(s[1..])
  }

  predicate NoSpace(w: string) { forall i :: 0 <= i < |w| ==> !IsSpace(w[i]) }

  /** `str.split()` with no argument: the maximal runs of non-whitespace characters. */
  function Words(s: string): (ws: seq<string>)
    ensures forall k :: 0 <= k < |ws| ==> ws[k] != [] && NoSpace(ws[k])
    decreases |s|
  {
    var t := LStrip(s);
    if t == [] then []
    else
      var n := WordLen(t);
      assert n > 0 && NoSpace(t[..n]);
      var rest := Words(t[n..]);
      [t[..n]] + rest
  }

  lemma WordsOfAllSpace(s: string)
    requires forall i :: 0 <= i < |s| ==> IsSpace(s[i])
    ensures Words(s) == []
  {
    LStripAllSpace(s);
  }

  lemma WordsEmptyIffBlank(s: string)
    ensures Words(s) == [] <==> Strip(s) == []
  {
    StripAllSpace(s);
    if Strip(s) == [] {
      WordsOfAllSpace(s);
    }
  }

  /** Words of a single non-empty word without whitespace is that word. */
  lemma WordsOfWord(w: string)
    requires w != [] && NoSpace(w)
    ensures Words(w) == [w]
  {
    assert LStrip(w) == w;
    WordLenNoSpace(w);
    assert w[..WordLen(w)] == w;
    assert w[WordLen(w)..] == [];
    assert Words([]) == [];
    assert Words(w) == [w] + Words(w[WordLen(w)..]);
  }

  lemma WordLenAppend(w: string, rest: string)
    requires NoSpace(w) && (rest == [] || IsSpace(rest[0]))
    ensures WordLen(w + rest) == |w|
    decreases |w|
  {
    if |w| > 0 {
      assert (w + rest)[1..] == w[1..] + rest;
      WordLenAppend(w[1..], rest);
    }
  }

  lemma WordsSpacePrefix(x: string)
    ensures Words([' '] + x) == Words(x)
  {
    assert ([' '] + x)[1..] == x;
  }

  /** A leading word followed by whitespace is split off first. */
  lemma WordsCons(w: string, rest: string)
    requires w != [] && NoSpace(w) && (rest == [] || IsSpace(rest[0]))
    ensures Words(w + rest) == [w] + Words(rest)
  {
    var s := w + rest;
    assert LStrip(s) == s;
    WordLenAppend(w, rest);
    assert s[..|w|] == w && s[|w|..] == rest;
  }

  /** Splitting a space-joined list of words gives the words back. */
  lemma {:induction false} WordsOfJoin(ws: seq<string>)
    requires forall k :: 0 <= k < |ws| ==> ws[k] != [] && NoSpace(ws[k])
    ensures Words(Join(ws, " ")) == ws
  {
    if |ws| == 1 {
      WordsOfWord(ws[0]);
    } else if |ws| > 1 {
      WordsJoinStep(ws[0], ws[1..]);
      assert forall k :: 0 <= k < |ws[1..]| ==> ws[1..][k] == ws[k + 1];
      WordsOfJoin(ws[1..]);
      assert ws == [ws[0]] + ws[1..];
    }
  }

  /** The first word of a space-joined list is split off first. */
  lemma {:induction false} WordsJoinStep(w: string, ws: seq<string>)
    requires w != [] && NoSpace(w) && |ws| > 0
    ensures Words(Join([w] + ws, " ")) == [w] + Words(Join(ws, " "))
  {
    var rest := Join(ws, " ");
    assert ([w] + ws)[1..] == ws;
    assert Join([w] + ws, " ") == w + ([' '] + rest);
    WordsCons(w, [' '] + rest);
    WordsSpacePrefix(rest);
  }

  /** A space-joined list of whitespace-free words holds no whitespace besides the separators. */
  lemma {:induction false} JoinSpaceOnly(ws: seq<string>, c: char)
    requires forall k :: 0 <= k < |ws| ==> NoSpace(ws[k])
    requires IsSpace(c) && c != ' '
    ensures c !in Join(ws, " ")
  {
    if |ws| == 1 {
      assert forall i :: 0 <= i < |ws[0]| ==> ws[0][i] != c;
    } else if |ws| > 1 {
      JoinSpaceOnly(ws[1..], c);
      assert forall i :: 0 <= i < |ws[0]| ==> ws[0][i] != c;
      assert Join(ws, " ") == ws[0] + " " + Join(ws[1..], " ");
    }
  }

  /** `sep.join(words)`. */
  function Join(words: seq<string>, sep: string): (r: string)
    ensures |words| == 1 ==> r == words[0]
    ensures |words| == 0 ==> r == []
  {
    if |words| == 0 then []
    else if |words| == 1 then words[0]
    else words[0] + sep + Join(words[1..], sep)
  }

  /** `s.split(c)` for a one-character separator: always at least one (possibly empty) piece. */
  function SplitOn(s: string, c: char): (ps: seq<string>)
    ensures |ps| >= 1
    ensures forall k :: 0 <= k < |ps| ==> c !in ps[k]
    ensures c !in s ==> ps == [s]
    decreases |s|
  {
    var k := IndexOfChar(s, c);
    if k == |s| then [s] else [s[..k]] + SplitOn(s[k + 1..], c)
  }

  lemma {:induction false} SplitOnChars(s: string, c: char)
    ensures forall k :: 0 <= k < |SplitOn(s, c)| ==> CharsWithin(SplitOn(s, c)[k], s)
    decreases |s|
  {
    var k := IndexOfChar(s, c);
    if k < |s| {
      SplitOnChars(s[k + 1..], c);
      SliceCharsWithin(s, 0, k);
      SliceCharsWithin(s, k + 1, |s|);
    } else {
      SliceCharsWithin(s, 0, |s|);
    }
  }

  /** A first piece without the separator is split off whole. */
  lemma SplitOnCons(a: string, c: char, b: string)
    requires c !in a
    ensures SplitOn(a + [c] + b, c) == [a] + SplitOn(b, c)
  {
    var s := a + [c] + b;
    assert s[..|a|] == a && s[|a| + 1..] == b;
    assert s[|a|] == c;
    assert forall j :: 0 <= j < |a| ==> s[j] == a[j];
    assert IndexOfChar(s, c) == |a|;
  }

  // ---------------------------------------------------------------------
  // Replacement
  // ---------------------------------------------------------------------

  /** `s.replace(pat, rep)` for a non-empty `pat`: non-overlapping, left to right. */
  function Replace(s: string, pat: string, rep: string): (r: string)
    requires pat != []
    decreases |s|
  {
    if |s| < |pat| then s
    else if s[..|pat|] == pat then rep + Replace(s[|pat|..], pat, rep)
    else [s[0]] + Replace(s[1..], pat, rep)
  }

  lemma ReplaceChars(s: string, pat: string, rep: string)
    requires pat != []
    ensures forall c :: c in Replace(s, pat, rep) ==> c in s || c in rep
    decreases |s|
  {
    if |s| >= |pat| {
      if s[..|pat|] == pat {
        ReplaceChars(s[|pat|..], pat, rep);
      } else {
        ReplaceChars(s[1..], pat, rep);
      }
    }
  }

  /** Removing a one-character string leaves no occurrence of that character. */
  lemma ReplaceRemovesChar(s: string, c: char, rep: string)
    requires c !in rep
    ensures c !in Replace(s, [c], rep)
    decreases |s|
  {
    if |s| >= 1 {
      if s[..1] == [c] {
        ReplaceRemovesChar(s[1..], c, rep);
      } else {
        assert s[0] != c;
        ReplaceRemovesChar(s[1..], c, rep);
      }
    }
  }

  /** Replacing a character that does not occur changes nothing. */
  lemma ReplaceAbsentChar(s: string, c: char, rep: string)
    requires c !in s
    ensures Replace(s, [c], rep) == s
    decreases |s|
  {
    if |s| >= 1 {
      assert s[0] != c;
      assert s[..1] != [c];
      ReplaceAbsentChar(s[1..], c, rep);
      assert s == [s[0]] + s[1..];
    }
  }

  lemma ReplaceSame(s: string, pat: string)
    requires pat != []
    ensures Replace(s, pat, pat) == s
    decreases |s|
  {
    if |s| >= |pat| {
      if s[..|pat|] == pat {
        ReplaceSame(s[|pat|..], pat);
        assert s == s[..|pat|] + s[|pat|..];
      } else {
        ReplaceSame(s[1..], pat);
        assert s == [s[0]] + s[1..];
      }
    }
  }

  lemma ReplaceEmpty(pat: string, rep: string)
    requires pat != []
    ensures Replace([], pat, rep) == []
  {
  }

  /** Replacing one character by one character keeps the length. */
  lemma ReplaceCharLength(s: string, c: char, d: char)
    ensures |Replace(s, [c], [d])| == |s|
    decreases |s|
  {
    if |s| >= 1 {
      ReplaceCharLength(s[1..], c, d);
    }
  }

  // ---------------------------------------------------------------------
  // Ordering and reversal
  // ---------------------------------------------------------------------

  function Reverse(s: string): (r: string)
    ensures |r| == |s|
    ensures forall i :: 0 <= i < |s| ==> r[i] == s[|s| - 1 - i]
  {
    if s == [] then [] else Reverse(s[1..]) + [s[0]]
  }

  /** Python's `a < b` on str: lexicographic by code point. */
  predicate StrLess(a: string, b: string)
    decreases |a|
  {
    if |a| == 0 then |b| > 0
    else if |b| == 0 then false
    else if a[0] != b[0] then a[0] < b[0]
    else StrLess(a[1..], b[1..])
  }

  lemma {:induction false} StrLessIrreflexive(a: string)
    ensures !StrLess(a, a)
    decreases |a|
  {
    if |a| > 0 { StrLessIrreflexive(a[1..]); }
  }

  lemma {:induction false} StrLessTransitive(a: string, b: string, c: string)
    requires StrLess(a, b) && StrLess(b, c)
    ensures StrLess(a, c)
    decreases |a|
  {
    if |a| > 0 && |b| > 0 && |c| > 0 && a[0] == b[0] && b[0] == c[0] {
      StrLessTransitive(a[1..], b[1..], c[1..]);
    }
  }

  lemma {:induction false} StrLessTotal(a: string, b: string)
    ensures a == b || StrLess(a, b) || StrLess(b, a)
    decreases |a|
  {
    if |a| > 0 && |b| > 0 && a[0] == b[0] {
      StrLessTotal(a[1..], b[1..]);
      if a[1..] == b[1..] {
        assert a == [a[0]] + a[1..] && b == [b[0]] + b[1..];
      }
    }
  }

  // ---------------------------------------------------------------------
  // Duplicate-free sequences
  // ---------------------------------------------------------------------

  predicate Distinct<T(==)>(s: seq<T>) {
    forall i, j :: 0 <= i < j < |s| ==> s[i] != s[j]
  }

  /** A slice is its first element followed by the rest, also in front of more elements. */
  lemma ConsSlice<T>(s: seq<T>, i: nat, k: nat, x: seq<T>)
    requires i < k <= |s|
    ensures [s[i]] + (s[i + 1..k] + x) == s[i..k] + x
  {
    assert s[i..k] == [s[i]] + s[i + 1..k];
  }

  lemma WholePrefix<T>(s: seq<T>)
    ensures s[..|s|] == s
  {
  }

  /** Regrouping a concatenation of five parts. */
  lemma Regroup<T>(p: seq<T>, a: seq<T>, q: seq<T>, b: seq<T>, r: seq<T>)
    ensures p + (a + q + b) + r == (p + a + q) + (b + r)
  {
  }

  lemma SplitLast<T>(s: seq<T>)
    requires |s| > 0
    ensures s == s[..|s| - 1] + [s[|s| - 1]]
  {
  }

  /** What a sequence holds, every sequence it is a prefix of holds. */
  lemma PrefixMember<T>(x: T, a: seq<T>, b: seq<T>)
    requires x in a && a <= b
    ensures x in b
  {
    var i :| 0 <= i < |a| && a[i] == x;
    assert b[i] == x;
  }

  /**
   * Keeps the first occurrence of every element, in order: what a loop that
   * appends an element only when a `seen` set does not yet hold it produces.
   */
  function Dedup<T(==,!new)>(s: seq<T>): (r: seq<T>)
    ensures |r| <= |s|
  {
    if |s| == 0 then []
    else
      var d := Dedup(s[..|s| - 1]);
      if s[|s| - 1] in d then d else d + [s[|s| - 1]]
  }

  /** No repetitions, and exactly the elements of `s`. */
  lemma {:induction false} DedupSpec<T(!new)>(s: seq<T>)
    ensures Distinct(Dedup(s))
    ensures forall x :: x in Dedup(s) <==> x in s
  {
    if |s| > 0 {
      var n := |s| - 1;
      DedupSpec(s[..n]);
      assert s == s[..n] + [s[n]];
    }
  }

  /** The elements of a sequence as a set: what a `seen` set kept beside it holds. */
  function Elements<T>(s: seq<T>): set<T> {
    if |s| == 0 then {} else Elements(s[..|s| - 1]) + {s[|s| - 1]}
  }

  lemma {:induction false} ElementsHas<T>(s: seq<T>, x: T)
    ensures x in Elements(s) <==> x in s
  {
    if |s| > 0 {
      var n := |s| - 1;
      ElementsHas(s[..n], x);
      assert s == s[..n] + [s[n]];
    }
  }

  lemma ElementsSnoc<T>(s: seq<T>, x: T)
    ensures Elements(s + [x]) == Elements(s) + {x}
  {
    assert (s + [x])[..|s|] == s;
  }

  /** The `seen`-set loop step: appending an element keeps first occurrences. */
  lemma DedupSnoc<T(!new)>(s: seq<T>, x: T)
    ensures Dedup(s + [x]) == if x in Dedup(s) then Dedup(s) else Dedup(s) + [x]
  {
    assert (s + [x])[..|s|] == s;
  }

  /** `DedupSnoc` on the prefixes of one sequence. */
  lemma DedupPrefix<T(!new)>(s: seq<T>, i: nat)
    requires i < |s|
    ensures Dedup(s[..i + 1]) == if s[i] in Dedup(s[..i]) then Dedup(s[..i]) else Dedup(s[..i]) + [s[i]]
  {
    assert s[..i + 1] == s[..i] + [s[i]];
    DedupSnoc(s[..i], s[i]);
  }

  /** One step of a loop keeping a `seen` set beside the first occurrences of a prefix. */
  lemma DedupLoopStep<T(!new)>(s: seq<T>, i: nat, d: seq<T>, seen: set<T>)
    requires i < |s| && d == Dedup(s[..i]) && seen == Elements(d)
    ensures s[i] in seen ==> Dedup(s[..i + 1]) == d
    ensures s[i] !in seen ==> Dedup(s[..i + 1]) == d + [s[i]] && seen + {s[i]} == Elements(d + [s[i]])
  {
    DedupPrefix(s, i);
    ElementsHas(d, s[i]);
    ElementsSnoc(d, s[i]);
  }

  lemma {:induction false} DedupOfDistinct<T(!new)>(s: seq<T>)
    requires Distinct(s)
    ensures Dedup(s) == s
  {
    if |s| > 0 {
      DedupOfDistinct(s[..|s| - 1]);
      assert s[|s| - 1] !in s[..|s| - 1];
      assert s == s[..|s| - 1] + [s[|s| - 1]];
    }
  }

  /** Dedup(s) is the first element followed by the others, with that element removed. */
  lemma {:induction false} DedupHead<T(!new)>(s: seq<T>)
    requires |s| > 0
    ensures |Dedup(s)| > 0 && Dedup(s)[0] == s[0]
  {
    if |s| > 1 {
      DedupHead(s[..|s| - 1]);
    }
  }

  // ---------------------------------------------------------------------
  // Element-wise mapping
  // ---------------------------------------------------------------------

  /** `[f(x) for x in s]`. */
  function MapSeq<A, B>(s: seq<A>, f: A -> B): (r: seq<B>)
    ensures |r| == |s| && forall i :: 0 <= i < |s| ==> r[i] == f(s[i])
  {
    seq(|s|, i requires 0 <= i < |s| => f(s[i]))
  }

  lemma MapSeqAppend<A, B>(s: seq<A>, x: A, f: A -> B)
    ensures MapSeq(s + [x], f) == MapSeq(s, f) + [f(x)]
  {
  }

  /** One pass of a loop that appends `f(s[j])` to `out`. */
  lemma MapSeqStep<A, B>(out0: seq<B>, out: seq<B>, s: seq<A>, j: nat, f: A -> B, y: B)
    requires j < |s| && out == out0 + MapSeq(s[..j], f) && y == f(s[j])
    ensures out + [y] == out0 + MapSeq(s[..j + 1], f)
  {
    assert s[..j + 1] == s[..j] + [s[j]];
    MapSeqAppend(s[..j], s[j], f);
  }

  // ---------------------------------------------------------------------
  // Numbers as text
  // ---------------------------------------------------------------------

  function DigitChar(d: nat): char
    requires d < 10
  {
    ('0' as int + d) as char
  }

  /** `str(n)` for a natural number. */
  function NatToString(n: nat): (r: string)
    ensures |r| >= 1
    ensures forall i :: 0 <= i < |r| ==> IsDigit(r[i])
  {
    if n < 10 then [DigitChar(n)] else NatToString(n / 10) + [DigitChar(n % 10)]
  }

  /** `str(n)` for any integer. */
  function IntToString(n: int): (r: string)
    ensures |r| >= 1
  {
    if n < 0 then "-" + NatToString(-n) else NatToString(n)
  }
}
