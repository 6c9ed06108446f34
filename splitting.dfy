/**
 * Splitting an input text into separate watercourse names: the
 * "<blanks> og|&|+/ <blanks>" separators, slashes and commas, and the
 * expansion of hyphenated combinations such as "Tokke-Vinjevassdraget" into
 * one name per part.
 */
module NameSplitting {
  import opened Text
  import opened Opt
  import opened Suffixes

  // ---------------------------------------------------------------------
  // The separator regex \s+(?:t1|t2|...)\s+ (case-insensitive)
  // ---------------------------------------------------------------------

  /** The alternative t (lower case) occurs at j, ignoring case. */
  predicate TokenAt(s: string, j: nat, t: string) {
    j + |t| <= |s| && Lower(s[j..j + |t|]) == t
  }

  /** After the leading blanks end at j: the end of the first alternative that is followed by blanks. */
  function AfterToken(s: string, j: nat, tokens: seq<string>): (r: Option<nat>)
    requires j <= |s|
    ensures r.Some? ==> j < r.value <= |s|
  {
    if |tokens| == 0 then None
    else
      var t := tokens[0];
      if TokenAt(s, j, t) then
        var e := SpaceRunEnd(s, j + |t|);
        if e > j + |t| then Some(e) else AfterToken(s, j, tokens[1..])
      else AfterToken(s, j, tokens[1..])
  }

  /** Where a separator match starting at i ends, if one starts there. */
  function SeparatorEnd(s: string, i: nat, tokens: seq<string>): (r: Option<nat>)
    requires i <= |s|
    ensures r.Some? ==> i < r.value <= |s|
  {
    var j := SpaceRunEnd(s, i);
    if j == i then None else AfterToken(s, j, tokens)
  }

  /** `re.sub(separator, rep, s[i..])`, scanning left to right. */
  function SubFrom(s: string, i: nat, tokens: seq<string>, rep: string): string
    requires i <= |s|
    decreases |s| - i
  {
    if i == |s| then []
    else match SeparatorEnd(s, i, tokens)
      case Some(e) => rep + SubFrom(s, e, tokens, rep)
      case None => [s[i]] + SubFrom(s, i + 1, tokens, rep)
  }

  /** `re.split(separator, s)`, with the pending piece s[start..i]. */
  function SplitFrom(s: string, start: nat, i: nat, tokens: seq<string>): (r: seq<string>)
    requires start <= i <= |s|
    ensures |r| >= 1
    decreases |s| - i
  {
    if i == |s| then [s[start..]]
    else match SeparatorEnd(s, i, tokens)
      case Some(e) => [s[start..i]] + SplitFrom(s, e, e, tokens)
      case None => SplitFrom(s, start, i + 1, tokens)
  }

  function SubSeparators(s: string, tokens: seq<string>, rep: string): string {
    SubFrom(s, 0, tokens, rep)
  }

  function SplitAtSeparators(s: string, tokens: seq<string>): seq<string> {
    SplitFrom(s, 0, 0, tokens)
  }

  lemma {:induction false} SubSplitFrom(s: string, start: nat, i: nat, tokens: seq<string>, rep: string)
    requires start <= i <= |s|
    ensures s[start..i] + SubFrom(s, i, tokens, rep) == Join(SplitFrom(s, start, i, tokens), rep)
    decreases |s| - i
  {
    if i < |s| {
      match SeparatorEnd(s, i, tokens)
      case Some(e) =>
        SubSplitFrom(s, e, e, tokens, rep);
        SubSplitAtSeparator(s, start, i, e, tokens, rep);
      case None =>
        SubSplitFrom(s, start, i + 1, tokens, rep);
        SubSplitCopied(s, start, i, tokens, rep);
    }
  }

  /** The step of `SubSplitFrom` at a separator: the pending piece is closed and `rep` stands for the separator. */
  lemma SubSplitAtSeparator(s: string, start: nat, i: nat, e: nat, tokens: seq<string>, rep: string)
    requires start <= i < |s| && SeparatorEnd(s, i, tokens) == Some(e)
    requires s[e..e] + SubFrom(s, e, tokens, rep) == Join(SplitFrom(s, e, e, tokens), rep)
    ensures s[start..i] + SubFrom(s, i, tokens, rep) == Join(SplitFrom(s, start, i, tokens), rep)
  {
    var piece := s[start..i];
    var rest := SplitFrom(s, e, e, tokens);
    var x := SubFrom(s, e, tokens, rep);
    assert s[e..e] + x == x;
    assert ([piece] + rest)[1..] == rest;
    assert piece + (rep + x) == piece + rep + x;
  }

  /** The step of `SubSplitFrom` elsewhere: the character is copied and joins the pending piece. */
  lemma SubSplitCopied(s: string, start: nat, i: nat, tokens: seq<string>, rep: string)
    requires start <= i < |s| && SeparatorEnd(s, i, tokens).None?
    requires s[start..i + 1] + SubFrom(s, i + 1, tokens, rep) == Join(SplitFrom(s, start, i + 1, tokens), rep)
    ensures s[start..i] + SubFrom(s, i, tokens, rep) == Join(SplitFrom(s, start, i, tokens), rep)
  {
    var piece := s[start..i];
    var x := SubFrom(s, i + 1, tokens, rep);
    assert s[start..i + 1] + x == piece + ([s[i]] + x) by {
      assert s[start..i + 1] == piece + [s[i]];
    }
  }

  /** Substituting the separator by `rep` is joining the pieces of the split with `rep`. */
  lemma SubIsJoinOfSplit(s: string, tokens: seq<string>, rep: string)
    ensures SubSeparators(s, tokens, rep) == Join(SplitAtSeparators(s, tokens), rep)
  {
    SubSplitFrom(s, 0, 0, tokens, rep);
  }

  lemma SubFromStep(s: string, i: nat, tokens: seq<string>, rep: string)
    requires i < |s| && !IsSpace(s[i])
    ensures SubFrom(s, i, tokens, rep) == [s[i]] + SubFrom(s, i + 1, tokens, rep)
  {
    assert SpaceRunEnd(s, i) == i;
  }

  /** Positions without whitespace start no separator and are copied. */
  lemma {:induction false} SubFromPlain(s: string, i: nat, k: nat, tokens: seq<string>, rep: string)
    requires i <= k <= |s|
    requires forall j :: i <= j < k ==> !IsSpace(s[j])
    ensures SubFrom(s, i, tokens, rep) == s[i..k] + SubFrom(s, k, tokens, rep)
    decreases k - i
  {
    if i < k {
      SubFromStep(s, i, tokens, rep);
      SubFromPlain(s, i + 1, k, tokens, rep);
      ConsSlice(s, i, k, SubFrom(s, k, tokens, rep));
    }
  }

  /** The separators of the new resolver: "og", "&" and "+/". */
  const NameSeparators: seq<string> := ["og", "&", "+/"]

  // ---------------------------------------------------------------------
  // split_vassdrag_names
  // ---------------------------------------------------------------------

  /** The non-empty parts of `[p.strip(" ,") for p in s.split(",")]`. */
  function NonEmptyParts(ps: seq<string>): (r: seq<string>)
    ensures forall k :: 0 <= k < |r| ==> r[k] != []
  {
    if |ps| == 0 then []
    else
      var p := StripSet(ps[0], {' ', ','});
      (if p != [] then [p] else []) + NonEmptyParts(ps[1..])
  }

  /** The separators, and then every slash, become commas; the text is cut at commas. */
  function Parts(text: string): seq<string> {
    var normalized := Replace(SubSeparators(text, NameSeparators, ","), "/", ",");
    NonEmptyParts(SplitOn(normalized, ','))
  }

  /** What `split_vassdrag_names` returns. */
  function SplitNamesOf(text: string, suffixes: seq<string>): seq<string> {
    ExpandAll(Parts(text), suffixes)
  }

  function ExpandAll(parts: seq<string>, suffixes: seq<string>): seq<string> {
    if |parts| == 0 then []
    else ExpandAll(parts[..|parts| - 1], suffixes) + ExpansionOf(parts[|parts| - 1], suffixes)
  }

  /** `split_vassdrag_names`, with its loop extending the result part by part. */
  method SplitNames(text: string, suffixes: seq<string>) returns (expanded: seq<string>)
    ensures expanded == SplitNamesOf(text, suffixes)
  {
    expanded := ExpandParts(Parts(text), suffixes);
  }

  /** The loop of `split_vassdrag_names`: each part's expansion, in order. */
  method ExpandParts(parts: seq<string>, suffixes: seq<string>) returns (expanded: seq<string>)
    ensures expanded == ExpandAll(parts, suffixes)
  {
    expanded := [];
    var i := 0;
    while i < |parts|
      invariant 0 <= i <= |parts|
      invariant expanded == ExpandAll(parts[..i], suffixes)
    {
      ExpandAllStep(parts, i, suffixes);
      var more := ExpandHyphenated(parts[i], suffixes);
      expanded := expanded + more;
      i := i + 1;
    }
    assert parts[..|parts|] == parts;
  }

  lemma ExpandAllStep(parts: seq<string>, i: nat, suffixes: seq<string>)
    requires i < |parts|
    ensures ExpandAll(parts[..i + 1], suffixes) == ExpandAll(parts[..i], suffixes) + ExpansionOf(parts[i], suffixes)
  {
    assert parts[..i + 1][..i] == parts[..i];
  }

  // ---------------------------------------------------------------------
  // _expand_hyphenated
  // ---------------------------------------------------------------------

  function Pieces(name: string): seq<string> {
    StrippedPieces(SplitOn(name, '-'))
  }

  /** What the main loop produces for the piece at idx, before duplicates are dropped. */
  function PieceOutput(piece: string, idx: nat, count: nat, suffixes: seq<string>,
                       lastSuffix: string, suffixOnly: bool): Option<string>
  {
    var (stem, suffix) := SplitSuffix(piece, suffixes);
    if suffix != [] then Some(piece)
    else if suffixOnly && idx == count - 1 && Lower(piece) == Lower(lastSuffix) then None
    else Some(JoinStemSuffix(if stem != [] then stem else piece, lastSuffix))
  }

  /** The main loop's outputs for the first k pieces. */
  function PieceOutputs(pieces: seq<string>, k: nat, suffixes: seq<string>, lastSuffix: string, suffixOnly: bool)
    : (r: seq<Option<string>>)
    requires k <= |pieces|
    ensures |r| == k
  {
    seq(k, i requires 0 <= i < k => PieceOutput(pieces[i], i, |pieces|, suffixes, lastSuffix, suffixOnly))
  }

  lemma PieceOutputsIndex(pieces: seq<string>, k: nat, i: nat, suffixes: seq<string>,
                          lastSuffix: string, suffixOnly: bool)
    requires i < k <= |pieces|
    ensures PieceOutputs(pieces, k, suffixes, lastSuffix, suffixOnly)[i]
         == PieceOutput(pieces[i], i, |pieces|, suffixes, lastSuffix, suffixOnly)
  {
  }

  /** What `_expand_hyphenated` returns. */
  function ExpansionOf(name: string, suffixes: seq<string>): seq<string> {
    if '-' !in name then [name]
    else
      var pieces := Pieces(name);
      if |pieces| < 2 then [name]
      else
        var last := pieces[|pieces| - 1];
        var (_, lastSuffix) := SplitSuffix(last, suffixes);
        if lastSuffix == [] && Lower(last) !in suffixes then Dedup(pieces)
        else
          var suffixOnly := lastSuffix == [];
          var ending := if suffixOnly then last else lastSuffix;
          Dedup(Somes(PieceOutputs(pieces, |pieces|, suffixes, ending, suffixOnly)))
  }

  /** `_expand_hyphenated`, with its two `seen`-set loops. */
  method ExpandHyphenated(name: string, suffixes: seq<string>) returns (expanded: seq<string>)
    ensures expanded == ExpansionOf(name, suffixes)
  {
    if '-' !in name {
      return [name];
    }
    var pieces := Pieces(name);
    if |pieces| < 2 {
      return [name];
    }
    var last := pieces[|pieces| - 1];
    var (_, lastSuffix) := SplitSuffix(last, suffixes);
    var suffixOnly := false;
    if lastSuffix == [] {
      if Lower(last) in suffixes {
        lastSuffix := last;
        suffixOnly := true;
      } else {
        expanded := DedupLoop(pieces);
        return;
      }
    }
    expanded := CombineLoop(pieces, suffixes, lastSuffix, suffixOnly);
  }

  /** `DedupSomesSnoc` on the prefixes of one sequence. */
  lemma DedupSomesPrefix<T(!new)>(os: seq<Option<T>>, i: nat)
    requires i < |os|
    ensures Dedup(Somes(os[..i + 1]))
         == if os[i].Some? && os[i].value !in Dedup(Somes(os[..i])) then Dedup(Somes(os[..i])) + [os[i].value]
            else Dedup(Somes(os[..i]))
  {
    assert os[..i + 1] == os[..i] + [os[i]];
    DedupSomesSnoc(os[..i], os[i]);
  }

  lemma DedupSomesSnoc<T(!new)>(os: seq<Option<T>>, o: Option<T>)
    ensures Dedup(Somes(os + [o]))
         == if o.Some? && o.value !in Dedup(Somes(os)) then Dedup(Somes(os)) + [o.value] else Dedup(Somes(os))
  {
    SomesSnoc(os, o);
    if o.Some? {
      assert Somes(os + [o]) == Somes(os) + [o.value];
      DedupSnoc(Somes(os), o.value);
    } else {
      assert Somes(os + [o]) == Somes(os);
    }
  }

  /** The main loop: each piece with its own ending is kept, the others get the last piece's ending. */
  method CombineLoop(pieces: seq<string>, suffixes: seq<string>, lastSuffix: string, suffixOnly: bool)
    returns (expanded: seq<string>)
    ensures expanded == Dedup(Somes(PieceOutputs(pieces, |pieces|, suffixes, lastSuffix, suffixOnly)))
  {
    expanded := [];
    var seen: set<string> := {};
    var idx := 0;
    ghost var all := PieceOutputs(pieces, |pieces|, suffixes, lastSuffix, suffixOnly);
    while idx < |pieces|
      invariant 0 <= idx <= |pieces|
      invariant expanded == Dedup(Somes(all[..idx]))
      invariant seen == Elements(expanded)
    {
      var produced := PieceAt(pieces, idx, suffixes, lastSuffix, suffixOnly);
      DedupSomesPrefix(all, idx);
      if produced.Some? {
        ElementsHas(expanded, produced.value);
        ElementsSnoc(expanded, produced.value);
        if produced.value !in seen {
          seen := seen + {produced.value};
          expanded := expanded + [produced.value];
        }
      }
      idx := idx + 1;
    }
    WholePrefix(all);
  }

  /** The loop body for the piece at `idx`: its entry in the outputs. */
  method PieceAt(pieces: seq<string>, idx: nat, suffixes: seq<string>, lastSuffix: string, suffixOnly: bool)
    returns (produced: Option<string>)
    requires idx < |pieces|
    ensures produced == PieceOutputs(pieces, |pieces|, suffixes, lastSuffix, suffixOnly)[idx]
  {
    produced := PieceStep(pieces[idx], idx, |pieces|, suffixes, lastSuffix, suffixOnly);
    PieceOutputsIndex(pieces, |pieces|, idx, suffixes, lastSuffix, suffixOnly);
  }

  /** The branches of the main loop's body for one piece. */
  method PieceStep(piece: string, idx: nat, count: nat, suffixes: seq<string>, lastSuffix: string, suffixOnly: bool)
    returns (produced: Option<string>)
    ensures produced == PieceOutput(piece, idx, count, suffixes, lastSuffix, suffixOnly)
  {
    var (stem, suffix) := SplitSuffix(piece, suffixes);
    if suffix != [] {
      return Some(piece);
    }
    if suffixOnly && idx == count - 1 && Lower(piece) == Lower(lastSuffix) {
      return None;
    }
    var base := if stem != [] then stem else piece;
    produced := Some(JoinStemSuffix(base, lastSuffix));
  }

  /** The `seen_basic` loop: the pieces without repetitions. */
  method DedupLoop(pieces: seq<string>) returns (expanded: seq<string>)
    ensures expanded == Dedup(pieces)
  {
    expanded := [];
    var seen: set<string> := {};
    var i := 0;
    while i < |pieces|
      invariant 0 <= i <= |pieces|
      invariant expanded == Dedup(pieces[..i])
      invariant seen == Elements(expanded)
    {
      DedupLoopStep(pieces, i, expanded, seen);
      if pieces[i] !in seen {
        seen := seen + {pieces[i]};
        expanded := expanded + [pieces[i]];
      }
      i := i + 1;
    }
    WholePrefix(pieces);
  }

  // ---------------------------------------------------------------------
  // What the expansion and the split promise
  // ---------------------------------------------------------------------

  /** A name is in the combined output exactly when some piece produces it. */
  lemma PieceOutputsMembers(pieces: seq<string>, suffixes: seq<string>, lastSuffix: string, suffixOnly: bool)
    ensures forall x :: x in Somes(PieceOutputs(pieces, |pieces|, suffixes, lastSuffix, suffixOnly)) <==>
      exists i :: 0 <= i < |pieces| && PieceOutput(pieces[i], i, |pieces|, suffixes, lastSuffix, suffixOnly) == Some(x)
  {
    var os := PieceOutputs(pieces, |pieces|, suffixes, lastSuffix, suffixOnly);
    SomesSpec(os);
    forall i | 0 <= i < |pieces|
      ensures os[i] == PieceOutput(pieces[i], i, |pieces|, suffixes, lastSuffix, suffixOnly)
    {
      PieceOutputsIndex(pieces, |pieces|, i, suffixes, lastSuffix, suffixOnly);
    }
  }

  /** The pieces are non-empty, hyphen-free and made of the name's characters. */
  lemma StrippedPiecesChars(ps: seq<string>, name: string)
    requires forall j :: 0 <= j < |ps| ==> CharsWithin(ps[j], name) && '-' !in ps[j]
    ensures forall x :: x in StrippedPieces(ps) ==> x != [] && IsStripped(x) && CharsWithin(x, name) && '-' !in x
  {
    StrippedPiecesMembers(ps);
    forall x | x in StrippedPieces(ps) ensures CharsWithin(x, name) && '-' !in x {
      var j :| 0 <= j < |ps| && x == Strip(ps[j]);
      StripChars(ps[j]);
    }
  }

  lemma PiecesChars(name: string)
    ensures forall k :: 0 <= k < |Pieces(name)| ==>
      Pieces(name)[k] != [] && IsStripped(Pieces(name)[k])
      && CharsWithin(Pieces(name)[k], name) && '-' !in Pieces(name)[k]
  {
    SplitOnChars(name, '-');
    StrippedPiecesChars(SplitOn(name, '-'), name);
    forall k | 0 <= k < |Pieces(name)|
      ensures Pieces(name)[k] != [] && IsStripped(Pieces(name)[k])
      ensures CharsWithin(Pieces(name)[k], name) && '-' !in Pieces(name)[k]
    {
      assert Pieces(name)[k] in Pieces(name);
    }
  }

  /** A hyphen-free piece gives itself, or itself glued to the common ending. */
  lemma PieceOutputShape(piece: string, idx: nat, count: nat, suffixes: seq<string>,
                         lastSuffix: string, suffixOnly: bool)
    requires piece != [] && IsStripped(piece) && '-' !in piece
    ensures var o := PieceOutput(piece, idx, count, suffixes, lastSuffix, suffixOnly);
      o.Some? ==> o.value == piece || o.value == piece + DropLeadingHyphen(lastSuffix)
  {
    SplitSuffixSpec(piece, suffixes);
    StripOfStripped(piece);
  }

  /** Every combined name is non-empty and made of the piece's and the ending's characters. */
  lemma PieceOutputChars(piece: string, idx: nat, count: nat, suffixes: seq<string>,
                         lastSuffix: string, suffixOnly: bool, name: string)
    requires piece != [] && IsStripped(piece) && '-' !in piece
    requires CharsWithin(piece, name) && CharsWithin(lastSuffix, name)
    ensures var o := PieceOutput(piece, idx, count, suffixes, lastSuffix, suffixOnly);
      o.Some? ==> o.value != [] && CharsWithin(o.value, name)
  {
    PieceOutputShape(piece, idx, count, suffixes, lastSuffix, suffixOnly);
    if |lastSuffix| > 0 && lastSuffix[0] == '-' {
      SliceCharsWithin(lastSuffix, 1, |lastSuffix|);
    }
  }

  /** The combining loop keeps at least the first piece's name, and only non-empty names from the name's characters. */
  lemma CombinedChars(pieces: seq<string>, suffixes: seq<string>, ending: string, suffixOnly: bool, name: string)
    requires |pieces| >= 2
    requires forall k :: 0 <= k < |pieces| ==>
      pieces[k] != [] && IsStripped(pieces[k]) && CharsWithin(pieces[k], name) && '-' !in pieces[k]
    requires CharsWithin(ending, name)
    ensures var r := Somes(PieceOutputs(pieces, |pieces|, suffixes, ending, suffixOnly));
      |r| >= 1 && forall x :: x in r ==> x != [] && CharsWithin(x, name)
  {
    var os := PieceOutputs(pieces, |pieces|, suffixes, ending, suffixOnly);
    PieceOutputsMembers(pieces, suffixes, ending, suffixOnly);
    SomesSpec(os);
    PieceOutputsIndex(pieces, |pieces|, 0, suffixes, ending, suffixOnly);
    assert os[0].value in Somes(os);
    forall x | x in Somes(os) ensures x != [] && CharsWithin(x, name) {
      var i :| 0 <= i < |pieces| && PieceOutput(pieces[i], i, |pieces|, suffixes, ending, suffixOnly) == Some(x);
      PieceOutputChars(pieces[i], i, |pieces|, suffixes, ending, suffixOnly, name);
    }
  }

  /** At least one name, no repetitions, each non-empty and made of the characters of `name`. */
  predicate GoodExpansion(r: seq<string>, name: string) {
    |r| >= 1 && Distinct(r) && forall x :: x in r ==> x != [] && CharsWithin(x, name)
  }

  /** The combined names, without repetitions: at least one, each non-empty and from the name's characters. */
  lemma CombinedExpansion(pieces: seq<string>, suffixes: seq<string>, ending: string, suffixOnly: bool, name: string)
    requires |pieces| >= 2
    requires forall k :: 0 <= k < |pieces| ==>
      pieces[k] != [] && IsStripped(pieces[k]) && CharsWithin(pieces[k], name) && '-' !in pieces[k]
    requires CharsWithin(ending, name)
    ensures GoodExpansion(Dedup(Somes(PieceOutputs(pieces, |pieces|, suffixes, ending, suffixOnly))), name)
  {
    var os := Somes(PieceOutputs(pieces, |pieces|, suffixes, ending, suffixOnly));
    CombinedChars(pieces, suffixes, ending, suffixOnly, name);
    DedupSpec(os);
    assert os[0] in Dedup(os);
  }

  /** The pieces, without repetitions: at least one, each non-empty and from the name's characters. */
  lemma PiecesExpansion(pieces: seq<string>, name: string)
    requires |pieces| >= 2
    requires forall k :: 0 <= k < |pieces| ==> pieces[k] != [] && CharsWithin(pieces[k], name)
    ensures GoodExpansion(Dedup(pieces), name)
  {
    DedupSpec(pieces);
    assert pieces[0] in Dedup(pieces);
  }

  /** The common ending is the last piece or its ending, so it is made of the name's characters. */
  lemma EndingChars(last: string, suffixes: seq<string>, name: string)
    requires CharsWithin(last, name)
    ensures CharsWithin(SplitSuffix(last, suffixes).1, name)
  {
    SplitSuffixSpec(last, suffixes);
    var sfx := SplitSuffix(last, suffixes).1;
    SliceCharsWithin(last, |last| - |sfx|, |last|);
    assert last[|last| - |sfx|..] == sfx;
  }

  /**
   * What `_expand_hyphenated` promises: at least one name, no repetitions, a
   * name without hyphens unchanged, and for a non-empty name only non-empty
   * names drawn from its own characters.
   */
  lemma ExpansionSpec(name: string, suffixes: seq<string>)
    ensures |ExpansionOf(name, suffixes)| >= 1
    ensures Distinct(ExpansionOf(name, suffixes))
    ensures '-' !in name ==> ExpansionOf(name, suffixes) == [name]
    ensures name != [] ==>
      forall x :: x in ExpansionOf(name, suffixes) ==> x != [] && CharsWithin(x, name)
  {
    if '-' in name && |Pieces(name)| >= 2 {
      SplitExpansion(name, suffixes);
    }
  }

  /** The case where the name is cut into two or more pieces. */
  lemma SplitExpansion(name: string, suffixes: seq<string>)
    requires '-' in name && |Pieces(name)| >= 2
    ensures GoodExpansion(ExpansionOf(name, suffixes), name)
  {
    var pieces := Pieces(name);
    var last := pieces[|pieces| - 1];
    var lastSuffix := SplitSuffix(last, suffixes).1;
    SplitExpansionOf(name, suffixes);
    if !(lastSuffix == [] && Lower(last) !in suffixes) {
      var suffixOnly := lastSuffix == [];
      CombinedOfName(name, suffixes, if suffixOnly then last else lastSuffix, suffixOnly);
    } else {
      PiecesChars(name);
      PiecesExpansion(pieces, name);
    }
  }

  lemma CombinedOfName(name: string, suffixes: seq<string>, ending: string, suffixOnly: bool)
    requires |Pieces(name)| >= 2
    requires var last := Pieces(name)[|Pieces(name)| - 1];
      ending == if suffixOnly then last else SplitSuffix(last, suffixes).1
    ensures GoodExpansion(Dedup(Somes(PieceOutputs(Pieces(name), |Pieces(name)|, suffixes, ending, suffixOnly))), name)
  {
    var pieces := Pieces(name);
    PiecesChars(name);
    EndingChars(pieces[|pieces| - 1], suffixes, name);
    CombinedExpansion(pieces, suffixes, ending, suffixOnly, name);
  }

  /** The two ways a name cut into pieces is expanded. */
  lemma SplitExpansionOf(name: string, suffixes: seq<string>)
    requires '-' in name && |Pieces(name)| >= 2
    ensures var pieces := Pieces(name);
      var last := pieces[|pieces| - 1];
      var lastSuffix := SplitSuffix(last, suffixes).1;
      var suffixOnly := lastSuffix == [];
      ExpansionOf(name, suffixes)
        == if lastSuffix == [] && Lower(last) !in suffixes then Dedup(pieces)
           else Dedup(Somes(PieceOutputs(pieces, |pieces|, suffixes, if suffixOnly then last else lastSuffix, suffixOnly)))
  {
  }

  /** A name joined to another by a hyphen is cut into the two names. */
  lemma PiecesOfPair(a: string, b: string)
    requires a != [] && IsStripped(a) && '-' !in a
    requires b != [] && IsStripped(b) && '-' !in b
    ensures Pieces(a + "-" + b) == [a, b]
  {
    SplitOnCons(a, '-', b);
    assert a + "-" + b == a + ['-'] + b;
    assert SplitOn(b, '-') == [b];
    StripOfStripped(a);
    StripOfStripped(b);
    StrippedPiecesOne(b);
    assert [a, b][1..] == [b];
  }

  /** The outputs of the combining loop for two pieces. */
  lemma PairOutputs(a: string, b: string, suffixes: seq<string>, ending: string, suffixOnly: bool)
    ensures Somes(PieceOutputs([a, b], 2, suffixes, ending, suffixOnly))
         == Somes([PieceOutput(a, 0, 2, suffixes, ending, suffixOnly), PieceOutput(b, 1, 2, suffixes, ending, suffixOnly)])
  {
    var pieces := [a, b];
    assert PieceOutputs(pieces, 2, suffixes, ending, suffixOnly)
        == [PieceOutput(a, 0, 2, suffixes, ending, suffixOnly), PieceOutput(b, 1, 2, suffixes, ending, suffixOnly)];
  }

  lemma SomesPair<T>(x: Option<T>, y: Option<T>)
    ensures Somes([x, y]) == (if x.Some? then [x.value] else []) + (if y.Some? then [y.value] else [])
  {
    assert [x, y][..1] == [x];
    assert [x][..0] == [];
    assert Somes([x]) == Somes<T>([]) + (if x.Some? then [x.value] else []);
  }

  lemma DedupPair<T(!new)>(x: T, y: T)
    ensures Dedup([x, y]) == if x == y then [x] else [x, y]
  {
    assert [x, y][..1] == [x];
  }

  /** For a hyphenated pair whose last piece has an ending (or is one), the combining loop runs. */
  lemma ExpansionOfPair(a: string, b: string, suffixes: seq<string>)
    requires a != [] && IsStripped(a) && '-' !in a
    requires b != [] && IsStripped(b) && '-' !in b
    requires SplitSuffix(b, suffixes).1 != [] || Lower(b) in suffixes
    ensures var sfx := SplitSuffix(b, suffixes).1;
      var ending := if sfx == [] then b else sfx;
      ExpansionOf(a + "-" + b, suffixes)
      == Dedup(Somes([PieceOutput(a, 0, 2, suffixes, ending, sfx == []), PieceOutput(b, 1, 2, suffixes, ending, sfx == [])]))
  {
    var name := a + "-" + b;
    assert name[|a|] == '-';
    PiecesOfPair(a, b);
    var sfx := SplitSuffix(b, suffixes).1;
    var ending := if sfx == [] then b else sfx;
    PairOutputs(a, b, suffixes, ending, sfx == []);
  }

  /**
   * "Tokke-Vinjevassdraget": the piece without an ending gets the last
   * piece's ending, the last piece stays as it is.
   */
  lemma ExpansionWithEnding(a: string, b: string, suffixes: seq<string>)
    requires a != [] && IsStripped(a) && '-' !in a
    requires b != [] && IsStripped(b) && '-' !in b
    requires SplitSuffix(a, suffixes).1 == [] && SplitSuffix(b, suffixes).1 != []
    ensures var combined := a + SplitSuffix(b, suffixes).1;
      ExpansionOf(a + "-" + b, suffixes) == if combined == b then [b] else [combined, b]
  {
    ExpansionOfPair(a, b, suffixes);
    var sfx := SplitSuffix(b, suffixes).1;
    SplitSuffixSpec(a, suffixes);
    EndingChars(b, suffixes, b);
    assert sfx[0] in sfx;
    JoinIsConcat(a, sfx);
    assert PieceOutput(a, 0, 2, suffixes, sfx, false) == Some(a + sfx);
    assert PieceOutput(b, 1, 2, suffixes, sfx, false) == Some(b);
    SomesPair(Some(a + sfx), Some(b));
    DedupPair(a + sfx, b);
  }

  /** "Aura-vassdraget": a last piece that is itself an ending is glued to the others and dropped. */
  lemma ExpansionEndingOnly(a: string, b: string, suffixes: seq<string>)
    requires a != [] && IsStripped(a) && '-' !in a
    requires b != [] && IsStripped(b) && '-' !in b
    requires SplitSuffix(a, suffixes).1 == [] && SplitSuffix(b, suffixes).1 == []
    requires Lower(b) in suffixes
    ensures ExpansionOf(a + "-" + b, suffixes) == [a + b]
  {
    ExpansionOfPair(a, b, suffixes);
    SplitSuffixSpec(a, suffixes);
    assert b[0] in b;
    JoinIsConcat(a, b);
    assert PieceOutput(a, 0, 2, suffixes, b, true) == Some(a + b);
    assert PieceOutput(b, 1, 2, suffixes, b, true) == None;
    SomesPair(Some(a + b), None);
  }

  /** Two pieces without known endings are both kept, once each. */
  lemma ExpansionWithoutEnding(a: string, b: string, suffixes: seq<string>)
    requires a != [] && IsStripped(a) && '-' !in a
    requires b != [] && IsStripped(b) && '-' !in b
    requires SplitSuffix(b, suffixes).1 == [] && Lower(b) !in suffixes
    ensures ExpansionOf(a + "-" + b, suffixes) == if a == b then [a] else [a, b]
  {
    var name := a + "-" + b;
    assert name[|a|] == '-';
    PiecesOfPair(a, b);
    DedupPair(a, b);
  }

  /** The replacement text is the only source of new characters in `re.sub`. */
  lemma {:induction false} SubFromChars(s: string, i: nat, tokens: seq<string>, rep: string)
    requires i <= |s|
    ensures forall c :: c in SubFrom(s, i, tokens, rep) ==> c in s || c in rep
    decreases |s| - i
  {
    if i < |s| {
      match SeparatorEnd(s, i, tokens)
      case Some(e) => SubFromChars(s, e, tokens, rep);
      case None => SubFromChars(s, i + 1, tokens, rep);
    }
  }

  lemma {:induction false} NonEmptyPartsChars(ps: seq<string>, text: string)
    requires forall j :: 0 <= j < |ps| ==> forall c :: c in ps[j] ==> c in text && c != ',' && c != '/'
    ensures forall k :: 0 <= k < |NonEmptyParts(ps)| ==>
      forall c :: c in NonEmptyParts(ps)[k] ==> c in text && c != ',' && c != '/'
  {
    if |ps| > 0 {
      NonEmptyPartsChars(ps[1..], text);
      StripSetChars(ps[0], {' ', ','});
    }
  }

  /** Every part is non-empty, free of commas and slashes, and made of the text's characters. */
  lemma PartsSpec(text: string)
    ensures forall k :: 0 <= k < |Parts(text)| ==>
      Parts(text)[k] != [] && ',' !in Parts(text)[k] && '/' !in Parts(text)[k]
      && CharsWithin(Parts(text)[k], text)
  {
    var sub := SubSeparators(text, NameSeparators, ",");
    var normalized := Replace(sub, "/", ",");
    SubFromChars(text, 0, NameSeparators, ",");
    ReplaceChars(sub, "/", ",");
    ReplaceRemovesChar(sub, '/', ",");
    var ps := SplitOn(normalized, ',');
    SplitOnChars(normalized, ',');
    forall j | 0 <= j < |ps| ensures forall c :: c in ps[j] ==> c in text && c != ',' && c != '/' {
      assert CharsWithin(ps[j], normalized);
    }
    NonEmptyPartsChars(ps, text);
    var parts := Parts(text);
    forall k | 0 <= k < |parts|
      ensures parts[k] != [] && ',' !in parts[k] && '/' !in parts[k] && CharsWithin(parts[k], text)
    {
    }
  }

  /** Only non-empty names, without commas and slashes, made of the text's characters. */
  ghost predicate CleanNames(xs: seq<string>, text: string) {
    forall x :: x in xs ==> x != [] && ',' !in x && '/' !in x && CharsWithin(x, text)
  }

  lemma CleanNamesAppend(a: seq<string>, b: seq<string>, text: string)
    requires CleanNames(a, text) && CleanNames(b, text)
    ensures CleanNames(a + b, text)
  {
  }

  /** A clean part expands to clean names. */
  lemma ExpansionClean(part: string, suffixes: seq<string>, text: string)
    requires part != [] && ',' !in part && '/' !in part && CharsWithin(part, text)
    ensures CleanNames(ExpansionOf(part, suffixes), text)
  {
    ExpansionSpec(part, suffixes);
    forall x | x in ExpansionOf(part, suffixes) ensures x != [] && ',' !in x && '/' !in x && CharsWithin(x, text) {
      assert CharsWithin(x, part);
    }
  }

  lemma {:induction false} ExpandAllChars(parts: seq<string>, suffixes: seq<string>, text: string)
    requires forall k :: 0 <= k < |parts| ==>
      parts[k] != [] && ',' !in parts[k] && '/' !in parts[k] && CharsWithin(parts[k], text)
    ensures CleanNames(ExpandAll(parts, suffixes), text)
  {
    if |parts| > 0 {
      var n := |parts| - 1;
      ExpandAllChars(parts[..n], suffixes, text);
      ExpansionClean(parts[n], suffixes, text);
      CleanNamesAppend(ExpandAll(parts[..n], suffixes), ExpansionOf(parts[n], suffixes), text);
    }
  }

  /**
   * What `split_vassdrag_names` promises: only non-empty names, without the
   * separating commas and slashes, made of the text's own characters.
   */
  lemma SplitNamesSpec(text: string, suffixes: seq<string>)
    ensures forall x :: x in SplitNamesOf(text, suffixes) ==>
      x != [] && ',' !in x && '/' !in x && CharsWithin(x, text)
  {
    PartsSpec(text);
    ExpandAllChars(Parts(text), suffixes, text);
  }

  /** A character that neither splits nor starts a separator. */
  predicate PlainChar(c: char) {
    !IsSpace(c) && c != ',' && c != '/' && c != '-'
  }

  /** A name that `split_vassdrag_names` leaves as it is. */
  predicate PlainName(x: string) {
    x != [] && forall c :: c in x ==> PlainChar(c)
  }

  /** The plain text between separators comes out of `re.sub` unchanged. */
  lemma SubOfPlain(s: string, i: nat, tokens: seq<string>, rep: string)
    requires i <= |s| && forall c :: c in s[i..] ==> PlainChar(c)
    ensures SubFrom(s, i, tokens, rep) == s[i..]
  {
    forall j | i <= j < |s| ensures !IsSpace(s[j]) {
      assert s[j] in s[i..];
    }
    SubFromPlain(s, i, |s|, tokens, rep);
  }

  /** The cut of a text into parts, for a text whose separators are already commas. */
  lemma PartsOfCommaText(sub: string, text: string)
    requires SubSeparators(text, NameSeparators, ",") == sub && '/' !in sub
    ensures Parts(text) == NonEmptyParts(SplitOn(sub, ','))
  {
    ReplaceAbsentChar(sub, '/', ",");
  }

  /** A plain name is its own only part. */
  lemma NonEmptyPartsOfPlain(x: string)
    requires PlainName(x)
    ensures NonEmptyParts([x]) == [x]
  {
    assert x[0] in x && x[|x| - 1] in x;
    StripSetNone(x, {' ', ','});
    assert [x][1..] == [];
  }

  /** A plain name has no hyphen and is its own expansion. */
  lemma ExpansionOfPlain(x: string, suffixes: seq<string>)
    requires PlainName(x)
    ensures ExpansionOf(x, suffixes) == [x]
  {
    assert !PlainChar('-');
  }

  lemma ExpandAllOfOne(x: string, suffixes: seq<string>)
    requires PlainName(x)
    ensures ExpandAll([x], suffixes) == [x]
  {
    ExpansionOfPlain(x, suffixes);
    assert [x][..0] == [];
  }

  lemma ExpandAllOfTwo(a: string, b: string, suffixes: seq<string>)
    requires PlainName(a) && PlainName(b)
    ensures ExpandAll([a, b], suffixes) == [a, b]
  {
    ExpandAllOfOne(a, suffixes);
    ExpansionOfPlain(b, suffixes);
    assert [a, b][..1] == [a];
  }

  lemma PartsOfPlain(x: string)
    requires PlainName(x)
    ensures Parts(x) == [x]
  {
    SubOfPlain(x, 0, NameSeparators, ",");
    assert x[0..] == x;
    PartsOfCommaText(x, x);
    assert ',' !in x;
    NonEmptyPartsOfPlain(x);
  }

  /** A plain name is a single watercourse name. */
  lemma SplitNamesOfPlain(x: string, suffixes: seq<string>)
    requires PlainName(x)
    ensures SplitNamesOf(x, suffixes) == [x]
  {
    PartsOfPlain(x);
    ExpandAllOfOne(x, suffixes);
  }

  /** " og " followed by a non-blank is a separator match. */
  lemma SeparatorOg(s: string, n: nat)
    requires n + 4 < |s| && s[n..n + 4] == " og " && !IsSpace(s[n + 4])
    ensures SeparatorEnd(s, n, NameSeparators) == Some(n + 4)
  {
    assert s[n] == ' ' && s[n + 1] == 'o' && s[n + 2] == 'g' && s[n + 3] == ' ';
    assert SpaceRunEnd(s, n + 1) == n + 1;
    assert SpaceRunEnd(s, n) == n + 1;
    assert TokenAt(s, n + 1, "og") by {
      assert s[n + 1..n + 3] == "og";
    }
    assert SpaceRunEnd(s, n + 4) == n + 4;
    assert SpaceRunEnd(s, n + 3) == n + 4;
  }

  /** From the separator on, the rest of "A og B" becomes ",B". */
  lemma SubOfPairTail(a: string, b: string)
    requires PlainName(b)
    ensures SubFrom(a + " og " + b, |a|, NameSeparators, ",") == "," + b
  {
    var s := a + " og " + b;
    var n := |a|;
    assert s[n..n + 4] == " og ";
    assert s[n + 4..] == b;
    assert s[n + 4] == b[0] && b[0] in b;
    SeparatorOg(s, n);
    SubOfPlain(s, n + 4, NameSeparators, ",");
  }

  /** The separator " og " between two plain names becomes a comma. */
  lemma SubOfPair(a: string, b: string)
    requires PlainName(a) && PlainName(b)
    ensures SubSeparators(a + " og " + b, NameSeparators, ",") == a + "," + b
  {
    var s := a + " og " + b;
    var n := |a|;
    assert s[..n] == a;
    forall j | 0 <= j < n ensures !IsSpace(s[j]) {
      assert s[j] == a[j] && a[j] in a;
    }
    SubFromPlain(s, 0, n, NameSeparators, ",");
    SubOfPairTail(a, b);
  }

  lemma CommaPair(a: string, b: string)
    requires PlainName(a) && PlainName(b)
    ensures NonEmptyParts(SplitOn(a + "," + b, ',')) == [a, b]
  {
    assert ',' !in a && ',' !in b;
    SplitOnCons(a, ',', b);
    assert a + "," + b == a + [','] + b;
    assert SplitOn(a + "," + b, ',') == [a, b];
    NonEmptyPartsOfPlain(a);
    NonEmptyPartsOfPlain(b);
    assert [a, b][1..] == [b];
  }

  lemma PartsOfPair(a: string, b: string)
    requires PlainName(a) && PlainName(b)
    ensures Parts(a + " og " + b) == [a, b]
  {
    var sub := a + "," + b;
    SubOfPair(a, b);
    assert '/' !in sub by {
      assert forall c :: c in sub ==> c in a || c == ',' || c in b;
    }
    PartsOfCommaText(sub, a + " og " + b);
    CommaPair(a, b);
  }

  /** "A og B" names the two watercourses A and B. */
  lemma SplitNamesOfPair(a: string, b: string, suffixes: seq<string>)
    requires PlainName(a) && PlainName(b)
    ensures SplitNamesOf(a + " og " + b, suffixes) == [a, b]
  {
    PartsOfPair(a, b);
    ExpandAllOfTwo(a, b, suffixes);
  }
}
