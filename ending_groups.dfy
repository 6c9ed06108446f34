/**
 * The ending grouper (`find_common_endings2.py`): the `ending,count` lines
 * of `common_endings.txt` are read back, every ending of three to ten
 * letters of every lowered ending is collected with the rows that have it,
 * the endings shared by at least two rows are kept when no longer kept
 * ending ends with them, each kept ending gets the sum of its rows' counts,
 * the rows no kept ending covers are added with their own count, and the
 * result is sorted by reversed text.
 */
module EndingGroups {
  import opened Text
  import opened Opt
  import opened Sorting
  import opened OrderedDict
  import CommonEndings

  const MinLen: nat := 3
  const MaxLen: nat := 10
  const MinCount: nat := 2

  /** One row of the input: an ending and its count. */
  type Row = (string, int)

  // ---------------------------------------------------------------------
  // int()
  // ---------------------------------------------------------------------

  /** The digits `int()` accepts: ASCII digits, with single underscores between digits. */
  predicate IsDigitText(s: string) {
    |s| > 0 && forall i :: 0 <= i < |s| ==> IsDigit(s[i]) || (s[i] == '_' && 0 < i < |s| - 1 && IsDigit(s[i + 1]))
  }

  /** The value of a digit text, underscores skipped. */
  function DigitsValue(s: string): nat
    decreases |s|
  {
    if |s| == 0 then 0
    else if IsDigit(s[|s| - 1]) then DigitsValue(s[..|s| - 1]) * 10 + (s[|s| - 1] as int - '0' as int)
    else DigitsValue(s[..|s| - 1])
  }

  /** `int(s)` on an already stripped text, `None` where it raises `ValueError`. */
  function ParseInt(s: string): Option<int> {
    if |s| > 0 && (s[0] == '+' || s[0] == '-') then
      if IsDigitText(s[1..]) then Some(if s[0] == '-' then 0 - DigitsValue(s[1..]) as int else DigitsValue(s[1..])) else None
    else if IsDigitText(s) then Some(DigitsValue(s))
    else None
  }

  lemma {:induction false} DigitsOfNat(n: nat)
    ensures DigitsValue(NatToString(n)) == n
    decreases n
  {
    var s := NatToString(n);
    if n >= 10 {
      DigitsOfNat(n / 10);
      assert s[..|s| - 1] == NatToString(n / 10);
    } else {
      assert s[..|s| - 1] == [];
    }
  }

  /** `int(str(n)) == n`. */
  lemma ParseIntOfString(n: int)
    ensures ParseInt(IntToString(n)) == Some(n)
  {
    if n < 0 {
      ParseNegative(NatToString(-n), -n);
    } else {
      DigitText(NatToString(n));
      DigitsOfNat(n);
    }
  }

  lemma ParseNegative(t: string, m: nat)
    requires t == NatToString(m)
    ensures ParseInt("-" + t) == Some(0 - m)
  {
    assert ("-" + t)[1..] == t;
    DigitText(t);
    DigitsOfNat(m);
  }

  lemma DigitText(t: string)
    requires |t| >= 1 && forall i :: 0 <= i < |t| ==> IsDigit(t[i])
    ensures IsDigitText(t) && t[0] != '+' && t[0] != '-'
  {
  }

  // ---------------------------------------------------------------------
  // read_input
  // ---------------------------------------------------------------------

  /** `ending.strip().strip("'").strip("’")`. */
  function CleanEnding(s: string): string {
    StripSet(StripSet(Strip(s), {'\''}), {'’'})
  }

  /**
   * `ending, count = line.split(",", 1)`: the text before the first comma and
   * the rest, `None` where the unpacking raises `ValueError`.
   */
  function SplitComma(l: string): Option<(string, string)> {
    var k := IndexOfChar(l, ',');
    if k == |l| then None else Some((l[..k], l[k + 1..]))
  }

  /** The split fails exactly when there is no comma, and otherwise splits at the first one. */
  lemma SplitCommaSpec(l: string)
    ensures SplitComma(l).None? <==> ',' !in l
    ensures SplitComma(l).Some? ==> l == SplitComma(l).value.0 + "," + SplitComma(l).value.1 && ',' !in SplitComma(l).value.0
  {
    var k := IndexOfChar(l, ',');
    if k < |l| {
      assert l == l[..k] + "," + l[k + 1..];
    }
  }

  /** One line of the input file: `None` where the line is skipped. */
  function ParseLine(line: string): Option<Row> {
    var l := Strip(line);
    if l == [] then None
    else
      var parts := SplitComma(l);
      if parts.None? then None
      else
        var ending := CleanEnding(parts.value.0);
        var count := ParseInt(Strip(parts.value.1));
        if count.None? || ending == [] then None else Some((ending, count.value))
  }

  /** `read_input`: the rows of the lines that are not skipped, in order. */
  function ReadInputOf(lines: seq<string>): seq<Row> {
    Somes(MapSeq(lines, ParseLine))
  }

  /** A blank line and a line with no comma are skipped. */
  lemma ParseLineSkips(line: string)
    ensures (forall i :: 0 <= i < |line| ==> IsSpace(line[i])) ==> ParseLine(line) == None
    ensures ',' !in line ==> ParseLine(line) == None
  {
    StripAllSpace(line);
    StripChars(line);
    SplitCommaSpec(Strip(line));
  }

  /** A kept row has a non-empty ending, taken from before the first comma, without the closing quote. */
  lemma ParseLineKept(line: string)
    requires ParseLine(line).Some?
    ensures ',' in line
    ensures ParseLine(line).value.0 != [] && ',' !in ParseLine(line).value.0
    ensures ParseLine(line).value.0[0] != '’' && ParseLine(line).value.0[|ParseLine(line).value.0| - 1] != '’'
    ensures CharsWithin(ParseLine(line).value.0, line)
  {
    var l := Strip(line);
    ParseLineEnding(line);
    var a := SplitComma(l).value.0;
    assert CharsWithin(a, line) && ',' !in a && ',' in line by {
      StripChars(line);
      SplitCommaSpec(l);
      SliceCharsWithin(l, 0, |a|);
      assert l[..|a|] == a;
      assert l[|a|] == ',';
    }
    CleanEndingShape(a);
  }

  /** A kept line's ending is the clean form of the text before its first comma. */
  lemma ParseLineEnding(line: string)
    requires ParseLine(line).Some?
    ensures SplitComma(Strip(line)).Some? && ParseLine(line).value.0 == CleanEnding(SplitComma(Strip(line)).value.0)
  {
  }

  /** The clean form of a text is made of its characters and has no closing quote at either end. */
  lemma CleanEndingShape(a: string)
    ensures CharsWithin(CleanEnding(a), a)
    ensures var e := CleanEnding(a); e == [] || (e[0] != '’' && e[|e| - 1] != '’')
  {
    StripChars(a);
    StripSetChars(Strip(a), {'\''});
    StripSetChars(StripSet(Strip(a), {'\''}), {'’'});
    var e := CleanEnding(a);
    if e != [] {
      assert e[0] !in {'’'} && e[|e| - 1] !in {'’'};
    }
  }

  /** Reading a written line drops only its line break. */
  lemma StripLineBreak(x: string)
    requires x != [] && !IsSpace(x[0]) && !IsSpace(x[|x| - 1])
    ensures Strip(x + "\n") == x
  {
    var line := x + "\n";
    assert LStrip(line) == line;
    assert line[..|line| - 1] == x;
  }

  /** The first comma of `e + "," + d` is the one after `e`. */
  lemma FirstComma(e: string, d: string)
    requires ',' !in e
    ensures SplitComma(e + "," + d) == Some((e, d))
  {
    var x := e + "," + d;
    assert x[|e|] == ',';
    assert forall j :: 0 <= j < |e| ==> x[j] == e[j];
    assert IndexOfChar(x, ',') == |e|;
    assert x[..|e|] == e && x[|e| + 1..] == d;
  }

  /** `str(n)` starts with a sign or a digit and ends with a digit. */
  lemma IntToStringEnds(n: int)
    ensures IsStripped(IntToString(n)) && IntToString(n) != []
  {
    var d := IntToString(n);
    if n < 0 { assert d[|d| - 1] == NatToString(-n)[|NatToString(-n)| - 1]; }
  }

  /**
   * A line as `find_common_endings.py` writes it, `f"{suf},{cnt}\n"`, is read
   * back as the same row, for any ending with no comma and no blank or quote
   * at either end.
   */
  lemma ParseWrittenLine(e: string, c: int)
    requires e != [] && ',' !in e
    requires !IsSpace(e[0]) && !IsSpace(e[|e| - 1])
    requires e[0] != '\'' && e[0] != '’' && e[|e| - 1] != '\'' && e[|e| - 1] != '’'
    ensures ParseLine(e + "," + IntToString(c) + "\n") == Some((e, c))
  {
    var d := IntToString(c);
    var x := e + "," + d;
    IntToStringEnds(c);
    assert x[0] == e[0] && x[|x| - 1] == d[|d| - 1];
    StripLineBreak(x);
    assert e + "," + d + "\n" == x + "\n";
    FirstComma(e, d);
    StripOfStripped(d);
    CleanEndingOfClean(e);
    ParseIntOfString(c);
  }

  /** An ending with no blank or quote at either end is its own clean form. */
  lemma CleanEndingOfClean(e: string)
    requires e != [] && !IsSpace(e[0]) && !IsSpace(e[|e| - 1])
    requires e[0] != '\'' && e[0] != '’' && e[|e| - 1] != '\'' && e[|e| - 1] != '’'
    ensures CleanEnding(e) == e
  {
    StripOfStripped(e);
    StripSetNone(e, {'\''});
    StripSetNone(e, {'’'});
  }

  /** One pass of a loop that appends the present value of `f(s[i])` to `out`. */
  lemma SomesMapStep<A, B>(out: seq<B>, s: seq<A>, i: nat, f: A -> Option<B>, y: Option<B>)
    requires i < |s| && out == Somes(MapSeq(s[..i], f)) && y == f(s[i])
    ensures (if y.Some? then out + [y.value] else out) == Somes(MapSeq(s[..i + 1], f))
  {
    assert s[..i + 1] == s[..i] + [s[i]];
    MapSeqAppend(s[..i], s[i], f);
    SomesSnoc(MapSeq(s[..i], f), f(s[i]));
  }

  /** The present values of `f` are those of some element. */
  lemma SomesMapMembers<A, B>(s: seq<A>, f: A -> Option<B>)
    ensures forall r :: r in Somes(MapSeq(s, f)) <==> exists i :: 0 <= i < |s| && f(s[i]) == Some(r)
  {
    var os := MapSeq(s, f);
    SomesSpec(os);
    forall r ensures Some(r) in os <==> exists i :: 0 <= i < |s| && f(s[i]) == Some(r) {
      if exists i :: 0 <= i < |s| && f(s[i]) == Some(r) {
        var i :| 0 <= i < |s| && f(s[i]) == Some(r);
        assert os[i] == Some(r);
      }
    }
  }

  /** A loop that parses each element and appends the values that parse. */
  method KeepParsed<A, B>(s: seq<A>, parse: A -> Option<B>) returns (out: seq<B>)
    ensures out == Somes(MapSeq(s, parse))
  {
    out := [];
    var i := 0;
    while i < |s|
      invariant 0 <= i <= |s|
      invariant out == Somes(MapSeq(s[..i], parse))
    {
      var parsed := parse(s[i]);
      SomesMapStep(out, s, i, parse, parsed);
      if parsed.Some? {
        out := out + [parsed.value];
      }
      i := i + 1;
    }
    assert s[..i] == s;
  }

  /** The reading loop, parsing each line of the file in turn. */
  method ReadInput(lines: seq<string>) returns (rows: seq<Row>)
    ensures rows == ReadInputOf(lines)
  {
    rows := KeepParsed(lines, ParseLine);
  }

  /** A row is read exactly when some line parses to it; its ending is non-empty and has no comma. */
  lemma ReadInputSpec(lines: seq<string>, r: Row)
    ensures r in ReadInputOf(lines) <==> exists i :: 0 <= i < |lines| && ParseLine(lines[i]) == Some(r)
    ensures r in ReadInputOf(lines) ==> r.0 != [] && ',' !in r.0
  {
    SomesMapMembers(lines, ParseLine);
    if r in ReadInputOf(lines) {
      var i :| 0 <= i < |lines| && (ParseLine)(lines[i]) == Some(r);
      assert ParseLine(lines[i]) == Some(r);
      ParseLineKept(lines[i]);
    }
  }

  // ---------------------------------------------------------------------
  // find_common_suffixes: the suffix map
  // ---------------------------------------------------------------------

  /** `suffix_map`: each suffix with the rows that have it, in first-seen order. */
  type Buckets = ODict<string, seq<Row>>

  /** `suffix_map[s]` of the `defaultdict(list)`, `[]` for a missing key. */
  function Bucket(d: Buckets, s: string): seq<Row> {
    if s in d.values then d.values[s] else []
  }

  /** `suffix_map[suf].append(row)`: a missing key is added at the end. */
  function Append(d: Buckets, s: string, row: Row): Buckets {
    if s in d.values then ODict(d.keys, d.values[s := d.values[s] + [row]])
    else ODict(d.keys + [s], d.values[s := [row]])
  }

  /** The suffixes indexed for one ending: those of the lowered (not stripped) ending, shortest first. */
  function EndingSuffixes(ending: string): seq<string> {
    CommonEndings.SuffixesOf(Lower(ending), MinLen, MaxLen)
  }

  /** The row appended under each suffix in turn. */
  function AppendAll(d: Buckets, sufs: seq<string>, row: Row): Buckets
    decreases |sufs|
  {
    if |sufs| == 0 then d else Append(AppendAll(d, sufs[..|sufs| - 1], row), sufs[|sufs| - 1], row)
  }

  /** A dictionary whose every list holds at least one row. */
  ghost predicate WellFormed(d: Buckets) {
    Valid(d) && forall s :: s in d.values ==> d.values[s] != []
  }

  lemma AppendWellFormed(d: Buckets, s: string, row: Row)
    requires WellFormed(d)
    ensures WellFormed(Append(d, s, row))
  {
  }

  lemma {:induction false} AppendAllWellFormed(d: Buckets, sufs: seq<string>, row: Row)
    requires WellFormed(d)
    ensures WellFormed(AppendAll(d, sufs, row))
    decreases |sufs|
  {
    if |sufs| > 0 {
      AppendAllWellFormed(d, sufs[..|sufs| - 1], row);
      AppendWellFormed(AppendAll(d, sufs[..|sufs| - 1], row), sufs[|sufs| - 1], row);
    }
  }

  /** Appending under distinct suffixes adds the row once to each of their lists and to no other. */
  lemma {:induction false} AppendAllBucket(d: Buckets, sufs: seq<string>, row: Row, t: string)
    requires Distinct(sufs)
    ensures Bucket(AppendAll(d, sufs, row), t) == Bucket(d, t) + (if t in sufs then [row] else [])
    decreases |sufs|
  {
    if |sufs| > 0 {
      var init := sufs[..|sufs| - 1];
      assert sufs == init + [sufs[|sufs| - 1]];
      AppendAllBucket(d, init, row, t);
    }
  }

  /** The suffix map after the loop over the rows. */
  function SuffixMapOf(rows: seq<Row>): (r: Buckets)
    ensures WellFormed(r)
    decreases |rows|
  {
    if |rows| == 0 then Empty()
    else
      var d := SuffixMapOf(rows[..|rows| - 1]);
      var row := rows[|rows| - 1];
      AppendAllWellFormed(d, EndingSuffixes(row.0), row);
      AppendAll(d, EndingSuffixes(row.0), row)
  }

  /** The row's lowered ending ends with `s`, which has three to ten letters. */
  predicate Indexes(row: Row, s: string) {
    MinLen <= |s| <= MaxLen && EndsWith(Lower(row.0), s)
  }

  /** The rows, in order and with repeats, under which `s` is indexed. */
  function MembersOf(rows: seq<Row>, s: string): seq<Row>
    decreases |rows|
  {
    if |rows| == 0 then []
    else MembersOf(rows[..|rows| - 1], s) + (if s in EndingSuffixes(rows[|rows| - 1].0) then [rows[|rows| - 1]] else [])
  }

  /** The members of `s` are the rows that index it, and `s` is no longer than their endings. */
  lemma {:induction false} MembersSpec(rows: seq<Row>, s: string, r: Row)
    ensures r in MembersOf(rows, s) <==> r in rows && Indexes(r, s)
    ensures Indexes(r, s) ==> |s| <= |r.0|
    decreases |rows|
  {
    if |rows| > 0 {
      var init := rows[..|rows| - 1];
      var x := rows[|rows| - 1];
      assert rows == init + [x];
      MembersSpec(init, s, r);
      CommonEndings.SuffixesMembers(Lower(x.0), MinLen, MaxLen);
    }
  }

  /** Each list of the suffix map holds exactly the members of its suffix, and the keys are the suffixes with members. */
  lemma {:induction false} SuffixMapBucket(rows: seq<Row>, s: string)
    ensures Bucket(SuffixMapOf(rows), s) == MembersOf(rows, s)
    ensures s in SuffixMapOf(rows).values <==> MembersOf(rows, s) != []
    decreases |rows|
  {
    if |rows| > 0 {
      var init := rows[..|rows| - 1];
      var row := rows[|rows| - 1];
      SuffixMapBucket(init, s);
      CommonEndings.SuffixesLengths(Lower(row.0), MinLen, MaxLen);
      AppendAllBucket(SuffixMapOf(init), EndingSuffixes(row.0), row, s);
    }
  }

  /** The inner loop over `range(min_len, min(max_len, len(e)) + 1)`. */
  method AddSuffixes(d0: Buckets, row: Row) returns (d: Buckets)
    ensures d == AppendAll(d0, EndingSuffixes(row.0), row)
  {
    var e := Lower(row.0);
    ghost var sufs := EndingSuffixes(row.0);
    var top := if MaxLen < |e| then MaxLen else |e|;
    d := d0;
    var i := MinLen;
    while i <= top
      invariant MinLen <= i && i - MinLen <= |sufs|
      invariant top >= MinLen ==> i <= top + 1
      invariant d == AppendAll(d0, sufs[..i - MinLen], row)
    {
      var suf := e[|e| - i..];
      assert suf == sufs[i - MinLen];
      assert sufs[..i - MinLen + 1][..i - MinLen] == sufs[..i - MinLen];
      d := Append(d, suf, row);
      i := i + 1;
    }
    assert sufs[..i - MinLen] == sufs;
  }

  /** The loop over the rows. */
  method BuildSuffixMap(rows: seq<Row>) returns (suffixMap: Buckets)
    ensures suffixMap == SuffixMapOf(rows)
  {
    suffixMap := Empty();
    var i := 0;
    while i < |rows|
      invariant 0 <= i <= |rows|
      invariant suffixMap == SuffixMapOf(rows[..i])
    {
      assert rows[..i + 1][..i] == rows[..i];
      suffixMap := AddSuffixes(suffixMap, rows[i]);
      i := i + 1;
    }
    assert rows[..i] == rows;
  }

  // ---------------------------------------------------------------------
  // find_common_suffixes: candidates, longest_unique, summarized
  // ---------------------------------------------------------------------

  type Group = (string, seq<Row>)

  /** `{suf: vals for suf, vals in suffix_map.items() if len(vals) >= min_count}`, as its items. */
  function CandidatesOf(items: seq<Group>): seq<Group>
    decreases |items|
  {
    if |items| == 0 then []
    else CandidatesOf(items[..|items| - 1]) + (if |items[|items| - 1].1| >= MinCount then [items[|items| - 1]] else [])
  }

  lemma {:induction false} CandidatesSpec(items: seq<Group>)
    requires DistinctBy(items, CommonEndings.Key)
    ensures DistinctBy(CandidatesOf(items), CommonEndings.Key)
    ensures forall p :: p in CandidatesOf(items) <==> p in items && |p.1| >= MinCount
    decreases |items|
  {
    if |items| > 0 {
      var init := items[..|items| - 1];
      var x := items[|items| - 1];
      assert DistinctBy(init, CommonEndings.Key) by {
        forall i, j | 0 <= i < j < |init| ensures CommonEndings.Key(init[i]) != CommonEndings.Key(init[j]) {
          assert init[i] == items[i] && init[j] == items[j];
        }
      }
      CandidatesSpec(init);
      assert items == init + [x];
      var c := CandidatesOf(init);
      forall k | 0 <= k < |c| ensures CommonEndings.Key(c[k]) != CommonEndings.Key(x) {
        assert c[k] in init;
        var i :| 0 <= i < |init| && init[i] == c[k];
        assert items[i] == c[k];
      }
    }
  }

  /** The order of `key=lambda s: (-len(s), s)`. */
  predicate LongerKeyFirst(a: Group, b: Group) {
    |a.0| > |b.0| || (|a.0| == |b.0| && StrLess(a.0, b.0))
  }

  /** Sorting keeps the groups, each suffix once, and puts longer suffixes first. */
  lemma SortCandidatesSpec(items: seq<Group>)
    requires DistinctBy(items, CommonEndings.Key)
    ensures DistinctBy(SortBy(items, LongerKeyFirst), CommonEndings.Key)
    ensures forall p :: p in SortBy(items, LongerKeyFirst) <==> p in items
    ensures forall i, j :: 0 <= i < j < |SortBy(items, LongerKeyFirst)| ==>
      |SortBy(items, LongerKeyFirst)[i].0| >= |SortBy(items, LongerKeyFirst)[j].0|
  {
    forall a: Group, b: Group, c: Group | LongerKeyFirst(a, b) && LongerKeyFirst(b, c)
      ensures LongerKeyFirst(a, c)
    {
      if |a.0| == |b.0| == |c.0| {
        StrLessTransitive(a.0, b.0, c.0);
      }
    }
    forall a: Group ensures !LongerKeyFirst(a, a) {
      StrLessIrreflexive(a.0);
    }
    SortBySorted(items, LongerKeyFirst);
    SortByPermutation(items, LongerKeyFirst);
    SortByDistinctBy(items, LongerKeyFirst, CommonEndings.Key);
    var o := SortBy(items, LongerKeyFirst);
    forall i, j | 0 <= i < j < |o| ensures |o[i].0| >= |o[j].0| {
      assert !LongerKeyFirst(o[j], o[i]);
    }
    forall p ensures p in o <==> p in items {
      assert p in o <==> multiset(o)[p] > 0;
      assert p in items <==> multiset(items)[p] > 0;
    }
  }

  /** `sum(cnt for _, cnt in vals)`. */
  function Total(vals: seq<Row>): int
    decreases |vals|
  {
    if |vals| == 0 then 0 else Total(vals[..|vals| - 1]) + vals[|vals| - 1].1
  }

  /** `{suf: sum(...) for suf, vals in longest_unique.items()}`: the same keys in the same order. */
  function Summarize(d: ODict<string, seq<Row>>): (r: ODict<string, int>)
    ensures Valid(d) ==> Valid(r)
  {
    ODict(d.keys, map s | s in d.values :: Total(d.values[s]))
  }

  /** `find_common_suffixes(rows)`. */
  function FindCommonSuffixesOf(rows: seq<Row>): (r: ODict<string, int>)
    ensures Valid(r)
  {
    var candidates := CandidatesOf(CommonEndings.Items(SuffixMapOf(rows)));
    Summarize(CommonEndings.KeepLongestOf(SortBy(candidates, LongerKeyFirst)))
  }

  method FindCommonSuffixes(rows: seq<Row>) returns (summarized: ODict<string, int>)
    ensures summarized == FindCommonSuffixesOf(rows)
  {
    var suffixMap := BuildSuffixMap(rows);
    var candidates := CandidatesOf(CommonEndings.Items(suffixMap));
    var longestUnique := CommonEndings.KeepLongest(SortBy(candidates, LongerKeyFirst));
    summarized := Summarize(longestUnique);
  }

  /** A suffix shared by at least two rows. */
  predicate Common(rows: seq<Row>, s: string) {
    |MembersOf(rows, s)| >= MinCount
  }

  /** The candidates are the shared suffixes, each once, with their members. */
  lemma CandidateItems(rows: seq<Row>)
    ensures DistinctBy(CandidatesOf(CommonEndings.Items(SuffixMapOf(rows))), CommonEndings.Key)
    ensures forall p :: p in CandidatesOf(CommonEndings.Items(SuffixMapOf(rows))) <==>
      Common(rows, p.0) && p.1 == MembersOf(rows, p.0)
  {
    var d := SuffixMapOf(rows);
    CommonEndings.ItemsSpec(d);
    CandidatesSpec(CommonEndings.Items(d));
    forall p: Group ensures p in CandidatesOf(CommonEndings.Items(d)) <==> Common(rows, p.0) && p.1 == MembersOf(rows, p.0) {
      SuffixMapBucket(rows, p.0);
    }
  }

  /** Domination among the candidates is domination by any shared suffix. */
  lemma DominatedByCommon(items: seq<Group>, rows: seq<Row>)
    requires forall p :: p in items <==> Common(rows, p.0) && p.1 == MembersOf(rows, p.0)
    ensures forall s :: CommonEndings.Dominated(items, s) <==> exists t :: Common(rows, t) && t != s && EndsWith(t, s)
  {
    forall s ensures CommonEndings.Dominated(items, s) <==> exists t :: Common(rows, t) && t != s && EndsWith(t, s) {
      if exists t :: Common(rows, t) && t != s && EndsWith(t, s) {
        var t :| Common(rows, t) && t != s && EndsWith(t, s);
        assert (t, MembersOf(rows, t)) in items;
      }
    }
  }

  /**
   * The summary holds exactly the suffixes shared by at least two rows that
   * no other shared suffix ends with, each with the sum of its members' counts.
   */
  lemma FindCommonSuffixesSpec(rows: seq<Row>, s: string)
    ensures s in FindCommonSuffixesOf(rows).values <==>
      Common(rows, s) && !exists t :: Common(rows, t) && t != s && EndsWith(t, s)
    ensures s in FindCommonSuffixesOf(rows).values ==> FindCommonSuffixesOf(rows).values[s] == Total(MembersOf(rows, s))
  {
    var candidates := CandidatesOf(CommonEndings.Items(SuffixMapOf(rows)));
    CandidateItems(rows);
    var sorted := SortBy(candidates, LongerKeyFirst);
    SortCandidatesSpec(candidates);
    DominatedByCommon(sorted, rows);
    var kept := CommonEndings.KeepLongestOf(sorted);
    CommonEndings.KeptItems(sorted);
    CommonEndings.ItemsSpec(kept);
    assert (s, MembersOf(rows, s)) in sorted <==> Common(rows, s);
    if s in kept.values {
      assert (s, kept.values[s]) in CommonEndings.Items(kept);
    }
  }

  /** Two kept suffixes never end one with the other. */
  lemma KeptNotNested(rows: seq<Row>, s: string, t: string)
    requires s in FindCommonSuffixesOf(rows).values && t in FindCommonSuffixesOf(rows).values && s != t
    ensures !EndsWith(t, s)
  {
    FindCommonSuffixesSpec(rows, s);
    FindCommonSuffixesSpec(rows, t);
  }

  /** A shared suffix has three to ten letters and is indexed by at least two rows, each at least as long. */
  lemma CommonBounds(rows: seq<Row>, s: string)
    requires Common(rows, s)
    ensures MinLen <= |s| <= MaxLen
    ensures forall r :: r in MembersOf(rows, s) ==> r in rows && Indexes(r, s) && |s| <= |r.0|
  {
    var m := MembersOf(rows, s);
    MembersSpec(rows, s, m[0]);
    forall r | r in m ensures r in rows && Indexes(r, s) && |s| <= |r.0| {
      MembersSpec(rows, s, r);
    }
  }

  // ---------------------------------------------------------------------
  // main: the endings no kept suffix covers
  // ---------------------------------------------------------------------

  /** `ending.endswith(suf)` for some `suf` in `all_suffix_members`. */
  predicate GroupedBy(ending: string, members: set<string>) {
    exists suf :: suf in members && EndsWith(ending, suf)
  }

  /** The loop over the set of kept suffixes, which stops at the first one the ending ends with. */
  method FindMember(ending: string, members: set<string>) returns (found: bool)
    ensures found <==> GroupedBy(ending, members)
  {
    found := false;
    var rest := members;
    while rest != {} && !found
      invariant rest <= members
      invariant found ==> GroupedBy(ending, members)
      invariant !found ==> forall s :: s in members - rest ==> !EndsWith(ending, s)
      decreases |rest|
    {
      var suf :| suf in rest;
      if EndsWith(ending, suf) {
        found := true;
      }
      rest := rest - {suf};
    }
  }

  /** `grouped` after the loop over the rows. */
  function GroupedOf(rows: seq<Row>, members: set<string>): set<string>
    decreases |rows|
  {
    if |rows| == 0 then {}
    else GroupedOf(rows[..|rows| - 1], members) + (if GroupedBy(rows[|rows| - 1].0, members) then {rows[|rows| - 1].0} else {})
  }

  /** The grouped endings are the endings of rows that end with a kept suffix. */
  lemma {:induction false} GroupedSpec(rows: seq<Row>, members: set<string>, e: string)
    ensures e in GroupedOf(rows, members) <==> GroupedBy(e, members) && exists i :: 0 <= i < |rows| && rows[i].0 == e
    decreases |rows|
  {
    if |rows| > 0 {
      var init := rows[..|rows| - 1];
      GroupedSpec(init, members, e);
      if exists i :: 0 <= i < |init| && init[i].0 == e {
        var i :| 0 <= i < |init| && init[i].0 == e;
        assert rows[i].0 == e;
      }
      if exists i :: 0 <= i < |rows| && rows[i].0 == e {
        var i :| 0 <= i < |rows| && rows[i].0 == e;
        if i < |init| {
          assert init[i].0 == e;
        }
      }
    }
  }

  method GroupEndings(rows: seq<Row>, members: set<string>) returns (grouped: set<string>)
    ensures grouped == GroupedOf(rows, members)
  {
    grouped := {};
    var i := 0;
    while i < |rows|
      invariant 0 <= i <= |rows|
      invariant grouped == GroupedOf(rows[..i], members)
    {
      assert rows[..i + 1][..i] == rows[..i];
      var found := FindMember(rows[i].0, members);
      if found {
        grouped := grouped + {rows[i].0};
      }
      i := i + 1;
    }
    assert rows[..i] == rows;
  }

  /** `summarized[ending] = cnt` for each row whose ending is not grouped, in order. */
  function MergeOf(d: ODict<string, int>, rows: seq<Row>, grouped: set<string>): (r: ODict<string, int>)
    requires Valid(d)
    ensures Valid(r)
    decreases |rows|
  {
    if |rows| == 0 then d
    else
      var m := MergeOf(d, rows[..|rows| - 1], grouped);
      var (ending, cnt) := rows[|rows| - 1];
      if ending in grouped then m else Put(m, ending, cnt)
  }

  /** Row `i` is the last row with its ending. */
  predicate IsLast(rows: seq<Row>, i: int) {
    0 <= i < |rows| && forall j :: i < j < |rows| ==> rows[j].0 != rows[i].0
  }

  /**
   * After the merge a key is an old key or the ending of an ungrouped row;
   * an old key no row writes keeps its value, and an ungrouped ending has
   * the count of its last row.
   */
  lemma {:induction false} MergeValue(d: ODict<string, int>, rows: seq<Row>, grouped: set<string>, s: string)
    requires Valid(d)
    ensures s in MergeOf(d, rows, grouped).values <==>
      s in d.values || (s !in grouped && exists i :: 0 <= i < |rows| && rows[i].0 == s)
    ensures s in d.values && (s in grouped || forall i :: 0 <= i < |rows| ==> rows[i].0 != s) ==>
      MergeOf(d, rows, grouped).values[s] == d.values[s]
    ensures forall i :: IsLast(rows, i) && rows[i].0 == s && s !in grouped ==> MergeOf(d, rows, grouped).values[s] == rows[i].1
    decreases |rows|
  {
    if |rows| > 0 {
      var init := rows[..|rows| - 1];
      var x := rows[|rows| - 1];
      assert rows == init + [x];
      MergeValue(d, init, grouped, s);
      MergeStep(d, rows, grouped);
      var m := MergeOf(d, init, grouped).values;
      var r := MergeOf(d, rows, grouped).values;
      if x.0 != s || x.0 in grouped {
        assert (s in r <==> s in m) && (s in m ==> r[s] == m[s]);
      } else {
        assert s in r && r[s] == x.1;
      }
      forall i | IsLast(rows, i) && rows[i].0 == s && s !in grouped && i < |init|
        ensures IsLast(init, i)
      {
      }
    }
  }

  /** One step of the merge: the last row is put unless its ending is grouped. */
  lemma MergeStep(d: ODict<string, int>, rows: seq<Row>, grouped: set<string>)
    requires Valid(d) && |rows| > 0
    ensures var m := MergeOf(d, rows[..|rows| - 1], grouped).values;
      MergeOf(d, rows, grouped).values ==
        if rows[|rows| - 1].0 in grouped then m else m[rows[|rows| - 1].0 := rows[|rows| - 1].1]
  {
  }

  method MergeUngrouped(d0: ODict<string, int>, rows: seq<Row>, grouped: set<string>) returns (d: ODict<string, int>)
    requires Valid(d0)
    ensures d == MergeOf(d0, rows, grouped)
  {
    d := d0;
    var i := 0;
    while i < |rows|
      invariant 0 <= i <= |rows|
      invariant d == MergeOf(d0, rows[..i], grouped)
    {
      assert rows[..i + 1][..i] == rows[..i];
      var (ending, cnt) := rows[i];
      if ending !in grouped {
        d := Put(d, ending, cnt);
      }
      i := i + 1;
    }
    assert rows[..i] == rows;
  }

  // ---------------------------------------------------------------------
  // main
  // ---------------------------------------------------------------------

  /** A suffix that is kept: shared, and no other shared suffix ends with it. */
  ghost predicate Kept(rows: seq<Row>, s: string) {
    Common(rows, s) && !exists t :: Common(rows, t) && t != s && EndsWith(t, s)
  }

  /** The ending ends with a kept suffix. */
  ghost predicate Covered(rows: seq<Row>, e: string) {
    exists s :: Kept(rows, s) && EndsWith(e, s)
  }

  /**
   * The rows of `common_endings_summary.txt`, or `None` when no row could be
   * read and nothing is written.
   */
  function SummaryOf(lines: seq<string>): Option<seq<(string, int)>> {
    var rows := ReadInputOf(lines);
    if rows == [] then None
    else
      var summarized := FindCommonSuffixesOf(rows);
      var grouped := GroupedOf(rows, summarized.values.Keys);
      Some(SortBy(CommonEndings.Items(MergeOf(summarized, rows, grouped)), CommonEndings.BackBefore))
  }

  method SummarizeEndings(lines: seq<string>) returns (output: Option<seq<(string, int)>>)
    ensures output == SummaryOf(lines)
  {
    var rows := ReadInput(lines);
    if rows == [] {
      return None;
    }
    var summarized := FindCommonSuffixes(rows);
    var allSuffixMembers := summarized.values.Keys;
    var grouped := GroupEndings(rows, allSuffixMembers);
    var merged := MergeUngrouped(summarized, rows, grouped);
    output := Some(SortBy(CommonEndings.Items(merged), CommonEndings.BackBefore));
  }

  /** The kept suffixes are the keys of the summary, and an ending is grouped exactly when a kept suffix covers it. */
  lemma GroupedCovered(rows: seq<Row>, e: string)
    ensures GroupedBy(e, FindCommonSuffixesOf(rows).values.Keys) <==> Covered(rows, e)
  {
    var members := FindCommonSuffixesOf(rows).values.Keys;
    if GroupedBy(e, members) {
      var s :| s in members && EndsWith(e, s);
      FindCommonSuffixesSpec(rows, s);
    }
    if Covered(rows, e) {
      var s :| Kept(rows, s) && EndsWith(e, s);
      FindCommonSuffixesSpec(rows, s);
    }
  }

  /** Every ending that occurs has a last row. */
  lemma LastRow(rows: seq<Row>, i: nat)
    requires i < |rows|
    ensures exists k :: IsLast(rows, k) && rows[k].0 == rows[i].0
    decreases |rows| - i
  {
    if !IsLast(rows, i) {
      var j :| i < j < |rows| && rows[j].0 == rows[i].0;
      LastRow(rows, j);
    }
  }

  /** The merged dictionary as a test on one key. */
  lemma MergedEntry(rows: seq<Row>, s: string, v: int)
    ensures var summarized := FindCommonSuffixesOf(rows);
      var merged := MergeOf(summarized, rows, GroupedOf(rows, summarized.values.Keys));
      s in merged.values && merged.values[s] == v <==>
      (Kept(rows, s) && v == Total(MembersOf(rows, s))) ||
      (!Covered(rows, s) && exists i :: IsLast(rows, i) && rows[i] == (s, v))
  {
    var summarized := FindCommonSuffixesOf(rows);
    var members := summarized.values.Keys;
    var grouped := GroupedOf(rows, members);
    var merged := MergeOf(summarized, rows, grouped);
    FindCommonSuffixesSpec(rows, s);
    GroupedCovered(rows, s);
    GroupedSpec(rows, members, s);
    MergeValue(summarized, rows, grouped, s);
    if Kept(rows, s) {
      assert EndsWith(s, s);
    } else if !Covered(rows, s) && exists i :: 0 <= i < |rows| && rows[i].0 == s {
      var i :| 0 <= i < |rows| && rows[i].0 == s;
      LastRow(rows, i);
      var k :| IsLast(rows, k) && rows[k].0 == s;
      if exists i :: IsLast(rows, i) && rows[i] == (s, v) {
        var i :| IsLast(rows, i) && rows[i] == (s, v);
        assert i == k;
      }
    }
  }

  /**
   * The summary lists each kept suffix with the sum of its members' counts
   * and each ending no kept suffix covers with the count of its last row,
   * and nothing else; each key once, ordered by reversed text.
   */
  lemma SummarySpec(lines: seq<string>, p: (string, int))
    requires SummaryOf(lines).Some?
    ensures var rows := ReadInputOf(lines);
      p in SummaryOf(lines).value <==>
      (Kept(rows, p.0) && p.1 == Total(MembersOf(rows, p.0))) ||
      (!Covered(rows, p.0) && exists i :: IsLast(rows, i) && rows[i] == p)
    ensures DistinctBy(SummaryOf(lines).value, CommonEndings.Key)
    ensures forall i, j :: 0 <= i < j < |SummaryOf(lines).value| ==>
      !StrLess(Reverse(SummaryOf(lines).value[j].0), Reverse(SummaryOf(lines).value[i].0))
  {
    var rows := ReadInputOf(lines);
    var summarized := FindCommonSuffixesOf(rows);
    var merged := MergeOf(summarized, rows, GroupedOf(rows, summarized.values.Keys));
    var items := CommonEndings.Items(merged);
    var out := SortBy(items, CommonEndings.BackBefore);
    CommonEndings.ItemsSpec(merged);
    CommonEndings.BackSortSpec(items);
    SortByDistinctBy(items, CommonEndings.BackBefore, CommonEndings.Key);
    MergedEntry(rows, p.0, p.1);
    assert p in out <==> multiset(out)[p] > 0;
    assert p in items <==> multiset(items)[p] > 0;
  }
}
