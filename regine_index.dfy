/**
 * The watercourse index builder (`build_regine_index.py`): the names of a
 * catchment record, with parenthesised remarks removed and split at '/', ','
 * and the word "og"; the word-wise ending-to-category rewrite; and one index
 * row per name of every record that has a number and both coordinates.
 */
module RegineIndexBuilder {
  import opened Text
  import opened Opt
  import opened Suffixes
  import opened CategoryNormalization
  import opened LegacyNames

  // ---------------------------------------------------------------------
  // PAREN_PATTERN: optional whitespace, '(', no ')', then ')'
  // ---------------------------------------------------------------------

  /** The end of the parenthesised group (with the whitespace before it) that begins at i, if one does. */
  function ParenGroupAt(s: string, i: nat): (r: Option<nat>)
    requires i <= |s|
    ensures r.Some? ==> i < r.value <= |s|
  {
    var j := SpaceRunEnd(s, i);
    if j < |s| && s[j] == '(' then
      var k := j + 1 + IndexOfChar(s[j + 1..], ')');
      if k < |s| then Some(k + 1) else None
    else None
  }

  /** `PAREN_PATTERN.sub("", s[i..])`: scanning left to right, every group is dropped. */
  function RemoveParensFrom(s: string, i: nat): string
    requires i <= |s|
    decreases |s| - i
  {
    if i == |s| then []
    else
      match ParenGroupAt(s, i)
      case Some(e) => RemoveParensFrom(s, e)
      case None => [s[i]] + RemoveParensFrom(s, i + 1)
  }

  function RemoveParens(s: string): string { RemoveParensFrom(s, 0) }

  /** No '(' is followed, anywhere later, by a ')'. */
  predicate ParenFree(s: string) {
    forall p, q :: 0 <= p < q < |s| && s[p] == '(' ==> s[q] != ')'
  }

  lemma {:induction false} RemoveParensChars(s: string, i: nat)
    requires i <= |s|
    ensures CharsWithin(RemoveParensFrom(s, i), s[i..])
    decreases |s| - i
  {
    if i < |s| {
      match ParenGroupAt(s, i)
      case Some(e) =>
        RemoveParensChars(s, e);
        forall c | c in RemoveParensFrom(s, e) ensures c in s[i..] {
          assert c in s[e..];
          var k :| 0 <= k < |s[e..]| && s[e..][k] == c;
          assert s[i..][e - i + k] == c;
        }
      case None =>
        RemoveParensChars(s, i + 1);
        forall c | c in RemoveParensFrom(s, i) ensures c in s[i..] {
          if c != s[i] {
            assert c in s[i + 1..];
            var k :| 0 <= k < |s[i + 1..]| && s[i + 1..][k] == c;
            assert s[i..][k + 1] == c;
          }
        }
    }
  }

  /** A '(' that starts no group has no ')' anywhere after it. */
  lemma OpenWithoutClose(s: string, i: nat)
    requires i < |s| && s[i] == '(' && ParenGroupAt(s, i) == None
    ensures ')' !in s[i + 1..]
  {
    assert SpaceRunEnd(s, i) == i;
    var k := IndexOfChar(s[i + 1..], ')');
    assert k == |s[i + 1..]|;
  }

  /** What the removal leaves holds no parenthesised group. */
  lemma {:induction false} RemoveParensFromFree(s: string, i: nat)
    requires i <= |s|
    ensures ParenFree(RemoveParensFrom(s, i))
    decreases |s| - i
  {
    if i < |s| {
      match ParenGroupAt(s, i)
      case Some(e) =>
        RemoveParensFromFree(s, e);
      case None =>
        var rest := RemoveParensFrom(s, i + 1);
        RemoveParensFromFree(s, i + 1);
        if s[i] == '(' {
          RemoveParensChars(s, i + 1);
          OpenWithoutClose(s, i);
        }
        ParenFreeCons(s[i], rest);
    }
  }

  /** A character before paren-free text keeps it paren-free unless it opens a group the text closes. */
  lemma ParenFreeCons(x: char, rest: string)
    requires ParenFree(rest) && (x == '(' ==> ')' !in rest)
    ensures ParenFree([x] + rest)
  {
    var r := [x] + rest;
    forall p, q | 0 <= p < q < |r| && r[p] == '(' ensures r[q] != ')' {
      if p == 0 {
        assert r[q] == rest[q - 1];
      } else {
        assert r[p] == rest[p - 1] && r[q] == rest[q - 1];
      }
    }
  }

  /** Text with no '(' passes unchanged. */
  lemma {:induction false} RemoveParensFromPlain(s: string, i: nat)
    requires i <= |s| && '(' !in s
    ensures RemoveParensFrom(s, i) == s[i..]
    decreases |s| - i
  {
    if i < |s| {
      var j := SpaceRunEnd(s, i);
      assert j < |s| ==> s[j] in s;
      RemoveParensFromPlain(s, i + 1);
      assert s[i..] == [s[i]] + s[i + 1..];
    }
  }

  // ---------------------------------------------------------------------
  // SPLIT_PATTERN: '/', ',' or the word "og", ignoring case
  // ---------------------------------------------------------------------

  /** `\bog\b` at i, case-insensitively. */
  predicate OgWordAt(s: string, i: nat) {
    i + 2 <= |s| && LowerChar(s[i]) == 'o' && LowerChar(s[i + 1]) == 'g'
    && (i == 0 || !IsWordChar(s[i - 1]))
    && (i + 2 == |s| || !IsWordChar(s[i + 2]))
  }

  /** The length of the separator at i, 0 when there is none. */
  function SeparatorAt(s: string, i: nat): (n: nat)
    requires i < |s|
    ensures n <= 2 && i + n <= |s|
    ensures n == 0 ==> s[i] != '/' && s[i] != ','
  {
    if s[i] == '/' || s[i] == ',' then 1 else if OgWordAt(s, i) then 2 else 0
  }

  /** `SPLIT_PATTERN.split(s)` for the piece begun at `start`, scanning from i. */
  function SplitFrom(s: string, start: nat, i: nat): (ps: seq<string>)
    requires start <= i <= |s|
    ensures |ps| >= 1
    decreases |s| - i
  {
    if i == |s| then [s[start..]]
    else
      var n := SeparatorAt(s, i);
      if n == 0 then SplitFrom(s, start, i + 1)
      else [s[start..i]] + SplitFrom(s, i + n, i + n)
  }

  predicate NoSlashOrComma(p: string) { '/' !in p && ',' !in p }

  /** Every piece lies inside s and holds no '/' or ','. */
  lemma {:induction false} SplitFromPieces(s: string, start: nat, i: nat)
    requires start <= i <= |s|
    requires forall k :: start <= k < i ==> s[k] != '/' && s[k] != ','
    ensures forall p :: p in SplitFrom(s, start, i) ==> NoSlashOrComma(p) && exists a, b :: 0 <= a <= b <= |s| && p == s[a..b]
    decreases |s| - i
  {
    if i == |s| {
      var p := s[start..];
      forall c | c in p ensures c != '/' && c != ',' {
        var k :| 0 <= k < |p| && p[k] == c;
        assert s[start + k] == c;
      }
    } else {
      var n := SeparatorAt(s, i);
      if n == 0 {
        SplitFromPieces(s, start, i + 1);
      } else {
        var p := s[start..i];
        forall c | c in p ensures c != '/' && c != ',' {
          var k :| 0 <= k < |p| && p[k] == c;
          assert s[start + k] == c;
        }
        SplitFromPieces(s, i + n, i + n);
      }
    }
  }

  /** Text with no separator is one piece. */
  lemma {:induction false} SplitFromPlain(s: string, start: nat, i: nat)
    requires start <= i <= |s|
    requires forall k :: i <= k < |s| ==> SeparatorAt(s, k) == 0
    ensures SplitFrom(s, start, i) == [s[start..]]
    decreases |s| - i
  {
    if i < |s| {
      SplitFromPlain(s, start, i + 1);
    }
  }

  /** `normalise_names(value)`. */
  function NormaliseNamesOf(value: string): seq<string> {
    var stripped := Strip(RemoveParens(value));
    if stripped == [] then [] else StrippedPieces(SplitFrom(stripped, 0, 0))
  }

  /** A slice of a slice is a slice. */
  lemma SliceOfSlice(s: string, a: nat, b: nat, c: nat, d: nat)
    requires a <= b <= |s| && c <= d <= b - a
    ensures s[a..b][c..d] == s[a + c..a + d]
  {
    assert forall k :: 0 <= k < d - c ==> s[a..b][c..d][k] == s[a + c + k];
  }

  /** Stripping returns a slice. */
  lemma StripIsSlice(s: string)
    ensures exists a, b :: 0 <= a <= b <= |s| && Strip(s) == s[a..b]
  {
    var l := LStrip(s);
    var a := |s| - |l|;
    assert Strip(s) == l[..|Strip(s)|];
    SliceOfSlice(s, a, |s|, 0, |Strip(s)|);
  }

  lemma SliceParenFree(s: string, a: nat, b: nat)
    requires a <= b <= |s| && ParenFree(s)
    ensures ParenFree(s[a..b])
  {
    var t := s[a..b];
    forall p, q | 0 <= p < q < |t| && t[p] == '(' ensures t[q] != ')' {
      assert t[p] == s[a + p] && t[q] == s[a + q];
    }
  }

  lemma SliceNoSlashOrComma(s: string, a: nat, b: nat)
    requires a <= b <= |s| && NoSlashOrComma(s)
    ensures NoSlashOrComma(s[a..b])
  {
    forall c | c in s[a..b] ensures c in s {
      var k :| 0 <= k < b - a && s[a..b][k] == c;
      assert s[a + k] == c;
    }
  }

  lemma StrippedPiecesFrom(ps: seq<string>, s: string)
    requires forall p :: p in ps ==> NoSlashOrComma(p) && exists a, b :: 0 <= a <= b <= |s| && p == s[a..b]
    requires ParenFree(s)
    ensures forall p :: p in StrippedPieces(ps) ==> p != [] && IsStripped(p) && NoSlashOrComma(p) && ParenFree(p)
  {
    StrippedPiecesMembers(ps);
    forall x | x in StrippedPieces(ps) ensures NoSlashOrComma(x) && ParenFree(x) {
      var j :| 0 <= j < |ps| && x == Strip(ps[j]);
      var piece := ps[j];
      assert piece in ps;
      var a, b :| 0 <= a <= b <= |s| && piece == s[a..b];
      SliceParenFree(s, a, b);
      StripIsSlice(piece);
      var c, d :| 0 <= c <= d <= |piece| && Strip(piece) == piece[c..d];
      SliceParenFree(piece, c, d);
      SliceNoSlashOrComma(piece, c, d);
    }
  }

  /**
   * Every name is non-empty, stripped, holds no '/' or ',' and no
   * parenthesised group.
   */
  lemma NormaliseNamesSpec(value: string)
    ensures forall n :: n in NormaliseNamesOf(value) ==>
      n != [] && IsStripped(n) && NoSlashOrComma(n) && ParenFree(n)
  {
    var removed := RemoveParens(value);
    var stripped := Strip(removed);
    if stripped != [] {
      RemoveParensFromFree(value, 0);
      StripIsSlice(removed);
      var a, b :| 0 <= a <= b <= |removed| && stripped == removed[a..b];
      SliceParenFree(removed, a, b);
      SplitFromPieces(stripped, 0, 0);
      StrippedPiecesFrom(SplitFrom(stripped, 0, 0), stripped);
    }
  }

  /** A name with no parenthesis and no separator comes back alone, stripped. */
  lemma PlainNameKept(value: string)
    requires '(' !in value && Strip(value) != []
    requires forall k :: 0 <= k < |Strip(value)| ==> SeparatorAt(Strip(value), k) == 0
    ensures NormaliseNamesOf(value) == [Strip(value)]
  {
    RemoveParensFromPlain(value, 0);
    assert value[0..] == value;
    SplitFromPlain(Strip(value), 0, 0);
    assert Strip(value)[0..] == Strip(value);
    var p := Strip(value);
    StrippedPiecesOne(p);
    StripOfStripped(p);
  }

  // ---------------------------------------------------------------------
  // extract_names
  // ---------------------------------------------------------------------

  /** A field of a JSON record, as far as the index looks at it. */
  datatype Value = Str(s: string) | Num(r: real) | Bool(b: bool) | Null

  /** A record: its fields; a missing field reads as null. */
  type Record = map<string, Value>

  function Get(rec: Record, key: string): Value { if key in rec then rec[key] else Null }

  const NameFields: seq<string> := ["NAVNVASSOMR", "navnNedbf", "navn1orden", "elvHierark"]

  /** The fields whose names are collected, in order: the name fields, then the local name. */
  const AllNameFields: seq<string> := NameFields + ["lokalnavn"]

  /** The names of one field; a field that is missing or not a string gives none. */
  function FieldNamesOf(rec: Record, field: string): seq<string> {
    if Get(rec, field).Str? then NormaliseNamesOf(Get(rec, field).s) else []
  }

  /** The names of the fields one after another, duplicates included. */
  function NamesOfFields(rec: Record, fields: seq<string>): seq<string> {
    if |fields| == 0 then []
    else NamesOfFields(rec, fields[..|fields| - 1]) + FieldNamesOf(rec, fields[|fields| - 1])
  }

  /** `extract_names(record)`: every name once, at its first occurrence. */
  function ExtractNamesOf(rec: Record): seq<string> {
    Dedup(NamesOfFields(rec, AllNameFields))
  }

  lemma {:induction false} NamesOfFieldsMembers(rec: Record, fields: seq<string>)
    ensures forall n :: n in NamesOfFields(rec, fields) <==> exists f :: f in fields && n in FieldNamesOf(rec, f)
  {
    if |fields| > 0 {
      var init := fields[..|fields| - 1];
      var last := fields[|fields| - 1];
      NamesOfFieldsMembers(rec, init);
      assert fields == init + [last];
      forall n | n in FieldNamesOf(rec, last) ensures exists f :: f in fields && n in FieldNamesOf(rec, f) {
        assert last in fields;
      }
    }
  }

  /**
   * The names are distinct, each is a name of one of the string fields in
   * the list, every such name is there, and the first is the first name
   * found.
   */
  lemma ExtractNamesSpec(rec: Record)
    ensures Distinct(ExtractNamesOf(rec))
    ensures forall n :: n in ExtractNamesOf(rec) <==>
      exists f :: f in AllNameFields && Get(rec, f).Str? && n in NormaliseNamesOf(Get(rec, f).s)
    ensures |NamesOfFields(rec, AllNameFields)| > 0 ==> ExtractNamesOf(rec)[0] == NamesOfFields(rec, AllNameFields)[0]
  {
    NamesOfFieldsMembers(rec, AllNameFields);
    var all := NamesOfFields(rec, AllNameFields);
    DedupSpec(all);
    if |all| > 0 {
      DedupHead(all);
    }
  }

  /** `ordered.setdefault(n, None)` for each name in turn. */
  method SetDefaultAll(ordered0: seq<string>, ghost seen0: seq<string>, names: seq<string>) returns (ordered: seq<string>)
    requires ordered0 == Dedup(seen0)
    ensures ordered == Dedup(seen0 + names)
  {
    ordered := ordered0;
    var i := 0;
    assert seen0 + names[..0] == seen0;
    while i < |names|
      invariant 0 <= i <= |names|
      invariant ordered == Dedup(seen0 + names[..i])
    {
      var n := names[i];
      ghost var prev := seen0 + names[..i];
      assert names[..i + 1] == names[..i] + [n];
      assert seen0 + names[..i + 1] == prev + [n];
      DedupSnoc(prev, n);
      if n !in ordered {
        ordered := ordered + [n];
      }
      i := i + 1;
    }
    assert names[..i] == names;
  }

  lemma NamesOfFieldsSnoc(rec: Record, fields: seq<string>, i: int)
    requires 0 <= i < |fields|
    ensures NamesOfFields(rec, fields[..i + 1]) == NamesOfFields(rec, fields[..i]) + FieldNamesOf(rec, fields[i])
  {
    assert fields[..i + 1][..i] == fields[..i];
  }

  lemma AllNameFieldsSplit(rec: Record)
    ensures NamesOfFields(rec, AllNameFields) == NamesOfFields(rec, NameFields) + FieldNamesOf(rec, "lokalnavn")
  {
    assert AllNameFields[..|NameFields|] == NameFields;
  }

  /** The string fields' names, in the order of the fields. */
  method ExtractNames(rec: Record) returns (r: seq<string>)
    ensures r == ExtractNamesOf(rec)
  {
    var ordered: seq<string> := [];
    ghost var seen: seq<string> := [];
    var i := 0;
    while i < |NameFields|
      invariant 0 <= i <= |NameFields|
      invariant seen == NamesOfFields(rec, NameFields[..i]) && ordered == Dedup(seen)
    {
      var field := NameFields[i];
      var val := Get(rec, field);
      NamesOfFieldsSnoc(rec, NameFields, i);
      if val.Str? {
        var names := NormaliseNamesOf(val.s);
        ordered := SetDefaultAll(ordered, seen, names);
        seen := seen + names;
      } else {
        assert seen + [] == seen;
      }
      i := i + 1;
    }
    assert NameFields[..i] == NameFields;
    AllNameFieldsSplit(rec);
    var lok := Get(rec, "lokalnavn");
    if lok.Str? {
      var names := NormaliseNamesOf(lok.s);
      ordered := SetDefaultAll(ordered, seen, names);
      seen := seen + names;
    } else {
      assert seen + [] == seen;
    }
    r := ordered;
  }

  // ---------------------------------------------------------------------
  // replace_with_category
  // ---------------------------------------------------------------------

  /** `replace_with_category(text, ending_map)` of the index builder. */
  function ReplaceWithCategoryOf(text: string, endingMap: EndingMap): string {
    Join(NormalizeEachWord(Words(Strip(text)), endingMap), " ")
  }

  /**
   * The rewrite is the older resolver's `normalize_vassdrag_navn`: with
   * space-free categories the result has the text's words, each replaced by
   * its stem and the category of its longest ending, or kept.
   */
  lemma ReplaceWithCategorySpec(text: string, endingMap: EndingMap)
    ensures ReplaceWithCategoryOf(text, endingMap) == NormalizeVassdragNavnOf(text, endingMap)
    ensures SpaceFreeCategories(endingMap) ==>
      Words(ReplaceWithCategoryOf(text, endingMap)) == NormalizeEachWord(Words(Strip(text)), endingMap)
    ensures |NormalizeEachWord(Words(Strip(text)), endingMap)| == |Words(Strip(text))|
  {
    if Strip(text) == [] {
      assert Words([]) == [];
    }
    NormalizeVassdragNavnSpec(text, endingMap);
    NormalizeEachWordAt(Words(Strip(text)), endingMap);
  }

  /** The words in turn, each by the longest-first scan of the endings. */
  method ReplaceWithCategory(text: string, endingMap: EndingMap) returns (r: string)
    ensures r == ReplaceWithCategoryOf(text, endingMap)
  {
    var words := Words(Strip(text));
    var endings := LongestFirstOrder(endingMap.Keys);
    var mapped := LegacyNames.NormalizeWords(words, endings, endingMap);
    r := Join(mapped, " ");
  }

  // ---------------------------------------------------------------------
  // build_index
  // ---------------------------------------------------------------------

  /** One row of the index. */
  datatype IndexRow = IndexRow(navnNormalisert: string, navn: string, vassdragsnr: Value, long: Value, lat: Value)

  /** Python truthiness of a field value. */
  predicate Truthy(v: Value) {
    match v
    case Str(s) => s != []
    case Num(r) => r != 0.0
    case Bool(b) => b
    case Null => false
  }

  /** `rec.get("VASSOMR") or rec.get("vassdragNr")`. */
  function VnrOf(rec: Record): Value {
    if Truthy(Get(rec, "VASSOMR")) then Get(rec, "VASSOMR") else Get(rec, "vassdragNr")
  }

  /** A record that is indexed: a number, and both centre coordinates present. */
  predicate Indexed(rec: Record) {
    Truthy(VnrOf(rec)) && Get(rec, "center_lon") != Null && Get(rec, "center_lat") != Null
  }

  function RowOf(rec: Record, n: string, endingMap: EndingMap): IndexRow {
    IndexRow(ReplaceWithCategoryOf(n, endingMap), n, VnrOf(rec), Get(rec, "center_lon"), Get(rec, "center_lat"))
  }

  /** The rows of one record, one per name in order. */
  function RowsOf(rec: Record, names: seq<string>, endingMap: EndingMap): (rows: seq<IndexRow>) {
    MapSeq(names, n => RowOf(rec, n, endingMap))
  }

  /** `build_index(records, endings)`. */
  function BuildIndexOf(records: seq<Record>, endingMap: EndingMap): seq<IndexRow> {
    if |records| == 0 then []
    else
      var rec := records[|records| - 1];
      BuildIndexOf(records[..|records| - 1], endingMap)
      + (if Indexed(rec) then RowsOf(rec, ExtractNamesOf(rec), endingMap) else [])
  }

  /**
   * Every row comes from an indexed record: its name is one of the record's
   * names, its normalised name is that name rewritten, and its number and
   * coordinates are the record's.
   */
  lemma {:induction false} BuildIndexSound(records: seq<Record>, endingMap: EndingMap)
    ensures forall row :: row in BuildIndexOf(records, endingMap) ==>
      exists rec :: rec in records && Indexed(rec) && row.navn in ExtractNamesOf(rec) && row == RowOf(rec, row.navn, endingMap)
  {
    if |records| > 0 {
      var init := records[..|records| - 1];
      var rec := records[|records| - 1];
      BuildIndexSound(init, endingMap);
      forall row | row in BuildIndexOf(records, endingMap)
        ensures exists r :: r in records && Indexed(r) && row.navn in ExtractNamesOf(r) && row == RowOf(r, row.navn, endingMap)
      {
        if row in BuildIndexOf(init, endingMap) {
          var r :| r in init && Indexed(r) && row.navn in ExtractNamesOf(r) && row == RowOf(r, row.navn, endingMap);
          assert r in records;
        } else {
          var rows := RowsOf(rec, ExtractNamesOf(rec), endingMap);
          assert Indexed(rec) && row in rows;
          var k :| 0 <= k < |rows| && rows[k] == row;
          assert ExtractNamesOf(rec)[k] in ExtractNamesOf(rec);
          assert rec in records;
        }
      }
    }
  }

  /** Every name of every indexed record has its row. */
  lemma {:induction false} BuildIndexComplete(records: seq<Record>, endingMap: EndingMap, i: nat, n: string)
    requires i < |records| && Indexed(records[i]) && n in ExtractNamesOf(records[i])
    ensures RowOf(records[i], n, endingMap) in BuildIndexOf(records, endingMap)
  {
    var init := records[..|records| - 1];
    if i < |records| - 1 {
      assert init[i] == records[i];
      BuildIndexComplete(init, endingMap, i, n);
    } else {
      var rows := RowsOf(records[i], ExtractNamesOf(records[i]), endingMap);
      var k :| 0 <= k < |ExtractNamesOf(records[i])| && ExtractNamesOf(records[i])[k] == n;
      assert rows[k] == RowOf(records[i], n, endingMap);
    }
  }

  /** One pass of the append loop extends the rows by the next name's row. */
  lemma RowsStep(out0: seq<IndexRow>, out: seq<IndexRow>, rec: Record, names: seq<string>, j: nat, endingMap: EndingMap, row: IndexRow)
    requires j < |names| && out == out0 + RowsOf(rec, names[..j], endingMap) && row == RowOf(rec, names[j], endingMap)
    ensures out + [row] == out0 + RowsOf(rec, names[..j + 1], endingMap)
  {
    MapSeqStep(out0, out, names, j, n => RowOf(rec, n, endingMap), row);
  }

  /** The dictionary appended for one name. */
  method IndexRowFor(rec: Record, n: string, endingMap: EndingMap) returns (row: IndexRow)
    ensures row == RowOf(rec, n, endingMap)
  {
    var normalised := ReplaceWithCategory(n, endingMap);
    row := IndexRow(normalised, n, VnrOf(rec), Get(rec, "center_lon"), Get(rec, "center_lat"));
  }

  /** The `out.append` loop over one record's names. */
  method AppendRows(out0: seq<IndexRow>, rec: Record, names: seq<string>, endingMap: EndingMap) returns (out: seq<IndexRow>)
    ensures out == out0 + RowsOf(rec, names, endingMap)
  {
    out := out0;
    var j := 0;
    while j < |names|
      invariant 0 <= j <= |names|
      invariant out == out0 + RowsOf(rec, names[..j], endingMap)
    {
      var row := IndexRowFor(rec, names[j], endingMap);
      RowsStep(out0, out, rec, names, j, endingMap, row);
      out := out + [row];
      j := j + 1;
    }
    assert names[..j] == names;
  }

  method BuildIndex(records: seq<Record>, endingMap: EndingMap) returns (out: seq<IndexRow>)
    ensures out == BuildIndexOf(records, endingMap)
  {
    out := [];
    var i := 0;
    while i < |records|
      invariant 0 <= i <= |records|
      invariant out == BuildIndexOf(records[..i], endingMap)
    {
      assert records[..i + 1][..i] == records[..i];
      var rec := records[i];
      i := i + 1;
      var vnr := if Truthy(Get(rec, "VASSOMR")) then Get(rec, "VASSOMR") else Get(rec, "vassdragNr");
      var lon, lat := Get(rec, "center_lon"), Get(rec, "center_lat");
      if !Truthy(vnr) || lon == Null || lat == Null {
        assert out + [] == out;
        continue;
      }
      var names := ExtractNames(rec);
      out := AppendRows(out, rec, names, endingMap);
    }
    assert records[..i] == records;
  }
}
