/**
 * Survey scoring: loading a survey CSV with an ordered encoding fallback
 * and cleaned headers, the Mobile App Rating Scale (MARS) subscale means,
 * and the System Usability Scale (SUS) per-respondent scores and mean.
 */
module ScoreSurveys {
  import opened Wrappers
  import opened PyNum
  import opened Stats

  // ---------------------------------------------------------------
  // Header text
  // ---------------------------------------------------------------

  /** The byte-order mark, U+FEFF. */
  const BOM: char := '\U{FEFF}'

  /** Python's `str.isspace`: the characters `str.strip()` removes. */
  predicate IsSpace(c: char) {
    c == '\t' || c == '\n' || c == '\U{B}' || c == '\U{C}' || c == '\r'
    || ('\U{1C}' <= c <= '\U{1F}') || c == ' ' || c == '\U{85}' || c == '\U{A0}'
    || c == '\U{1680}' || ('\U{2000}' <= c <= '\U{200A}') || c == '\U{2028}' || c == '\U{2029}'
    || c == '\U{202F}' || c == '\U{205F}' || c == '\U{3000}'
  }

  /** Neither end is whitespace. */
  predicate Stripped(s: string) {
    s == [] || (!IsSpace(s[0]) && !IsSpace(s[|s| - 1]))
  }

  /** How many whitespace characters `s` starts with. */
  function LeadingSpaces(s: string): (n: nat)
    ensures n <= |s|
    ensures forall k :: 0 <= k < n ==> IsSpace(s[k])
    ensures n < |s| ==> !IsSpace(s[n])
  {
    if s != [] && IsSpace(s[0]) then 1 + LeadingSpaces(s[1..]) else 0
  }

  /** Where the whitespace that `s` ends with begins. */
  function TrailingStart(s: string): (j: nat)
    ensures j <= |s|
    ensures forall k :: j <= k < |s| ==> IsSpace(s[k])
    ensures 0 < j ==> !IsSpace(s[j - 1])
  {
    if s != [] && IsSpace(s[|s| - 1]) then TrailingStart(s[..|s| - 1]) else |s|
  }

  /** `str.strip()`: drop leading and trailing whitespace. */
  function Strip(s: string): (r: string)
    ensures Stripped(r)
    ensures |r| <= |s|
    ensures Stripped(s) ==> r == s
  {
    var t := s[LeadingSpaces(s)..];
    t[..TrailingStart(t)]
  }

  /** Replacing U+FEFF by nothing: remove every byte-order mark. */
  function RemoveBom(s: string): (r: string)
    ensures BOM !in r
    ensures forall c :: c in r <==> c in s && c != BOM
    ensures BOM !in s ==> r == s
  {
    if s == [] then []
    else
      assert s == [s[0]] + s[1..];
      (if s[0] == BOM then [] else [s[0]]) + RemoveBom(s[1..])
  }

  /** `str.upper()` on the ASCII letters. */
  function UpperChar(c: char): (u: char)
    ensures IsSpace(u) <==> IsSpace(c)
    ensures u == BOM <==> c == BOM
    ensures !('a' <= u <= 'z')
  {
    if 'a' <= c <= 'z' then (c as int - 32) as char else c
  }

  function ToUpper(s: string): (r: string)
    ensures |r| == |s|
    ensures forall i :: 0 <= i < |s| ==> r[i] == UpperChar(s[i])
  {
    seq(|s|, i requires 0 <= i < |s| => UpperChar(s[i]))
  }

  lemma UpperKeepsShape(s: string)
    ensures Stripped(s) ==> Stripped(ToUpper(s))
    ensures BOM !in s ==> BOM !in ToUpper(s)
    ensures ToUpper(ToUpper(s)) == ToUpper(s)
  {
    var u := ToUpper(s);
    if BOM in u {
      var i :| 0 <= i < |u| && u[i] == BOM;
      assert s[i] == BOM;
    }
  }

  /** The header normalisation as written: strip, then remove BOMs, then uppercase. */
  function NormalizeHeaderAsWritten(s: string): string {
    ToUpper(RemoveBom(Strip(s)))
  }

  /** A BOM followed by a space survives as a leading space, so a second pass changes it again. */
  lemma NormalizeHeaderAsWrittenNotIdempotent()
    ensures NormalizeHeaderAsWritten([BOM] + " E1") == " E1"
    ensures NormalizeHeaderAsWritten(" E1") == "E1"
  {
    FirstPassKeepsSpace();
    SecondPassDropsSpace();
  }

  lemma FirstPassKeepsSpace()
    ensures NormalizeHeaderAsWritten([BOM] + " E1") == " E1"
  {
    BomSpaceSurvivesStrip();
    SpaceE1Upper();
  }

  lemma SpaceE1Upper()
    ensures ToUpper(" E1") == " E1"
  {
    var t := " E1";
    assert t[0] == ' ' && t[1] == 'E' && t[2] == '1';
    UpperWithoutLower(t);
  }

  lemma SecondPassDropsSpace()
    ensures NormalizeHeaderAsWritten(" E1") == "E1"
  {
    SpaceE1Stripped();
    var t := "E1";
    assert t[0] == 'E' && t[1] == '1';
    UpperWithoutLower(t);
  }

  lemma UpperWithoutLower(s: string)
    requires forall i :: 0 <= i < |s| ==> !('a' <= s[i] <= 'z')
    ensures ToUpper(s) == s
  {
  }

  lemma BomSpaceSurvivesStrip()
    ensures RemoveBom(Strip([BOM] + " E1")) == " E1"
  {
    var s := [BOM] + " E1";
    assert Stripped(s);
    assert s[1..] == " E1";
    assert RemoveBom(" E1") == " E1";
  }

  lemma SpaceE1Stripped()
    ensures RemoveBom(Strip(" E1")) == "E1"
  {
    var t := " E1";
    assert LeadingSpaces(t[1..]) == 0;
    assert t[1..] == "E1" && Stripped("E1");
  }

  /** The header normalisation with the BOM removed first, so stripping sees the real ends. */
  function CleanHeader(s: string): (r: string)
    ensures Stripped(r) && BOM !in r
    ensures forall i :: 0 <= i < |r| ==> !('a' <= r[i] <= 'z')
  {
    var t := Strip(RemoveBom(s));
    UpperKeepsShape(t);
    ToUpper(t)
  }

  /** Cleaning a clean header changes nothing. */
  lemma CleanHeaderIdempotent(s: string)
    ensures CleanHeader(CleanHeader(s)) == CleanHeader(s)
  {
    var t := CleanHeader(s);
    assert RemoveBom(t) == t;
    assert Strip(t) == t;
    UpperKeepsShape(Strip(RemoveBom(s)));
  }

  /** Without a BOM in the header the written order and the corrected order agree. */
  lemma CleanHeaderAgreesWithoutBom(s: string)
    requires BOM !in s
    ensures CleanHeader(s) == NormalizeHeaderAsWritten(s)
  {
    var t := Strip(s);
    var a := LeadingSpaces(s);
    assert forall i :: 0 <= i < |t| ==> t[i] == s[a + i];
    assert BOM !in t;
  }

  /** Lower-case headers, spaces and a BOM are all accepted: BOM + " e1 " reads as "E1". */
  lemma CleanHeaderExample()
    ensures CleanHeader([BOM] + " e1 ") == "E1"
  {
    LeadingBomRemoved(" e1 ");
    PaddedE1Stripped();
    LowerE1Upper();
  }

  lemma LeadingBomRemoved(t: string)
    requires BOM !in t
    ensures RemoveBom([BOM] + t) == t
  {
    assert ([BOM] + t)[1..] == t;
  }

  lemma LowerE1Upper()
    ensures ToUpper("e1") == "E1"
  {
    var r := ToUpper("e1");
    assert r[0] == UpperChar('e') == 'E';
    assert r[1] == UpperChar('1') == '1';
  }

  lemma PaddedE1Stripped()
    ensures Strip(" e1 ") == "e1"
  {
    var t := " e1 ";
    assert LeadingSpaces(t[1..]) == 0;
    var u := t[1..];
    assert u == "e1 ";
    assert TrailingStart(u[..2]) == 2;
  }

  // ---------------------------------------------------------------
  // Loading with the encoding fallback
  // ---------------------------------------------------------------

  datatype Encoding = Utf8Sig | Utf8 | Cp1252 | Gbk

  /** The order in which encodings are tried. */
  const ENCODINGS: seq<Encoding> := [Utf8Sig, Utf8, Cp1252, Gbk]

  /**
   * A cell as the CSV parser delivers it: a number (including numeric text),
   * other text, or an empty field.
   */
  datatype RawCell = Number(v: real) | Text(s: string) | Empty

  /** A parsed table, column by column, with every column `nrows` long. */
  datatype Table<T> = Table(headers: seq<string>, columns: seq<seq<T>>, nrows: nat) {
    predicate Rectangular() {
      |columns| == |headers| && forall j :: 0 <= j < |columns| ==> |columns[j]| == nrows
    }
  }

  type RawFrame = t: Table<RawCell> | t.Rectangular() witness Table([], [], 0)

  /** A table after numeric coercion: None stands for NaN. */
  type Frame = t: Table<Option<real>> | t.Rectangular() witness Table([], [], 0)

  /** `pd.to_numeric(errors="coerce")` on one cell. */
  function Coerce(c: RawCell): (r: Option<real>)
    ensures r.Some? <==> c.Number?
  {
    if c.Number? then Some(c.v) else None
  }

  function CoerceColumn(col: seq<RawCell>): (r: seq<Option<real>>)
    ensures |r| == |col|
  {
    seq(|col|, k requires 0 <= k < |col| => Coerce(col[k]))
  }

  function CleanHeaders(hs: seq<string>): (r: seq<string>)
    ensures |r| == |hs|
  {
    seq(|hs|, i requires 0 <= i < |hs| => CleanHeader(hs[i]))
  }

  /** Another column carries the same label as column j. */
  predicate Duplicated(hs: seq<string>, j: int)
    requires 0 <= j < |hs|
  {
    exists k :: 0 <= k < |hs| && k != j && hs[k] == hs[j]
  }

  predicate Distinct(hs: seq<string>) {
    forall j, k :: 0 <= j < k < |hs| ==> hs[j] != hs[k]
  }

  /**
   * Headers cleaned and every column coerced. Coercing a label that names two
   * columns selects a table rather than a column, which pandas refuses, so
   * the attempt fails when cleaning makes two headers equal.
   */
  function Cleaned(raw: RawFrame): (r: Option<Frame>)
    ensures r.Some? <==> Distinct(CleanHeaders(raw.headers))
    ensures r.Some? ==> r.value.headers == CleanHeaders(raw.headers) && r.value.nrows == raw.nrows
    ensures r.Some? ==> forall j, i :: 0 <= j < |raw.columns| && 0 <= i < raw.nrows ==>
      r.value.columns[j][i] == Coerce(raw.columns[j][i])
  {
    var hs := CleanHeaders(raw.headers);
    if Distinct(hs) then
      var t := Table(hs, seq(|raw.columns|, j requires 0 <= j < |raw.columns| => CoerceColumn(raw.columns[j])), raw.nrows);
      assert t.Rectangular();
      Some(t)
    else None
  }

  /** One attempt: parse with encoding `e`, then clean. */
  function Attempt(parse: Encoding -> Option<RawFrame>, e: Encoding): Option<Frame> {
    if parse(e).Some? then Cleaned(parse(e).value) else None
  }

  function ReadError(path: string): string {
    "[error] Failed to read CSV: " + path
  }

  /** The first encoding of `encs` whose attempt succeeds decides the table. */
  function LoadFrom(path: string, parse: Encoding -> Option<RawFrame>, encs: seq<Encoding>): (r: Result<Frame, string>)
    ensures r.Failure? <==> forall i :: 0 <= i < |encs| ==> Attempt(parse, encs[i]).None?
    ensures r.Failure? ==> r.error == ReadError(path)
    ensures r.Success? ==> exists i :: (0 <= i < |encs| && Attempt(parse, encs[i]) == Some(r.value)
      && forall k :: 0 <= k < i ==> Attempt(parse, encs[k]).None?)
  {
    if encs == [] then Failure(ReadError(path))
    else
      match Attempt(parse, encs[0])
      case Some(f) => Success(f)
      case None =>
        var r := LoadFrom(path, parse, encs[1..]);
        assert forall i :: 1 <= i < |encs| ==> encs[i] == encs[1..][i - 1];
        assert r.Success? ==> exists i :: (0 <= i < |encs| && Attempt(parse, encs[i]) == Some(r.value)
          && forall k :: 0 <= k < i ==> Attempt(parse, encs[k]).None?) by {
          if r.Success? {
            var i :| 0 <= i < |encs[1..]| && Attempt(parse, encs[1..][i]) == Some(r.value)
              && forall k :: 0 <= k < i ==> Attempt(parse, encs[1..][k]).None?;
            assert Attempt(parse, encs[i + 1]) == Some(r.value);
            assert forall k :: 0 <= k < i + 1 ==> Attempt(parse, encs[k]).None? by {
              forall k | 0 <= k < i + 1 ensures Attempt(parse, encs[k]).None? {
                if k > 0 { assert encs[k] == encs[1..][k - 1]; }
              }
            }
          }
        }
        r
  }

  /**
   * The body of one attempt after a successful parse: clean the headers, then
   * coerce the columns one by one, failing at the first label that names two
   * columns.
   */
  method CleanFrame(raw: RawFrame) returns (r: Option<Frame>)
    ensures r == Cleaned(raw)
  {
    var headers := CleanHeaders(raw.headers);
    var columns: seq<seq<Option<real>>> := [];
    var j := 0;
    while j < |raw.columns|
      invariant 0 <= j <= |raw.columns|
      invariant |columns| == j
      invariant forall k :: 0 <= k < j ==> columns[k] == CoerceColumn(raw.columns[k])
      invariant forall k :: 0 <= k < j ==> !Duplicated(headers, k)
    {
      if Duplicated(headers, j) {
        return None;
      }
      columns := columns + [CoerceColumn(raw.columns[j])];
      j := j + 1;
    }
    assert Distinct(headers) by {
      forall a, b | 0 <= a < b < |headers| ensures headers[a] != headers[b] {
        assert !Duplicated(headers, a);
      }
    }
    assert columns == seq(|raw.columns|, k requires 0 <= k < |raw.columns| => CoerceColumn(raw.columns[k]));
    return Some(Table(headers, columns, raw.nrows));
  }

  /** `read_csv_robust(path)`, with `parse(e)` the outcome of reading the file with encoding `e`. */
  method ReadCsvRobust(path: string, parse: Encoding -> Option<RawFrame>) returns (r: Result<Frame, string>)
    ensures r == LoadFrom(path, parse, ENCODINGS)
  {
    var i := 0;
    while i < |ENCODINGS|
      invariant 0 <= i <= |ENCODINGS|
      invariant LoadFrom(path, parse, ENCODINGS[i..]) == LoadFrom(path, parse, ENCODINGS)
    {
      var e := ENCODINGS[i];
      assert ENCODINGS[i..][0] == e && ENCODINGS[i..][1..] == ENCODINGS[i + 1..];
      var parsed := parse(e);
      if parsed.Some? {
        var cleaned := CleanFrame(parsed.value);
        if cleaned.Some? {
          return Success(cleaned.value);
        }
      }
      i := i + 1;
    }
    return Failure(ReadError(path));
  }

  /** Encodings are tried in order and the first that loads wins; all failing names the file. */
  lemma LoadOrder(path: string, parse: Encoding -> Option<RawFrame>)
    ensures Attempt(parse, Utf8Sig).Some? ==> LoadFrom(path, parse, ENCODINGS) == Success(Attempt(parse, Utf8Sig).value)
    ensures Attempt(parse, Utf8Sig).None? && Attempt(parse, Utf8).Some? ==>
      LoadFrom(path, parse, ENCODINGS) == Success(Attempt(parse, Utf8).value)
    ensures (forall e :: Attempt(parse, e).None?) ==> LoadFrom(path, parse, ENCODINGS) == Failure(ReadError(path))
  {
    assert ENCODINGS[0] == Utf8Sig && ENCODINGS[1] == Utf8;
    assert ENCODINGS[1..][0] == Utf8;
  }

  // ---------------------------------------------------------------
  // Looking up columns
  // ---------------------------------------------------------------

  predicate HasAll(f: Frame, need: set<string>) {
    forall h :: h in need ==> h in f.headers
  }

  /** Position of the first column labelled `h`. */
  function ColumnIndex(hs: seq<string>, h: string): (j: nat)
    requires h in hs
    ensures j < |hs| && hs[j] == h
    ensures forall k :: 0 <= k < j ==> hs[k] != h
  {
    if hs[0] == h then 0 else 1 + ColumnIndex(hs[1..], h)
  }

  function Column(f: Frame, h: string): (c: seq<Option<real>>)
    requires h in f.headers
    ensures |c| == f.nrows
  {
    f.columns[ColumnIndex(f.headers, h)]
  }

  /** Row i restricted to the columns `cols`, in that order. */
  function RowValues(f: Frame, cols: seq<string>, i: nat): (r: seq<Option<real>>)
    requires forall k :: 0 <= k < |cols| ==> cols[k] in f.headers
    requires i < f.nrows
    ensures |r| == |cols|
    ensures forall k :: 0 <= k < |cols| ==> r[k] == Column(f, cols[k])[i]
  {
    seq(|cols|, k requires 0 <= k < |cols| => Column(f, cols[k])[i])
  }

  /** Every present cell in the columns `cols` lies in [lo, hi]. */
  predicate CellsWithin(f: Frame, cols: seq<string>, lo: real, hi: real)
    requires forall k :: 0 <= k < |cols| ==> cols[k] in f.headers
  {
    forall i, k :: 0 <= i < f.nrows && 0 <= k < |cols| && Column(f, cols[k])[i].Some? ==>
      lo <= Column(f, cols[k])[i].value <= hi
  }

  // ---------------------------------------------------------------
  // MARS
  // ---------------------------------------------------------------

  const ENGAGEMENT: seq<string> := ["E1", "E2", "E3", "E4", "E5"]
  const FUNCTIONALITY: seq<string> := ["F1", "F2", "F3", "F4"]
  const AESTHETICS: seq<string> := ["A1", "A2", "A3"]
  const INFORMATION: seq<string> := ["I1", "I2", "I3", "I4"]

  /** The 17 headers a MARS file must carry. */
  const MARS_HEADERS: set<string> :=
    {"E1", "E2", "E3", "E4", "E5", "F1", "F2", "F3", "F4", "A1", "A2", "A3", "I1", "I2", "I3", "I4", "S1"}

  /** Every subscale column is one of the required headers. */
  lemma SubscaleColumnsRequired(f: Frame)
    requires HasAll(f, MARS_HEADERS)
    ensures forall k :: 0 <= k < |ENGAGEMENT| ==> ENGAGEMENT[k] in f.headers
    ensures forall k :: 0 <= k < |FUNCTIONALITY| ==> FUNCTIONALITY[k] in f.headers
    ensures forall k :: 0 <= k < |AESTHETICS| ==> AESTHETICS[k] in f.headers
    ensures forall k :: 0 <= k < |INFORMATION| ==> INFORMATION[k] in f.headers
    ensures "S1" in f.headers
  {
    assert forall k :: 0 <= k < |ENGAGEMENT| ==> ENGAGEMENT[k] in MARS_HEADERS;
    assert forall k :: 0 <= k < |FUNCTIONALITY| ==> FUNCTIONALITY[k] in MARS_HEADERS;
    assert forall k :: 0 <= k < |AESTHETICS| ==> AESTHETICS[k] in MARS_HEADERS;
    assert forall k :: 0 <= k < |INFORMATION| ==> INFORMATION[k] in MARS_HEADERS;
  }

  /**
   * `mean_cols(cols)`: each row's mean over `cols` (NaN skipped, NaN if the
   * row has none), then the mean of those row means (NaN skipped).
   */
  function MeanCols(f: Frame, cols: seq<string>): (r: Option<real>)
    requires forall k :: 0 <= k < |cols| ==> cols[k] in f.headers
    ensures r.Some? <==> exists i, k :: 0 <= i < f.nrows && 0 <= k < |cols| && Column(f, cols[k])[i].Some?
  {
    var rowMeans := seq(f.nrows, i requires 0 <= i < f.nrows => SkipNaMean(RowValues(f, cols, i)));
    RowMeansDefined(f, cols, rowMeans);
    SkipNaMean(rowMeans)
  }

  /** A row mean is defined iff that row has a numeric cell in `cols`. */
  lemma RowMeansDefined(f: Frame, cols: seq<string>, rowMeans: seq<Option<real>>)
    requires forall k :: 0 <= k < |cols| ==> cols[k] in f.headers
    requires |rowMeans| == f.nrows
    requires forall i :: 0 <= i < f.nrows ==> rowMeans[i] == SkipNaMean(RowValues(f, cols, i))
    ensures (exists i :: 0 <= i < |rowMeans| && rowMeans[i].Some?) <==>
      exists i, k :: 0 <= i < f.nrows && 0 <= k < |cols| && Column(f, cols[k])[i].Some?
  {
    assert (exists i :: 0 <= i < |rowMeans| && rowMeans[i].Some?) ==>
      exists i, k :: 0 <= i < f.nrows && 0 <= k < |cols| && Column(f, cols[k])[i].Some? by {
      if i :| 0 <= i < |rowMeans| && rowMeans[i].Some? {
        var k :| 0 <= k < |cols| && RowValues(f, cols, i)[k].Some?;
        assert Column(f, cols[k])[i].Some?;
      }
    }
    assert (exists i, k :: 0 <= i < f.nrows && 0 <= k < |cols| && Column(f, cols[k])[i].Some?) ==>
      exists i :: 0 <= i < |rowMeans| && rowMeans[i].Some? by {
      if i, k :| 0 <= i < f.nrows && 0 <= k < |cols| && Column(f, cols[k])[i].Some? {
        assert RowValues(f, cols, i)[k].Some?;
        assert rowMeans[i].Some?;
      }
    }
  }

  /** Cells on a 1..5 scale give subscale means on the same scale. */
  lemma MeanColsWithin(f: Frame, cols: seq<string>, lo: real, hi: real)
    requires forall k :: 0 <= k < |cols| ==> cols[k] in f.headers
    requires CellsWithin(f, cols, lo, hi)
    ensures MeanCols(f, cols).Some? ==> lo <= MeanCols(f, cols).value <= hi
  {
    var rowMeans := seq(f.nrows, i requires 0 <= i < f.nrows => SkipNaMean(RowValues(f, cols, i)));
    forall i | 0 <= i < f.nrows
      ensures rowMeans[i].Some? ==> lo <= rowMeans[i].value <= hi
    {
      SkipNaMeanWithin(RowValues(f, cols, i), lo, hi);
    }
    SkipNaMeanWithin(rowMeans, lo, hi);
  }

  datatype MarsScores = MarsScores(
    engagement: Option<real>, functionality: Option<real>, aesthetics: Option<real>,
    information: Option<real>, overall: Option<real>)

  /** The MARS block: scored only when all 17 headers are present. */
  function ScoreMars(f: Frame): (r: Option<MarsScores>)
    ensures r.Some? <==> HasAll(f, MARS_HEADERS)
    ensures r.Some? ==> r.value.overall == SkipNaMean(Column(f, "S1"))
    ensures r.Some? ==>
      r.value.engagement == MeanCols(f, ENGAGEMENT) && r.value.functionality == MeanCols(f, FUNCTIONALITY) &&
      r.value.aesthetics == MeanCols(f, AESTHETICS) && r.value.information == MeanCols(f, INFORMATION)
  {
    if HasAll(f, MARS_HEADERS) then
      Some(MarsScores(MeanCols(f, ENGAGEMENT), MeanCols(f, FUNCTIONALITY), MeanCols(f, AESTHETICS),
                      MeanCols(f, INFORMATION), SkipNaMean(Column(f, "S1"))))
    else None
  }

  /** Every present cell of the table lies in [lo, hi]. */
  predicate AllCellsWithin(f: Frame, lo: real, hi: real) {
    forall j, i :: 0 <= j < |f.columns| && 0 <= i < f.nrows && f.columns[j][i].Some? ==>
      lo <= f.columns[j][i].value <= hi
  }

  lemma ColumnWithin(f: Frame, h: string, lo: real, hi: real)
    requires h in f.headers && AllCellsWithin(f, lo, hi)
    ensures forall i :: 0 <= i < f.nrows && Column(f, h)[i].Some? ==> lo <= Column(f, h)[i].value <= hi
  {
    var j := ColumnIndex(f.headers, h);
    assert Column(f, h) == f.columns[j];
  }

  lemma SubscaleWithin(f: Frame, cols: seq<string>, lo: real, hi: real)
    requires forall k :: 0 <= k < |cols| ==> cols[k] in f.headers
    requires AllCellsWithin(f, lo, hi)
    ensures MeanCols(f, cols).Some? ==> lo <= MeanCols(f, cols).value <= hi
  {
    forall k | 0 <= k < |cols| {
      ColumnWithin(f, cols[k], lo, hi);
    }
    MeanColsWithin(f, cols, lo, hi);
  }

  /** Answers on the 1..5 Likert scale give every MARS score on that scale. */
  lemma MarsWithinLikert(f: Frame)
    requires HasAll(f, MARS_HEADERS)
    requires AllCellsWithin(f, 1.0, 5.0)
    ensures var m := ScoreMars(f).value;
      (m.engagement.Some? ==> 1.0 <= m.engagement.value <= 5.0) &&
      (m.functionality.Some? ==> 1.0 <= m.functionality.value <= 5.0) &&
      (m.aesthetics.Some? ==> 1.0 <= m.aesthetics.value <= 5.0) &&
      (m.information.Some? ==> 1.0 <= m.information.value <= 5.0) &&
      (m.overall.Some? ==> 1.0 <= m.overall.value <= 5.0)
  {
    SubscaleColumnsRequired(f);
    SubscaleWithin(f, ENGAGEMENT, 1.0, 5.0);
    SubscaleWithin(f, FUNCTIONALITY, 1.0, 5.0);
    SubscaleWithin(f, AESTHETICS, 1.0, 5.0);
    SubscaleWithin(f, INFORMATION, 1.0, 5.0);
    ColumnWithin(f, "S1", 1.0, 5.0);
    SkipNaMeanWithin(Column(f, "S1"), 1.0, 5.0);
  }

  // ---------------------------------------------------------------
  // SUS
  // ---------------------------------------------------------------

  const ODD_ITEMS: seq<string> := ["Q1", "Q3", "Q5", "Q7", "Q9"]
  const EVEN_ITEMS: seq<string> := ["Q2", "Q4", "Q6", "Q8", "Q10"]
  const SUS_HEADERS: set<string> := {"Q1", "Q2", "Q3", "Q4", "Q5", "Q6", "Q7", "Q8", "Q9", "Q10"}

  /**
   * An odd item as written: `max(0, min(4, (r or 0) - 1))`. A blank cell is
   * NaN, and NaN is truthy, so `or 0` keeps it; `min(4, NaN)` then keeps 4.
   */
  function OddItemAsWritten(c: Option<real>): (r: real)
    ensures 0.0 <= r <= 4.0
  {
    if c.None? then 4.0 else Clamp(c.value - 1.0, 0.0, 4.0)
  }

  /** An even item as written: `max(0, min(4, 5 - (r or 0)))`; a blank cell gives 4 the same way. */
  function EvenItemAsWritten(c: Option<real>): (r: real)
    ensures 0.0 <= r <= 4.0
  {
    if c.None? then 4.0 else Clamp(5.0 - c.value, 0.0, 4.0)
  }

  /** A blank odd answer scores as the best possible answer, not as 0. */
  lemma BlankOddAnswerScoresBest()
    ensures OddItemAsWritten(None) == OddItemAsWritten(Some(5.0)) == 4.0
    ensures OddItemAsWritten(Some(0.0)) == 0.0
  {
  }

  /** A blank cell read as 0, as `or 0` means to do. */
  function OrZero(c: Option<real>): real {
    if c.Some? then c.value else 0.0
  }

  /** An odd item's contribution, `clamp(r - 1, 0, 4)`, with a blank answer counting as 0. */
  function OddItem(c: Option<real>): (r: real)
    ensures 0.0 <= r <= 4.0
    ensures c.None? ==> r == 0.0
    ensures c.Some? && 1.0 <= c.value <= 5.0 ==> r == c.value - 1.0
  {
    Clamp(OrZero(c) - 1.0, 0.0, 4.0)
  }

  /** An even item's contribution, `clamp(5 - r, 0, 4)`, with a blank answer counting as 0. */
  function EvenItem(c: Option<real>): (r: real)
    ensures 0.0 <= r <= 4.0
    ensures c.None? ==> r == 4.0
    ensures c.Some? && 1.0 <= c.value <= 5.0 ==> r == 5.0 - c.value
  {
    Clamp(5.0 - OrZero(c), 0.0, 4.0)
  }

  /** Blank answers read as 0 on both item kinds, and the written form differs only on odd items. */
  lemma BlankReadsAsZero(c: Option<real>)
    ensures OddItem(None) == OddItem(Some(0.0)) && EvenItem(None) == EvenItem(Some(0.0))
    ensures EvenItem(c) == EvenItemAsWritten(c)
    ensures c.Some? ==> OddItem(c) == OddItemAsWritten(c)
  {
  }

  function OddTotal(cells: seq<Option<real>>): (r: real)
    ensures 0.0 <= r <= 4.0 * |cells| as real
  {
    if cells == [] then 0.0 else OddItem(cells[0]) + OddTotal(cells[1..])
  }

  function EvenTotal(cells: seq<Option<real>>): (r: real)
    ensures 0.0 <= r <= 4.0 * |cells| as real
  {
    if cells == [] then 0.0 else EvenItem(cells[0]) + EvenTotal(cells[1..])
  }

  predicate Likert(cells: seq<Option<real>>) {
    forall k :: 0 <= k < |cells| ==> cells[k].Some? && 1.0 <= cells[k].value <= 5.0
  }

  /** On complete 1..5 answers the clamps never bite: odd items add up to sum - count. */
  lemma {:induction false} OddTotalOfLikert(cells: seq<Option<real>>)
    requires Likert(cells)
    ensures OddTotal(cells) == Sum(Present(cells)) - |cells| as real
  {
    if cells != [] {
      assert Likert(cells[1..]) by {
        forall k | 0 <= k < |cells| - 1 ensures cells[1..][k].Some? && 1.0 <= cells[1..][k].value <= 5.0 {
          assert cells[1..][k] == cells[k + 1];
        }
      }
      OddTotalOfLikert(cells[1..]);
      assert Present(cells) == [cells[0].value] + Present(cells[1..]);
    }
  }

  /** On complete 1..5 answers even items add up to 5 * count - sum. */
  lemma {:induction false} EvenTotalOfLikert(cells: seq<Option<real>>)
    requires Likert(cells)
    ensures EvenTotal(cells) == 5.0 * |cells| as real - Sum(Present(cells))
  {
    if cells != [] {
      assert Likert(cells[1..]) by {
        forall k | 0 <= k < |cells| - 1 ensures cells[1..][k].Some? && 1.0 <= cells[1..][k].value <= 5.0 {
          assert cells[1..][k] == cells[k + 1];
        }
      }
      EvenTotalOfLikert(cells[1..]);
      assert Present(cells) == [cells[0].value] + Present(cells[1..]);
    }
  }

  lemma SusItemsPresent(f: Frame)
    requires HasAll(f, SUS_HEADERS)
    ensures forall k :: 0 <= k < |ODD_ITEMS| ==> ODD_ITEMS[k] in f.headers
    ensures forall k :: 0 <= k < |EVEN_ITEMS| ==> EVEN_ITEMS[k] in f.headers
  {
    assert forall k :: 0 <= k < |ODD_ITEMS| ==> ODD_ITEMS[k] in SUS_HEADERS;
    assert forall k :: 0 <= k < |EVEN_ITEMS| ==> EVEN_ITEMS[k] in SUS_HEADERS;
  }

  /** One respondent's SUS score: (odd + even) * 2.5. */
  function SusScore(f: Frame, i: nat): (score: real)
    requires HasAll(f, SUS_HEADERS) && i < f.nrows
    ensures 0.0 <= score <= 100.0
  {
    SusItemsPresent(f);
    (OddTotal(RowValues(f, ODD_ITEMS, i)) + EvenTotal(RowValues(f, EVEN_ITEMS, i))) * 2.5
  }

  /** For complete 1..5 answers the score is the standard SUS formula. */
  lemma SusScoreStandard(f: Frame, i: nat)
    requires HasAll(f, SUS_HEADERS) && i < f.nrows
    requires (SusItemsPresent(f); Likert(RowValues(f, ODD_ITEMS, i)) && Likert(RowValues(f, EVEN_ITEMS, i)))
    ensures SusScore(f, i) ==
      2.5 * ((Sum(Present(RowValues(f, ODD_ITEMS, i))) - 5.0) + (25.0 - Sum(Present(RowValues(f, EVEN_ITEMS, i)))))
  {
    SusItemsPresent(f);
    OddTotalOfLikert(RowValues(f, ODD_ITEMS, i));
    EvenTotalOfLikert(RowValues(f, EVEN_ITEMS, i));
  }

  /** The SUS block: one score per row, or None when a Q1..Q10 header is missing. */
  method ScoreSus(f: Frame) returns (scores: Option<seq<real>>)
    ensures scores.None? <==> !HasAll(f, SUS_HEADERS)
    ensures scores.Some? ==> (|scores.value| == f.nrows &&
      forall i :: 0 <= i < f.nrows ==> scores.value[i] == SusScore(f, i))
  {
    if !HasAll(f, SUS_HEADERS) {
      return None;
    }
    var acc: seq<real> := [];
    var i := 0;
    while i < f.nrows
      invariant 0 <= i <= f.nrows
      invariant |acc| == i
      invariant forall k :: 0 <= k < i ==> acc[k] == SusScore(f, k)
    {
      acc := acc + [SusScore(f, i)];
      i := i + 1;
    }
    return Some(acc);
  }

  /** `np.mean(scores)`, NaN (None) when there are no scores. */
  function SusMean(scores: seq<real>): (m: Option<real>)
    ensures m.None? <==> |scores| == 0
    ensures (forall i :: 0 <= i < |scores| ==> 0.0 <= scores[i] <= 100.0) && m.Some? ==> 0.0 <= m.value <= 100.0
  {
    if |scores| == 0 then None
    else
      assert (forall i :: 0 <= i < |scores| ==> 0.0 <= scores[i] <= 100.0) ==> 0.0 <= Mean(scores) <= 100.0 by {
        if forall i :: 0 <= i < |scores| ==> 0.0 <= scores[i] <= 100.0 {
          MeanWithin(scores, 0.0, 100.0);
        }
      }
      Some(Mean(scores))
  }
}
