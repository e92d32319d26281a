/**
 * The log statistics pipeline: combining session logs, per-session medians,
 * robust statistics with a bootstrap confidence band, the summary table,
 * and the prewarm ON/OFF comparison of TTS start latency.
 *
 * The seeded random generator is replaced by a `Draw`: draw(k, i) is the
 * index picked (modulo the sample size) at position i of resample k.
 */
module AnalyzeLogs {
  import opened Wrappers
  import opened Stats
  import opened EventLog

  /** Bootstrap iterations used by every call in the script. */
  const N_BOOT: nat := 2000

  type Draw = (nat, nat) -> nat

  // ---------------------------------------------------------------
  // load_sessions
  // ---------------------------------------------------------------

  /** A combined-table row: the event plus the session column. */
  datatype SessionRow = SessionRow(event: Event, session: string)

  datatype LoadError = NoReadableLogs

  function Tag(events: seq<Event>, session: string): (r: seq<SessionRow>)
    ensures |r| == |events|
    ensures forall i :: 0 <= i < |r| ==> r[i] == SessionRow(events[i], session)
  {
    seq(|events|, i requires 0 <= i < |events| => SessionRow(events[i], session))
  }

  /** The frames `dfs` collects: one tagged frame per readable file, in order. */
  function Frames(files: seq<LogFile>): seq<seq<SessionRow>> {
    if files == [] then []
    else
      var f := files[|files| - 1];
      Frames(files[..|files| - 1]) +
        match f.read
        case Parsed(events) => [Tag(events, Basename(f.path))]
        case ReadError(_) => []
  }

  function Warning(f: LogFile): string
    requires f.read.ReadError?
  {
    "[warn] skip " + f.path + ": " + f.read.reason
  }

  /** The warnings printed for the files that could not be read, in order. */
  function Warnings(files: seq<LogFile>): seq<string> {
    if files == [] then []
    else
      var f := files[|files| - 1];
      Warnings(files[..|files| - 1]) +
        match f.read
        case Parsed(_) => []
        case ReadError(_) => [Warning(f)]
  }

  /** pd.concat of the frames. */
  function Concat(frames: seq<seq<SessionRow>>): seq<SessionRow> {
    if frames == [] then [] else Concat(frames[..|frames| - 1]) + frames[|frames| - 1]
  }

  lemma {:induction false} FramesEmpty(files: seq<LogFile>)
    ensures Frames(files) == [] <==> !AnyReadable(files)
  {
    if files != [] {
      var n := |files| - 1;
      FramesEmpty(files[..n]);
      assert forall i :: 0 <= i < n ==> files[..n][i] == files[i];
      if AnyReadable(files) && !Readable(files[n]) {
        var i :| 0 <= i < |files| && Readable(files[i]);
        assert Readable(files[..n][i]);
      }
    }
  }

  method LoadSessions(files: seq<LogFile>) returns (r: Result<seq<SessionRow>, LoadError>, warnings: seq<string>)
    ensures warnings == Warnings(files)
    ensures r.Failure? <==> !AnyReadable(files)
    ensures r.Success? ==> r.value == Concat(Frames(files))
  {
    var dfs: seq<seq<SessionRow>> := [];
    warnings := [];
    for i := 0 to |files|
      invariant dfs == Frames(files[..i])
      invariant warnings == Warnings(files[..i])
    {
      var f := files[i];
      assert files[..i + 1][..i] == files[..i];
      match f.read {
        case Parsed(events) =>
          dfs := dfs + [Tag(events, Basename(f.path))];
        case ReadError(_) =>
          warnings := warnings + [Warning(f)];
      }
    }
    assert files[..|files|] == files;
    FramesEmpty(files);
    if dfs == [] {
      r := Failure(NoReadableLogs);
    } else {
      r := Success(Concat(dfs));
    }
  }

  /** The rows one file contributes to the combined table. */
  function FileRows(f: LogFile): seq<SessionRow> {
    match f.read
    case Parsed(events) => Tag(events, Basename(f.path))
    case ReadError(_) => []
  }

  lemma ConcatFramesSnoc(files: seq<LogFile>)
    requires |files| > 0
    ensures Concat(Frames(files)) == Concat(Frames(files[..|files| - 1])) + FileRows(files[|files| - 1])
  {
    var n := |files| - 1;
    var prefix := Frames(files[..n]);
    match files[n].read {
      case Parsed(events) =>
        var frame := Tag(events, Basename(files[n].path));
        assert Frames(files) == prefix + [frame];
        assert (prefix + [frame])[..|prefix|] == prefix;
      case ReadError(_) =>
        assert Frames(files) == prefix;
    }
  }

  /** Every combined row comes from a readable file and carries its basename. */
  lemma {:induction false} CombinedRowsSound(files: seq<LogFile>, k: int)
    requires 0 <= k < |Concat(Frames(files))|
    ensures exists i :: (0 <= i < |files| && Readable(files[i]) &&
      Concat(Frames(files))[k].session == Basename(files[i].path) &&
      Concat(Frames(files))[k].event in files[i].read.events)
  {
    var n := |files| - 1;
    var before := Concat(Frames(files[..n]));
    ConcatFramesSnoc(files);
    if k < |before| {
      CombinedRowsSound(files[..n], k);
      var i :| 0 <= i < n && Readable(files[..n][i]) &&
        before[k].session == Basename(files[..n][i].path) && before[k].event in files[..n][i].read.events;
      assert files[..n][i] == files[i];
    } else {
      var rows := FileRows(files[n]);
      assert Concat(Frames(files))[k] == rows[k - |before|];
      assert Readable(files[n]);
    }
  }

  /** Every event of every readable file is in the combined table, tagged with its basename. */
  lemma {:induction false} CombinedRowsComplete(files: seq<LogFile>, i: int, e: Event)
    requires 0 <= i < |files| && Readable(files[i]) && e in files[i].read.events
    ensures SessionRow(e, Basename(files[i].path)) in Concat(Frames(files))
  {
    var n := |files| - 1;
    var f := files[n];
    match f.read {
      case Parsed(events) =>
        var tagged := Tag(events, Basename(f.path));
        assert Concat(Frames(files)) == Concat(Frames(files[..n])) + tagged;
        if i < n {
          assert files[..n][i] == files[i];
          CombinedRowsComplete(files[..n], i, e);
        } else {
          var j :| 0 <= j < |events| && events[j] == e;
          assert tagged[j] == SessionRow(e, Basename(f.path));
        }
      case ReadError(_) =>
        assert Frames(files) == Frames(files[..n]);
        assert files[..n][i] == files[i];
        CombinedRowsComplete(files[..n], i, e);
    }
  }

  // ---------------------------------------------------------------
  // per_session_median
  // ---------------------------------------------------------------

  function SessionValues(rows: seq<SessionRow>, session: string, kind: string): (r: seq<Option<real>>)
    ensures |r| <= |rows|
    ensures forall v :: v in r <==>
      exists k :: 0 <= k < |rows| && rows[k].session == session && rows[k].event.kind == kind && rows[k].event.value == v
  {
    if rows == [] then []
    else
      var rest := SessionValues(rows[1..], session, kind);
      assert rows == [rows[0]] + rows[1..];
      assert forall k :: 1 <= k < |rows| ==> rows[k] == rows[1..][k - 1];
      if rows[0].session == session && rows[0].event.kind == kind then [rows[0].event.value] + rest else rest
  }

  /** Selecting a session's rows commutes with concatenating frames: each row counts once, in order. */
  lemma {:induction false} SessionValuesAppend(a: seq<SessionRow>, b: seq<SessionRow>, session: string, kind: string)
    ensures SessionValues(a + b, session, kind) == SessionValues(a, session, kind) + SessionValues(b, session, kind)
  {
    if a == [] {
      assert a + b == b;
    } else {
      assert (a + b)[0] == a[0];
      assert (a + b)[1..] == a[1..] + b;
      SessionValuesAppend(a[1..], b, session, kind);
    }
  }

  /**
   * groupby("session").median() of the rows of type `kind`: one entry per
   * session that logged the event, NaN-skipping.
   */
  function PerSessionMedian(rows: seq<SessionRow>, kind: string): (m: map<string, Option<real>>)
    ensures forall s :: s in m <==> exists k :: 0 <= k < |rows| && rows[k].session == s && rows[k].event.kind == kind
    ensures forall s :: s in m ==> (m[s].Some? <==>
      exists k :: 0 <= k < |rows| && rows[k].session == s && rows[k].event.kind == kind && rows[k].event.value.Some?)
  {
    var sessions := set k | 0 <= k < |rows| && rows[k].event.kind == kind :: rows[k].session;
    var m := map s | s in sessions :: SkipNaMedian(SessionValues(rows, s, kind));
    assert forall s :: s in m ==> (m[s].Some? <==>
      exists k :: 0 <= k < |rows| && rows[k].session == s && rows[k].event.kind == kind && rows[k].event.value.Some?) by {
      forall s | s in m
        ensures m[s].Some? <==> exists k :: 0 <= k < |rows| && rows[k].session == s && rows[k].event.kind == kind && rows[k].event.value.Some?
      {
        var vs := SessionValues(rows, s, kind);
        if m[s].Some? {
          var i :| 0 <= i < |vs| && vs[i].Some?;
          assert vs[i] in vs;
        }
        if k :| 0 <= k < |rows| && rows[k].session == s && rows[k].event.kind == kind && rows[k].event.value.Some? {
          assert rows[k].event.value in vs;
        }
      }
    }
    m
  }

  /**
   * A session's median lies between the smallest and the largest value that
   * session logged for `kind`.
   */
  lemma PerSessionMedianWithin(rows: seq<SessionRow>, kind: string, s: string)
    requires s in PerSessionMedian(rows, kind) && PerSessionMedian(rows, kind)[s].Some?
    ensures exists k :: 0 <= k < |rows| && rows[k].session == s && rows[k].event.kind == kind &&
              rows[k].event.value.Some? && rows[k].event.value.value <= PerSessionMedian(rows, kind)[s].value
    ensures exists k :: 0 <= k < |rows| && rows[k].session == s && rows[k].event.kind == kind &&
              rows[k].event.value.Some? && PerSessionMedian(rows, kind)[s].value <= rows[k].event.value.value
  {
    var vs := SessionValues(rows, s, kind);
    var p := Present(vs);
    var med := PerSessionMedian(rows, kind)[s].value;
    assert |p| > 0 && med == Median(p);
    MedianWithin(p);
    assert Some(Min(p)) in vs && Some(Max(p)) in vs;
    var lo :| 0 <= lo < |rows| && rows[lo].session == s && rows[lo].event.kind == kind && rows[lo].event.value == Some(Min(p));
    var hi :| 0 <= hi < |rows| && rows[hi].session == s && rows[hi].event.kind == kind && rows[hi].event.value == Some(Max(p));
    assert rows[lo].event.value.value <= med <= rows[hi].event.value.value;
  }

  // ---------------------------------------------------------------
  // robust_stats
  // ---------------------------------------------------------------

  /** RNG.choice(s, size=len(s), replace=True) for resample k. */
  function Resample<T>(s: seq<T>, draw: Draw, k: nat): (r: seq<T>)
    requires |s| > 0
    ensures |r| == |s|
    ensures forall i :: 0 <= i < |r| ==> r[i] in s
  {
    seq(|s|, i requires 0 <= i < |s| => s[draw(k, i) % |s|])
  }

  /** The bootstrap medians `boots`. */
  function BootMedians(s: seq<real>, nBoot: nat, draw: Draw): (boots: seq<real>)
    requires |s| > 0
    ensures |boots| == nBoot
    ensures forall k :: 0 <= k < nBoot ==> Min(s) <= boots[k] <= Max(s)
  {
    seq(nBoot, k requires 0 <= k < nBoot => ResampleMedian(s, draw, k))
  }

  /** np.median of one resample: never outside the sample's range. */
  function ResampleMedian(s: seq<real>, draw: Draw, k: nat): (m: real)
    requires |s| > 0
    ensures Min(s) <= m <= Max(s)
  {
    var r := Resample(s, draw, k);
    MedianWithin(r);
    ExtremesWithin(r, Min(s), Max(s));
    Median(r)
  }

  /** The record robust_stats returns: median, IQR, (CI low, CI high), n. */
  datatype RobustStats = RobustStats(median: Option<real>, iqr: Option<real>,
                                     ciLow: Option<real>, ciHigh: Option<real>, n: nat)

  function RobustStatsOf(series: seq<Option<real>>, nBoot: nat, draw: Draw): (r: RobustStats)
    requires |Present(series)| > 0 ==> nBoot > 0
    ensures r.n == |Present(series)|
    ensures r.n == 0 <==> r == RobustStats(None, None, None, None, 0)
    ensures r.n > 0 ==> r.median.Some? && r.iqr.Some? && r.ciLow.Some? && r.ciHigh.Some?
    ensures r.n > 0 ==> r.median.value == Percentile(Present(series), 50.0)
    ensures r.n > 0 ==> Min(Present(series)) <= r.median.value <= Max(Present(series))
    ensures r.n > 0 ==> r.iqr.value == Percentile(Present(series), 75.0) - Percentile(Present(series), 25.0)
    ensures r.n > 0 ==> 0.0 <= r.iqr.value
    ensures r.n > 0 ==> Min(Present(series)) <= r.ciLow.value <= r.ciHigh.value <= Max(Present(series))
  {
    var s := Present(series);
    if |s| == 0 then RobustStats(None, None, None, None, 0)
    else
      var boots := BootMedians(s, nBoot, draw);
      MedianIsP50(s);
      MedianWithin(s);
      PercentileMonotone(s, 25.0, 75.0);
      PercentileMonotone(boots, 2.5, 97.5);
      PercentileWithin(boots, 2.5);
      PercentileWithin(boots, 97.5);
      ExtremesWithin(boots, Min(s), Max(s));
      RobustStats(Some(Median(s)),
                  Some(Percentile(s, 75.0) - Percentile(s, 25.0)),
                  Some(Percentile(boots, 2.5)), Some(Percentile(boots, 97.5)),
                  |s|)
  }

  /** Median, IQR and n depend only on the multiset of numeric values. */
  lemma RobustStatsPermutationInvariant(a: seq<Option<real>>, b: seq<Option<real>>,
                                        nBoot: nat, drawA: Draw, drawB: Draw)
    requires multiset(Present(a)) == multiset(Present(b))
    requires |Present(a)| > 0 ==> nBoot > 0
    ensures |Present(b)| > 0 ==> nBoot > 0
    ensures RobustStatsOf(a, nBoot, drawA).median == RobustStatsOf(b, nBoot, drawB).median
    ensures RobustStatsOf(a, nBoot, drawA).iqr == RobustStatsOf(b, nBoot, drawB).iqr
    ensures RobustStatsOf(a, nBoot, drawA).n == RobustStatsOf(b, nBoot, drawB).n
  {
    var pa, pb := Present(a), Present(b);
    assert |pa| == |multiset(pa)| == |multiset(pb)| == |pb|;
    var ra, rb := RobustStatsOf(a, nBoot, drawA), RobustStatsOf(b, nBoot, drawB);
    if |pa| > 0 {
      PercentilePermutationInvariant(pa, pb, 25.0);
      PercentilePermutationInvariant(pa, pb, 75.0);
      PercentilePermutationInvariant(pa, pb, 50.0);
      assert ra.median == Some(Percentile(pa, 50.0)) == rb.median;
      assert ra.iqr.Some? && rb.iqr.Some?;
      assert ra.iqr.value == Percentile(pa, 75.0) - Percentile(pa, 25.0);
      assert rb.iqr.value == Percentile(pb, 75.0) - Percentile(pb, 25.0);
      assert ra.iqr.value == rb.iqr.value;
      assert ra.iqr == Some(ra.iqr.value) && rb.iqr == Some(rb.iqr.value);
    }
  }

  // ---------------------------------------------------------------
  // save_summary_row and the summary table
  // ---------------------------------------------------------------

  /** One row of summary_metrics.csv. */
  datatype SummaryRow = SummaryRow(metric: string, stats: RobustStats)

  /** The row save_summary_row builds for a named series. */
  function RowFor(name: string, series: seq<Option<real>>, draw: Draw): SummaryRow {
    SummaryRow(name, RobustStatsOf(series, N_BOOT, draw))
  }

  /** The `rows` list that save_summary_row appends to. */
  class SummaryTable {
    var rows: seq<SummaryRow>

    constructor ()
      ensures rows == []
    {
      rows := [];
    }

    method SaveSummaryRow(name: string, series: seq<Option<real>>, draw: Draw)
      modifies this
      ensures rows == old(rows) + [RowFor(name, series, draw)]
    {
      var st := RobustStatsOf(series, N_BOOT, draw);
      rows := rows + [SummaryRow(name, st)];
    }
  }

  /** The four metrics of the enhanced-stats table, in output order. */
  const METRICS: seq<string> := [COLD_START, WARM_START, TTS_START_LATENCY, REROUTE_LATENCY]

  function MetricRow(events: seq<Event>, metric: string, draw: Draw): SummaryRow {
    RowFor(metric, ValuesOf(events, metric), draw)
  }

  /**
   * The robust-stats block over one session's events: one row per metric,
   * each from its own stretch of the random stream.
   */
  method SummarizeSession(events: seq<Event>, draws: seq<Draw>) returns (table: SummaryTable)
    requires |draws| == |METRICS|
    ensures fresh(table)
    ensures table.rows == [MetricRow(events, COLD_START, draws[0]), MetricRow(events, WARM_START, draws[1]),
                           MetricRow(events, TTS_START_LATENCY, draws[2]), MetricRow(events, REROUTE_LATENCY, draws[3])]
  {
    table := new SummaryTable();
    table.SaveSummaryRow(COLD_START, ValuesOf(events, COLD_START), draws[0]);
    table.SaveSummaryRow(WARM_START, ValuesOf(events, WARM_START), draws[1]);
    table.SaveSummaryRow(TTS_START_LATENCY, ValuesOf(events, TTS_START_LATENCY), draws[2]);
    table.SaveSummaryRow(REROUTE_LATENCY, ValuesOf(events, REROUTE_LATENCY), draws[3]);
  }

  // ---------------------------------------------------------------
  // The session behind the robust-stats block (USE_LATEST_ONLY)
  // ---------------------------------------------------------------

  /** The log path the glob logs/run_*.csv matches for run `n`. */
  function RunLog(n: char): string {
    "logs/run_" + [n] + ".csv"
  }

  /** run_1 sorts strictly before run_2. */
  lemma RunLogsOrdered()
    ensures LexLe(RunLog('1'), RunLog('2')) && RunLog('1') != RunLog('2')
  {
    LexLeAtFirstDifference("logs/run_", '1', '2', ".csv", ".csv");
    assert RunLog('1')[9] != RunLog('2')[9];
  }

  predicate DistinctPaths(files: seq<LogFile>) {
    forall i, j :: 0 <= i < j < |files| ==> files[i].path != files[j].path
  }

  datatype SessionError = UnreadableLatest(path: string)

  /**
   * As written: the latest file is read again with no guard, so an unreadable
   * latest log ends the script even though load_sessions skipped it.
   */
  function LatestSessionAsWritten(files: seq<LogFile>): (r: Result<seq<Event>, SessionError>)
    requires |files| > 0
    ensures r.Success? <==> Readable(Latest(files))
    ensures r.Success? ==> r.value == Latest(files).read.events
    ensures r.Failure? ==> r.error == UnreadableLatest(Latest(files).path)
  {
    var latest := Latest(files);
    match latest.read
    case ReadError(_) => Failure(UnreadableLatest(latest.path))
    case Parsed(events) => Success(events)
  }

  /** The readable logs, in their original order. */
  function ReadableFiles(files: seq<LogFile>): (r: seq<LogFile>)
    ensures forall f :: f in r <==> f in files && Readable(f)
  {
    if files == [] then []
    else
      var rest := ReadableFiles(files[1..]);
      assert files == [files[0]] + files[1..];
      if Readable(files[0]) then [files[0]] + rest else rest
  }

  /**
   * Corrected: the latest of the logs load_sessions could read, which exists
   * whenever load_sessions returned.
   */
  function LatestReadable(files: seq<LogFile>): (f: LogFile)
    requires AnyReadable(files)
    ensures f in files && Readable(f)
    ensures forall j :: 0 <= j < |files| && Readable(files[j]) ==> LexLe(files[j].path, f.path)
  {
    var rs := ReadableFiles(files);
    var i :| 0 <= i < |files| && Readable(files[i]);
    assert files[i] in rs;
    var f := Latest(rs);
    assert forall j :: 0 <= j < |files| && Readable(files[j]) ==> LexLe(files[j].path, f.path) by {
      forall j | 0 <= j < |files| && Readable(files[j])
        ensures LexLe(files[j].path, f.path)
      {
        assert files[j] in rs;
        var k :| 0 <= k < |rs| && rs[k] == files[j];
      }
    }
    f
  }

  /** Whenever the script as written gets past the read, the corrected choice is the same log. */
  lemma LatestReadableAgrees(files: seq<LogFile>)
    requires |files| > 0 && DistinctPaths(files) && Readable(Latest(files))
    ensures AnyReadable(files)
    ensures LatestReadable(files) == Latest(files)
    ensures LatestSessionAsWritten(files) == Success(LatestReadable(files).read.events)
  {
    var l := Latest(files);
    var a :| 0 <= a < |files| && files[a] == l;
    assert AnyReadable(files);
    var f := LatestReadable(files);
    var b :| 0 <= b < |files| && files[b] == f;
    LexLeAntisymmetric(l.path, f.path);
    assert a == b;
  }

  /** Run 1 readable, run 2 (the latest) not: load_sessions succeeds, the latest read raises. */
  lemma UnreadableLatestEndsScript()
    ensures var files := [LogFile(RunLog('1'), Parsed([])), LogFile(RunLog('2'), ReadError("bad"))];
      AnyReadable(files) && LatestSessionAsWritten(files).Failure? && LatestReadable(files) == files[0]
  {
    var files := [LogFile(RunLog('1'), Parsed([])), LogFile(RunLog('2'), ReadError("bad"))];
    RunLogsOrdered();
    LatestOfTwo(files[0], files[1]);
    assert Readable(files[0]);
  }

  // ---------------------------------------------------------------
  // A/B: prewarm ON vs OFF
  // ---------------------------------------------------------------

  datatype Cond = On | Off

  /** One entry of ab_rows: the session, its condition and its median TTS start latency. */
  datatype AbRow = AbRow(session: string, cond: Cond, ttsStartMedian: Option<real>)

  /** session_has_prewarm: any tts_prewarm_ms row; a file that cannot be read counts as OFF. */
  function SessionHasPrewarm(f: LogFile): (b: bool)
    ensures b <==> Readable(f) && HasKind(f.read.events, TTS_PREWARM)
  {
    match f.read
    case Parsed(events) => HasKind(events, TTS_PREWARM)
    case ReadError(_) => false
  }

  /** The A/B row a readable session contributes; none without TTS start latencies. */
  function SessionAbRow(f: LogFile): (r: Option<AbRow>)
    requires Readable(f)
    ensures r.Some? <==> HasKind(f.read.events, TTS_START_LATENCY)
    ensures r.Some? ==> r.value.session == Basename(f.path)
    ensures r.Some? ==> (r.value.cond == On <==> HasKind(f.read.events, TTS_PREWARM))
    ensures r.Some? ==> (r.value.ttsStartMedian.Some? <==>
      forall i :: 0 <= i < |f.read.events| && f.read.events[i].kind == TTS_START_LATENCY ==> f.read.events[i].value.Some?)
    ensures r.Some? && r.value.ttsStartMedian.Some? ==>
      Min(Present(ValuesOf(f.read.events, TTS_START_LATENCY))) <= r.value.ttsStartMedian.value <=
      Max(Present(ValuesOf(f.read.events, TTS_START_LATENCY)))
  {
    var s := ValuesOf(f.read.events, TTS_START_LATENCY);
    if |s| == 0 then None
    else
      ValuesOfAllPresent(f.read.events, TTS_START_LATENCY);
      assert NpMedian(s).Some? ==> Min(Present(s)) <= NpMedian(s).value <= Max(Present(s)) by {
        if NpMedian(s).Some? { MedianWithin(Present(s)); }
      }
      Some(AbRow(Basename(f.path), if SessionHasPrewarm(f) then On else Off, NpMedian(s)))
  }

  /** The selected values are all numbers iff every row of that type has one. */
  lemma {:induction false} ValuesOfAllPresent(events: seq<Event>, kind: string)
    ensures AllPresent(ValuesOf(events, kind)) <==>
      forall i :: 0 <= i < |events| && events[i].kind == kind ==> events[i].value.Some?
  {
    if events != [] {
      var rest := ValuesOf(events[1..], kind);
      ValuesOfAllPresent(events[1..], kind);
      assert forall i :: 1 <= i < |events| ==> events[i] == events[1..][i - 1];
      if events[0].kind == kind {
        var xs := [events[0].value] + rest;
        assert ValuesOf(events, kind) == xs;
        if AllPresent(xs) {
          assert xs[0] == events[0].value;
          forall i | 0 <= i < |rest| ensures rest[i].Some? {
            assert xs[i + 1] == rest[i];
          }
        } else {
          var j :| 0 <= j < |xs| && xs[j].None?;
          if j > 0 {
            assert rest[j - 1] == xs[j];
            var k :| 0 <= k < |events[1..]| && events[1..][k].kind == kind && events[1..][k].value.None?;
            assert events[k + 1] == events[1..][k];
          }
        }
      } else {
        assert ValuesOf(events, kind) == rest;
      }
    }
  }

  /** What one file adds to ab_rows when unreadable files are skipped. */
  function FileAbRows(f: LogFile): seq<AbRow> {
    if Readable(f) && SessionAbRow(f).Some? then [SessionAbRow(f).value] else []
  }

  /**
   * ab_rows when unreadable files are skipped, as load_sessions and
   * session_has_prewarm already do.
   */
  function AbRows(files: seq<LogFile>): seq<AbRow> {
    if files == [] then [] else AbRows(files[..|files| - 1]) + FileAbRows(files[|files| - 1])
  }

  /** Each A/B row is the row of one readable session of the input. */
  lemma {:induction false} AbRowsSound(files: seq<LogFile>, k: int)
    requires 0 <= k < |AbRows(files)|
    ensures exists i :: 0 <= i < |files| && Readable(files[i]) && SessionAbRow(files[i]) == Some(AbRows(files)[k])
  {
    var n := |files| - 1;
    if k < |AbRows(files[..n])| {
      AbRowsSound(files[..n], k);
      var i :| 0 <= i < n && Readable(files[..n][i]) && SessionAbRow(files[..n][i]) == Some(AbRows(files[..n])[k]);
      assert files[..n][i] == files[i];
    } else {
      assert AbRows(files)[k] == FileAbRows(files[n])[0];
    }
  }

  /** Every readable session with a TTS start latency gives an A/B row. */
  lemma {:induction false} AbRowsComplete(files: seq<LogFile>, i: int)
    requires 0 <= i < |files| && Readable(files[i]) && HasKind(files[i].read.events, TTS_START_LATENCY)
    ensures SessionAbRow(files[i]).value in AbRows(files)
  {
    var n := |files| - 1;
    if i < n {
      assert files[..n][i] == files[i];
      AbRowsComplete(files[..n], i);
    } else {
      assert FileAbRows(files[n]) == [SessionAbRow(files[i]).value];
    }
  }

  /** AbRows over a prefix grows by the row, if any, of the next file. */
  lemma AbRowsSnoc(files: seq<LogFile>, i: nat)
    requires i < |files|
    ensures AbRows(files[..i + 1]) == AbRows(files[..i]) + FileAbRows(files[i])
  {
    assert files[..i + 1][..i] == files[..i];
  }

  /** Extending a prefix by a readable file keeps the prefix readable. */
  lemma AllReadableSnoc(files: seq<LogFile>, i: nat)
    requires i < |files| && AllReadable(files[..i]) && Readable(files[i])
    ensures AllReadable(files[..i + 1])
  {
    assert forall j :: 0 <= j < i ==> files[..i + 1][j] == files[..i][j];
  }

  datatype AbError = UnreadableLog(path: string)

  /**
   * The A/B loop as written: it re-reads every file without a guard, so the
   * first unreadable file aborts the section.
   */
  method CollectAbRows(files: seq<LogFile>) returns (r: Result<seq<AbRow>, AbError>)
    ensures r.Success? <==> AllReadable(files)
    ensures r.Success? ==> r.value == AbRows(files)
    ensures r.Failure? ==> exists i :: (0 <= i < |files| && !Readable(files[i]) &&
      r.error == UnreadableLog(files[i].path) && AllReadable(files[..i]))
  {
    var abRows: seq<AbRow> := [];
    for i := 0 to |files|
      invariant AllReadable(files[..i])
      invariant abRows == AbRows(files[..i])
    {
      var f := files[i];
      if f.read.ReadError? {
        return Failure(UnreadableLog(f.path));
      }
      var cond := if SessionHasPrewarm(f) then On else Off;
      var s := ValuesOf(f.read.events, TTS_START_LATENCY);
      if |s| > 0 {
        abRows := abRows + [AbRow(Basename(f.path), cond, NpMedian(s))];
      }
      AbRowsSnoc(files, i);
      AllReadableSnoc(files, i);
    }
    assert files[..|files|] == files;
    return Success(abRows);
  }

  /**
   * Run 1 unreadable, run 2 (the latest) readable: load_sessions and the
   * latest-session read both succeed, and the A/B loop then aborts on run 1.
   */
  lemma CorruptLogAbortsAbLoop()
    ensures var files := [LogFile(RunLog('1'), ReadError("bad")), LogFile(RunLog('2'), Parsed([]))];
      AnyReadable(files) && Readable(Latest(files)) && !AllReadable(files) && AbRows(files) == []
  {
    var files := [LogFile(RunLog('1'), ReadError("bad")), LogFile(RunLog('2'), Parsed([]))];
    RunLogsOrdered();
    LatestOfTwo(files[0], files[1]);
    assert !Readable(files[0]) && Readable(files[1]);
    assert files[..1] == [files[0]] && files[..1][..0] == [];
  }

  /** The per-session medians of one condition (`ab[ab.cond == c].tts_start_median`). */
  function GroupMedians(rows: seq<AbRow>, c: Cond): (g: seq<Option<real>>)
    ensures |g| <= |rows|
    ensures |g| == 0 <==> forall k :: 0 <= k < |rows| ==> rows[k].cond != c
    ensures forall v :: v in g <==> exists k :: 0 <= k < |rows| && rows[k].cond == c && rows[k].ttsStartMedian == v
  {
    if rows == [] then []
    else
      var rest := GroupMedians(rows[1..], c);
      assert rows == [rows[0]] + rows[1..];
      assert forall k :: 1 <= k < |rows| ==> rows[k] == rows[1..][k - 1];
      if rows[0].cond == c then [rows[0].ttsStartMedian] + rest else rest
  }

  /** Grouping commutes with concatenating rows: each session's median counts once, in order. */
  lemma {:induction false} GroupMediansAppend(a: seq<AbRow>, b: seq<AbRow>, c: Cond)
    ensures GroupMedians(a + b, c) == GroupMedians(a, c) + GroupMedians(b, c)
  {
    if a == [] {
      assert a + b == b;
    } else {
      assert (a + b)[0] == a[0];
      assert (a + b)[1..] == a[1..] + b;
      GroupMediansAppend(a[1..], b, c);
    }
  }

  function Difference(a: Option<real>, b: Option<real>): Option<real> {
    if a.Some? && b.Some? then Some(a.value - b.value) else None
  }

  /** The bootstrap differences median(ON resample) - median(OFF resample). */
  function BootDiffs(on: seq<Option<real>>, off: seq<Option<real>>, nBoot: nat,
                     drawOn: Draw, drawOff: Draw): (diffs: seq<Option<real>>)
    requires |on| > 0 && |off| > 0
    ensures |diffs| == nBoot
  {
    seq(nBoot, k requires 0 <= k < nBoot =>
      Difference(NpMedian(Resample(on, drawOn, k)), NpMedian(Resample(off, drawOff, k))))
  }

  /** boot_ab: the loop that builds `diffs`. */
  method BootAb(on: seq<Option<real>>, off: seq<Option<real>>, nBoot: nat,
                drawOn: Draw, drawOff: Draw) returns (diffs: seq<Option<real>>)
    requires |on| > 0 && |off| > 0
    ensures diffs == BootDiffs(on, off, nBoot, drawOn, drawOff)
  {
    diffs := [];
    for k := 0 to nBoot
      invariant |diffs| == k
      invariant forall j :: 0 <= j < k ==> diffs[j] == BootDiffs(on, off, nBoot, drawOn, drawOff)[j]
    {
      var bo := Resample(on, drawOn, k);
      var bf := Resample(off, drawOff, k);
      diffs := diffs + [Difference(NpMedian(bo), NpMedian(bf))];
    }
  }

  /** With every session median defined, each bootstrap difference is defined and bounded. */
  lemma BootDiffsWithin(on: seq<Option<real>>, off: seq<Option<real>>, nBoot: nat,
                        drawOn: Draw, drawOff: Draw, k: nat)
    requires |on| > 0 && |off| > 0 && AllPresent(on) && AllPresent(off) && k < nBoot
    ensures BootDiffs(on, off, nBoot, drawOn, drawOff)[k].Some?
    ensures Min(Present(on)) - Max(Present(off)) <= BootDiffs(on, off, nBoot, drawOn, drawOff)[k].value
    ensures BootDiffs(on, off, nBoot, drawOn, drawOff)[k].value <= Max(Present(on)) - Min(Present(off))
  {
    ResampleMedianWithin(on, drawOn, k);
    ResampleMedianWithin(off, drawOff, k);
  }

  lemma ResampleMedianWithin(s: seq<Option<real>>, draw: Draw, k: nat)
    requires |s| > 0 && AllPresent(s)
    ensures NpMedian(Resample(s, draw, k)).Some?
    ensures Min(Present(s)) <= NpMedian(Resample(s, draw, k)).value <= Max(Present(s))
  {
    var r := Resample(s, draw, k);
    PresentOfAllPresent(s);
    PresentOfAllPresent(r);
    var pr, ps := Present(r), Present(s);
    forall i | 0 <= i < |pr| ensures Min(ps) <= pr[i] <= Max(ps) {
      assert Some(pr[i]) in s;
    }
    ExtremesWithin(pr, Min(ps), Max(ps));
    MedianWithin(pr);
  }

  /** The relative change (median(on) / median(off) - 1) * 100; undefined when OFF's median is 0. */
  function RelChange(on: Option<real>, off: Option<real>): (r: Option<real>)
    ensures r.Some? <==> on.Some? && off.Some? && off.value != 0.0
  {
    if on.Some? && off.Some? && off.value != 0.0 then Some((on.value / off.value - 1.0) * 100.0)
    else None
  }

  /** For a positive OFF median the change is negative exactly when ON is lower. */
  lemma RelChangeSign(on: real, off: real)
    requires off > 0.0
    ensures RelChange(Some(on), Some(off)).value < 0.0 <==> on < off
    ensures RelChange(Some(on), Some(off)).value == 0.0 <==> on == off
  {
    var q := on / off;
    assert on == q * off;
    if on < off {
      assert q < 1.0 by {
        if q >= 1.0 {
          ScaleMonotone(1.0, q, off);
        }
      }
    }
    if q < 1.0 {
      ScaleMonotone(q, 1.0, off);
      assert on <= off;
    }
  }

  /** The comparison section's output (ab_prewarm_summary.csv). */
  datatype AbSummary = AbSummary(onMedian: Option<real>, offMedian: Option<real>,
                                 diffMedian: Option<real>, relChange: Option<real>,
                                 ciLow: Option<real>, ciHigh: Option<real>)

  datatype AbOutcome = NeedBothConditions | Compared(summary: AbSummary)

  predicate HasCond(rows: seq<AbRow>, c: Cond) {
    exists k :: 0 <= k < |rows| && rows[k].cond == c
  }

  function CompareAb(rows: seq<AbRow>, nBoot: nat, drawOn: Draw, drawOff: Draw): (r: AbOutcome)
    requires nBoot > 0
    ensures r.Compared? <==> HasCond(rows, On) && HasCond(rows, Off)
    ensures r.Compared? ==> r.summary.ciLow.Some? == r.summary.diffMedian.Some? == r.summary.ciHigh.Some?
    ensures r.Compared? && r.summary.diffMedian.Some? ==>
      r.summary.ciLow.value <= r.summary.diffMedian.value <= r.summary.ciHigh.value
    ensures r.Compared? ==> (r.summary.onMedian.Some? <==> AllPresent(GroupMedians(rows, On)))
    ensures r.Compared? ==> (r.summary.offMedian.Some? <==> AllPresent(GroupMedians(rows, Off)))
    ensures r.Compared? && AllPresent(GroupMedians(rows, On)) && AllPresent(GroupMedians(rows, Off)) ==>
      r.summary.diffMedian.Some? &&
      Min(Present(GroupMedians(rows, On))) - Max(Present(GroupMedians(rows, Off))) <= r.summary.ciLow.value &&
      r.summary.ciHigh.value <= Max(Present(GroupMedians(rows, On))) - Min(Present(GroupMedians(rows, Off)))
    ensures r.Compared? ==>
      r.summary.onMedian == NpMedian(GroupMedians(rows, On)) &&
      r.summary.offMedian == NpMedian(GroupMedians(rows, Off)) &&
      r.summary.relChange == RelChange(r.summary.onMedian, r.summary.offMedian)
    ensures r.Compared? ==>
      var diffs := BootDiffs(GroupMedians(rows, On), GroupMedians(rows, Off), nBoot, drawOn, drawOff);
      r.summary.diffMedian == NpMedian(diffs) &&
      r.summary.ciLow == NpPercentile(diffs, 2.5) && r.summary.ciHigh == NpPercentile(diffs, 97.5)
  {
    var on, off := GroupMedians(rows, On), GroupMedians(rows, Off);
    if |on| == 0 || |off| == 0 then NeedBothConditions
    else
      var diffs := BootDiffs(on, off, nBoot, drawOn, drawOff);
      var diffMed := NpMedian(diffs);
      CiContainsMedian(diffs);
      BootDiffsBounds(on, off, nBoot, drawOn, drawOff);
      Compared(AbSummary(NpMedian(on), NpMedian(off), diffMed,
                         RelChange(NpMedian(on), NpMedian(off)),
                         NpPercentile(diffs, 2.5), NpPercentile(diffs, 97.5)))
  }

  /** The 2.5th and 97.5th percentiles bracket the median. */
  lemma CiContainsMedian(xs: seq<Option<real>>)
    requires |xs| > 0
    ensures NpMedian(xs).Some? ==>
      NpPercentile(xs, 2.5).value <= NpMedian(xs).value <= NpPercentile(xs, 97.5).value
  {
    if AllPresent(xs) {
      PresentOfAllPresent(xs);
      var p := Present(xs);
      MedianIsP50(p);
      PercentileMonotone(p, 2.5, 50.0);
      PercentileMonotone(p, 50.0, 97.5);
    }
  }

  lemma BootDiffsBounds(on: seq<Option<real>>, off: seq<Option<real>>, nBoot: nat, drawOn: Draw, drawOff: Draw)
    requires |on| > 0 && |off| > 0 && nBoot > 0
    ensures AllPresent(on) && AllPresent(off) ==>
      var diffs := BootDiffs(on, off, nBoot, drawOn, drawOff);
      AllPresent(diffs) &&
      Min(Present(on)) - Max(Present(off)) <= NpPercentile(diffs, 2.5).value &&
      NpPercentile(diffs, 97.5).value <= Max(Present(on)) - Min(Present(off))
  {
    if AllPresent(on) && AllPresent(off) {
      var diffs := BootDiffs(on, off, nBoot, drawOn, drawOff);
      var lo := Min(Present(on)) - Max(Present(off));
      var hi := Max(Present(on)) - Min(Present(off));
      forall k | 0 <= k < |diffs| ensures diffs[k].Some? && lo <= diffs[k].value <= hi {
        BootDiffsWithin(on, off, nBoot, drawOn, drawOff, k);
      }
      CiWithinBounds(diffs, lo, hi);
    }
  }

  /** Both CI endpoints of values bounded by [lo, hi] lie in [lo, hi]. */
  lemma CiWithinBounds(xs: seq<Option<real>>, lo: real, hi: real)
    requires |xs| > 0 && forall k :: 0 <= k < |xs| ==> xs[k].Some? && lo <= xs[k].value <= hi
    ensures AllPresent(xs)
    ensures lo <= NpPercentile(xs, 2.5).value && NpPercentile(xs, 97.5).value <= hi
  {
    PresentOfAllPresent(xs);
    var p := Present(xs);
    ExtremesWithin(p, lo, hi);
    PercentileWithin(p, 2.5);
    PercentileWithin(p, 97.5);
  }
}
