/**
 * The acceptance checker: the latest session's per-metric medians against
 * fixed thresholds, and the share of evaluated metrics that pass.
 */
module AcceptanceEval {
  import opened Wrappers
  import opened Stats
  import opened EventLog

  /** Maximum allowed median, in ms, per metric. */
  const TARGETS: map<string, int> :=
    map[COLD_START := 1500, WARM_START := 800, TTS_START_LATENCY := 500, REROUTE_LATENCY := 1000]

  lemma TargetsTable()
    ensures TARGETS.Keys == {"cold_start_ms", "warm_start_ms", "tts_start_latency_ms", "reroute_latency_ms"}
    ensures TARGETS["cold_start_ms"] == 1500 && TARGETS["warm_start_ms"] == 800
    ensures TARGETS["tts_start_latency_ms"] == 500 && TARGETS["reroute_latency_ms"] == 1000
  {
  }

  /**
   * med(evt): NaN when the session has no row of type `evt`; otherwise the
   * pandas median of value_ms, which skips NaN (and is NaN if nothing is left).
   */
  function Med(events: seq<Event>, evt: string): (m: Option<real>)
    ensures !HasKind(events, evt) ==> m.None?
    ensures m.Some? <==> exists i :: 0 <= i < |events| && events[i].kind == evt && events[i].value.Some?
    ensures m.Some? ==> Min(Present(ValuesOf(events, evt))) <= m.value <= Max(Present(ValuesOf(events, evt)))
  {
    var d := ValuesOf(events, evt);
    if |d| == 0 then None
    else
      var p := Present(d);
      assert |p| > 0 ==> Min(p) <= Median(p) <= Max(p) by {
        if |p| > 0 { MedianWithin(p); }
      }
      assert (exists j :: 0 <= j < |d| && d[j].Some?) ==>
             exists i :: 0 <= i < |events| && events[i].kind == evt && events[i].value.Some? by {
        if j :| 0 <= j < |d| && d[j].Some? { assert d[j] in d; }
      }
      assert (exists i :: 0 <= i < |events| && events[i].kind == evt && events[i].value.Some?) ==>
             exists j :: 0 <= j < |d| && d[j].Some? by {
        if i :| 0 <= i < |events| && events[i].kind == evt && events[i].value.Some? {
          assert events[i].value in d;
        }
      }
      SkipNaMedian(d)
  }

  /** summary = {k: med(k) for k in TARGETS} */
  function Summary(events: seq<Event>): (s: map<string, Option<real>>)
    ensures s.Keys == TARGETS.Keys
    ensures forall k :: k in s ==> s[k] == Med(events, k)
  {
    map k | k in TARGETS :: Med(events, k)
  }

  /** verdict: pass/fail for each target whose median is defined. */
  function Verdict(summary: map<string, Option<real>>): (v: map<string, bool>)
    requires summary.Keys == TARGETS.Keys
    ensures forall k :: k in v <==> k in TARGETS && summary[k].Some?
    ensures forall k :: k in v ==> (v[k] <==> summary[k].value <= TARGETS[k] as real)
  {
    map k | k in TARGETS && summary[k].Some? :: summary[k].value <= TARGETS[k] as real
  }

  function Passed(verdict: map<string, bool>): (p: set<string>)
    ensures p <= verdict.Keys
    ensures forall k :: k in p <==> k in verdict && verdict[k]
  {
    set k | k in verdict && verdict[k]
  }

  /** ok_ratio: passed / evaluated, 0 when nothing was evaluated. */
  function OkRatio(verdict: map<string, bool>): (r: real)
    ensures 0.0 <= r <= 1.0
    ensures |verdict| == 0 ==> r == 0.0
    ensures r == 1.0 <==> |verdict| > 0 && forall k :: k in verdict ==> verdict[k]
    ensures r == 0.0 <==> forall k :: k in verdict ==> !verdict[k]
  {
    if |verdict| == 0 then 0.0
    else
      var p, n := |Passed(verdict)| as real, |verdict| as real;
      SubsetCardinality(Passed(verdict), verdict.Keys);
      assert p <= n;
      assert p / n <= 1.0;
      assert p / n == 1.0 ==> Passed(verdict) == verdict.Keys by {
        if p / n == 1.0 {
          assert p == n;
          if Passed(verdict) != verdict.Keys {
            StrictSubsetCardinality(Passed(verdict), verdict.Keys);
          }
        }
      }
      assert (forall k :: k in verdict ==> verdict[k]) ==> p / n == 1.0 by {
        if forall k :: k in verdict ==> verdict[k] {
          assert Passed(verdict) == verdict.Keys;
        }
      }
      assert p / n == 0.0 ==> Passed(verdict) == {};
      assert Passed(verdict) == {} ==> p == 0.0;
      p / n
  }

  lemma SubsetCardinality(a: set<string>, b: set<string>)
    requires a <= b
    ensures |a| <= |b|
  {
    assert b == a + (b - a);
  }

  lemma StrictSubsetCardinality(a: set<string>, b: set<string>)
    requires a < b
    ensures |a| < |b|
  {
    assert b == a + (b - a);
    var x :| x in b - a;
  }

  datatype Report = Report(summary: map<string, Option<real>>, verdict: map<string, bool>, okRatio: real)

  datatype AcceptanceError = NoLogsFound | UnreadableLog(path: string)

  /**
   * The whole script: only the last file in sorted order is read; no files
   * at all, or an unreadable latest file, ends the run.
   */
  function Evaluate(files: seq<LogFile>): (r: Result<Report, AcceptanceError>)
    ensures |files| == 0 <==> r == Failure(NoLogsFound)
    ensures |files| > 0 ==> (r.Failure? <==> !Readable(Latest(files)))
    ensures |files| > 0 && !Readable(Latest(files)) ==> r.error == UnreadableLog(Latest(files).path)
    ensures r.Success? ==> r.value.summary == Summary(Latest(files).read.events)
    ensures r.Success? ==> r.value.verdict == Verdict(r.value.summary) && r.value.okRatio == OkRatio(r.value.verdict)
    ensures r.Success? ==> 0.0 <= r.value.okRatio <= 1.0
  {
    if |files| == 0 then Failure(NoLogsFound)
    else
      var latest := Latest(files);
      match latest.read
      case ReadError(_) => Failure(UnreadableLog(latest.path))
      case Parsed(events) =>
        var summary := Summary(events);
        var verdict := Verdict(summary);
        Success(Report(summary, verdict, OkRatio(verdict)))
  }

  /** Files other than the latest one never influence the outcome. */
  lemma OnlyLatestMatters(a: seq<LogFile>, b: seq<LogFile>)
    requires |a| > 0 && |b| > 0 && Latest(a) == Latest(b)
    ensures Evaluate(a) == Evaluate(b)
  {
  }

  /** A metric with no samples is left out of the verdict rather than failed. */
  lemma UndefinedMetricNotCounted(events: seq<Event>, k: string)
    requires k in TARGETS && !HasKind(events, k)
    ensures k !in Verdict(Summary(events))
  {
  }

  /** A session with three cold start samples and one warm start row without a value. */
  function ExampleSession(a: real, b: real, c: real): seq<Event> {
    [Event("", COLD_START, "", Some(a)), Event("", COLD_START, "", Some(b)),
     Event("", COLD_START, "", Some(c)), Event("", WARM_START, "", None)]
  }

  /** Of three cold start samples, the middle one is the metric's median. */
  lemma MedExampleDefined(a: real, b: real, c: real)
    requires a < c < b
    ensures Med(ExampleSession(a, b, c), COLD_START) == Some(c)
  {
    ExampleColdValues(a, b, c);
    MedianOfThree(a, b, c);
  }

  lemma ExampleColdValues(a: real, b: real, c: real)
    ensures ValuesOf(ExampleSession(a, b, c), COLD_START) == [Some(a), Some(b), Some(c)]
  {
    var events := ExampleSession(a, b, c);
    assert ValuesOf(events[3..], COLD_START) == [];
    assert ValuesOf(events[2..], COLD_START) == [Some(c)];
    assert ValuesOf(events[1..], COLD_START) == [Some(b), Some(c)];
  }

  lemma MedianOfThree(a: real, b: real, c: real)
    requires a < c < b
    ensures SkipNaMedian([Some(a), Some(b), Some(c)]) == Some(c)
  {
    PresentOfThree(a, b, c);
    MedianOfThreeValues(a, b, c);
  }

  lemma MedianOfThreeValues(a: real, b: real, c: real)
    requires a < c < b
    ensures Median([a, b, c]) == c
  {
    SortOfThree(a, b, c);
    MedianOfSorted([a, b, c], [a, c, b]);
  }

  lemma MedianOfSorted(s: seq<real>, t: seq<real>)
    requires |t| == 3 && Sort(s) == t
    ensures Median(s) == t[1]
  {
  }

  lemma PresentOfThree(a: real, b: real, c: real)
    ensures Present([Some(a), Some(b), Some(c)]) == [a, b, c]
  {
    assert [Some(a), Some(b), Some(c)][1..] == [Some(b), Some(c)];
    assert [Some(b), Some(c)][1..] == [Some(c)];
  }

  lemma SortOfThree(a: real, b: real, c: real)
    requires a < c < b
    ensures Sort([a, b, c]) == [a, c, b]
  {
    var s, t := [a, b, c], [a, c, b];
    assert Sorted(t);
    assert multiset(Sort(s)) == multiset(t) by {
      assert multiset(s) == multiset(t);
    }
    SortedUnique(Sort(s), t);
  }

  /** A metric whose only row has no value is undefined, although the row exists. */
  lemma MedExampleUndefined(a: real, b: real, c: real)
    ensures HasKind(ExampleSession(a, b, c), WARM_START)
    ensures Med(ExampleSession(a, b, c), WARM_START) == None
  {
    var events := ExampleSession(a, b, c);
    assert events[3].kind == WARM_START;
    assert ValuesOf(events[3..], WARM_START) == [None];
    assert ValuesOf(events[2..], WARM_START) == [None];
    assert ValuesOf(events[1..], WARM_START) == [None];
    assert ValuesOf(events, WARM_START) == [None];
    assert Present([None]) == [];
  }

  /**
   * Cold start median 1100 passes (target 1500), warm start median 925 fails
   * (target 800), the other two metrics are undefined: half the evaluated
   * targets are met.
   */
  lemma TwoMetricExample()
    ensures var v := Verdict(map[COLD_START := Some(1100.0), WARM_START := Some(925.0),
                                 TTS_START_LATENCY := None, REROUTE_LATENCY := None]);
            v == map[COLD_START := true, WARM_START := false] && OkRatio(v) == 0.5
  {
    var v := Verdict(map[COLD_START := Some(1100.0), WARM_START := Some(925.0),
                         TTS_START_LATENCY := None, REROUTE_LATENCY := None]);
    assert v.Keys == {COLD_START, WARM_START};
    assert v == map[COLD_START := true, WARM_START := false];
    assert Passed(v) == {COLD_START};
  }
}
