/**
 * Session event logs as the analysis scripts see them: one CSV file per
 * session with the columns ts,type,label,value_ms.
 */
module EventLog {
  import opened Wrappers

  const COLD_START := "cold_start_ms"
  const WARM_START := "warm_start_ms"
  const TTS_START_LATENCY := "tts_start_latency_ms"
  const REROUTE_LATENCY := "reroute_latency_ms"
  const TTS_PREWARM := "tts_prewarm_ms"

  /**
   * One logged row. value_ms is a number, or None for a blank cell (NaN once
   * parsed); a row with a text value_ms is outside this model.
   */
  datatype Event = Event(ts: string, kind: string, eventLabel: string, value: Option<real>)

  /** What reading a log file gives: its rows, or the exception the reader raised. */
  datatype ReadOutcome = Parsed(events: seq<Event>) | ReadError(reason: string)

  datatype LogFile = LogFile(path: string, read: ReadOutcome)

  predicate Readable(f: LogFile) {
    f.read.Parsed?
  }

  predicate AllReadable(files: seq<LogFile>) {
    forall i :: 0 <= i < |files| ==> Readable(files[i])
  }

  predicate AnyReadable(files: seq<LogFile>) {
    exists i :: 0 <= i < |files| && Readable(files[i])
  }

  /** os.path.basename on a POSIX path: everything after the last '/'. */
  function Basename(path: string): (b: string)
    ensures '/' !in b
    ensures |b| <= |path| && path[|path| - |b|..] == b
    ensures |b| < |path| ==> path[|path| - |b| - 1] == '/'
  {
    if '/' !in path then path
    else
      var b := Basename(path[1..]);
      assert path[1..][|path| - 1 - |b|..] == path[|path| - |b|..];
      assert |b| == |path| - 1 ==> path[0] == '/' by {
        assert path == [path[0]] + path[1..];
      }
      assert |b| < |path| - 1 ==> path[1..][|path| - 1 - |b| - 1] == path[|path| - |b| - 1];
      b
  }

  predicate HasKind(events: seq<Event>, kind: string) {
    exists i :: 0 <= i < |events| && events[i].kind == kind
  }

  /** The value_ms column of the rows whose type is `kind`, in log order. */
  function ValuesOf(events: seq<Event>, kind: string): (r: seq<Option<real>>)
    ensures |r| <= |events|
    ensures |r| == 0 <==> !HasKind(events, kind)
    ensures forall v :: v in r <==> exists i :: 0 <= i < |events| && events[i].kind == kind && events[i].value == v
  {
    if events == [] then []
    else
      var rest := ValuesOf(events[1..], kind);
      assert events == [events[0]] + events[1..];
      assert forall i :: 1 <= i < |events| ==> events[i] == events[1..][i - 1];
      assert HasKind(events, kind) ==> events[0].kind == kind || HasKind(events[1..], kind);
      if events[0].kind == kind then [events[0].value] + rest else rest
  }

  /**
   * Selecting rows commutes with concatenating logs, so every matching row
   * contributes its value once and in log order.
   */
  lemma {:induction false} ValuesOfAppend(a: seq<Event>, b: seq<Event>, kind: string)
    ensures ValuesOf(a + b, kind) == ValuesOf(a, kind) + ValuesOf(b, kind)
  {
    if a == [] {
      assert a + b == b;
    } else {
      assert (a + b)[0] == a[0];
      assert (a + b)[1..] == a[1..] + b;
      ValuesOfAppend(a[1..], b, kind);
    }
  }

  // ---------------------------------------------------------------
  // "Latest session": the last path in sorted order
  // ---------------------------------------------------------------

  /** Python's string order: lexicographic by code point, a prefix first. */
  predicate LexLe(a: string, b: string) {
    |a| == 0 || (|b| > 0 && (a[0] < b[0] || (a[0] == b[0] && LexLe(a[1..], b[1..]))))
  }

  lemma {:induction false} LexLeTotal(a: string, b: string)
    ensures LexLe(a, b) || LexLe(b, a)
  {
    if |a| > 0 && |b| > 0 && a[0] == b[0] {
      LexLeTotal(a[1..], b[1..]);
    }
  }

  lemma {:induction false} LexLeAntisymmetric(a: string, b: string)
    requires LexLe(a, b) && LexLe(b, a)
    ensures a == b
  {
    if |a| > 0 {
      LexLeAntisymmetric(a[1..], b[1..]);
      assert a == [a[0]] + a[1..] && b == [b[0]] + b[1..];
    }
  }

  /** Paths that agree up to one character are ordered by that character. */
  lemma {:induction false} LexLeAtFirstDifference(p: string, x: char, y: char, q1: string, q2: string)
    requires x < y
    ensures LexLe(p + [x] + q1, p + [y] + q2)
  {
    if p != [] {
      assert (p + [x] + q1)[1..] == p[1..] + [x] + q1;
      assert (p + [y] + q2)[1..] == p[1..] + [y] + q2;
      LexLeAtFirstDifference(p[1..], x, y, q1, q2);
    }
  }

  lemma {:induction false} LexLeTransitive(a: string, b: string, c: string)
    requires LexLe(a, b) && LexLe(b, c)
    ensures LexLe(a, c)
  {
    if |a| > 0 && |b| > 0 && |c| > 0 && a[0] == b[0] == c[0] {
      LexLeTransitive(a[1..], b[1..], c[1..]);
    }
  }

  /** Index of `sorted(paths)[-1]`: a path no other path follows. */
  function LatestIndex(paths: seq<string>): (k: nat)
    requires |paths| > 0
    ensures k < |paths|
    ensures forall j :: 0 <= j < |paths| ==> LexLe(paths[j], paths[k])
  {
    var last := |paths| - 1;
    if last == 0 then
      LexLeTotal(paths[0], paths[0]);
      0
    else
      var k := LatestIndex(paths[..last]);
      assert forall j :: 0 <= j < last ==> paths[..last][j] == paths[j];
      LexLeTotal(paths[k], paths[last]);
      if LexLe(paths[k], paths[last]) then
        LexLeUpperBound(paths[..last], paths[k], paths[last]);
        LexLeTotal(paths[last], paths[last]);
        last
      else
        k
  }

  lemma LexLeUpperBound(paths: seq<string>, m: string, b: string)
    requires forall j :: 0 <= j < |paths| ==> LexLe(paths[j], m)
    requires LexLe(m, b)
    ensures forall j :: 0 <= j < |paths| ==> LexLe(paths[j], b)
  {
    forall j | 0 <= j < |paths| ensures LexLe(paths[j], b) {
      LexLeTransitive(paths[j], m, b);
    }
  }

  function Paths(files: seq<LogFile>): (r: seq<string>)
    ensures |r| == |files| && forall i :: 0 <= i < |files| ==> r[i] == files[i].path
  {
    seq(|files|, i requires 0 <= i < |files| => files[i].path)
  }

  /** The latest session's file (`files[-1]` after sorting). */
  function Latest(files: seq<LogFile>): (f: LogFile)
    requires |files| > 0
    ensures f in files
    ensures forall j :: 0 <= j < |files| ==> LexLe(files[j].path, f.path)
  {
    files[LatestIndex(Paths(files))]
  }

  /** Of two logs with distinct, ordered paths, the second is the latest. */
  lemma LatestOfTwo(a: LogFile, b: LogFile)
    requires LexLe(a.path, b.path) && a.path != b.path
    ensures Latest([a, b]) == b
  {
    var f := Latest([a, b]);
    if f != b {
      assert f == a;
      assert LexLe([a, b][1].path, f.path);
      LexLeAntisymmetric(a.path, b.path);
    }
  }
}
