/**
 * The navigation view-model: a cursor over the route's steps that shows,
 * speaks and vibrates each step in turn, restarts on a reroute, and records
 * what it did. The screen callbacks, the speech engine, the vibrator and
 * the event logger are modelled together as one ordered trace of effects.
 */
module NavVm {
  import opened Wrappers
  import opened PyNum
  import opened Haptics

  const CLICK_NEXT := "click_next"
  const CLICK_REROUTE := "click_reroute"
  const TTS_START_LATENCY := "tts_start_latency_ms"
  const TTS_DONE := "tts_done_ms"
  const REROUTE_LATENCY := "reroute_latency_ms"
  const SETTINGS_PREFIX := "settings_"
  const REROUTE_TEXT := "Recalculating route, please return to the corridor and proceed."

  /** One route step; `kind` is the optional direction ("left", "right", ...). */
  datatype Step = Step(id: string, kind: Option<string>, text: string)

  /** The value_ms column of a logged row: empty, a whole number of ms, or a setting's new value. */
  datatype LogValue = Blank | Ms(ms: int) | Text(text: string)

  /** What the view-model makes happen outside itself, in order. */
  datatype Effect =
    | ShowText(text: string)
    | ShowProgress(done: int, total: int)
    | Log(kind: string, eventLabel: string, value: LogValue)
    | Speak(text: string, eventLabel: string, withCallbacks: bool)
    | Vibrate(pattern: seq<int>)

  datatype Outcome = Continue | Arrived

  /** The label under which a step's click and speech are logged. */
  function StepLabel(s: Step): string {
    "step_" + s.id
  }

  /** The haptic strength setting, "normal" when unset. */
  function Strength(settings: map<string, string>): string {
    if "haptic_strength" in settings then settings["haptic_strength"] else "normal"
  }

  /** `max(1, int(seconds * 1000))`: a start latency is never logged as 0 ms. */
  function StartLatencyMs(clickT0: real, now: real): (ms: int)
    ensures ms >= 1
    ensures Trunc((now - clickT0) * 1000.0) >= 1 ==> ms == Trunc((now - clickT0) * 1000.0)
  {
    var raw := Trunc((now - clickT0) * 1000.0);
    if raw < 1 then 1 else raw
  }

  /** What `next_step` does for step `i` of `n`, in order. */
  function StepEffects(s: Step, i: nat, n: nat, settings: map<string, string>): seq<Effect> {
    var kind := if s.kind.Some? then s.kind.value else "forward";
    [ShowText(s.text),
     ShowProgress(i + 1, n),
     Log(CLICK_NEXT, StepLabel(s), Blank),
     Speak(s.text, StepLabel(s), true),
     Vibrate(VibratePattern(kind, Strength(settings)))]
  }

  /** What `reroute` does, given the measured reroute latency. */
  function RerouteEffects(latencyMs: int, n: nat, settings: map<string, string>): seq<Effect> {
    [Log(CLICK_REROUTE, "", Blank),
     Log(REROUTE_LATENCY, "reroute", Ms(latencyMs)),
     ShowProgress(0, n),
     ShowText(REROUTE_TEXT),
     Speak(REROUTE_TEXT, "reroute", false),
     Vibrate(VibratePattern("forward", Strength(settings)))]
  }

  /** The rows an effect sequence writes to the event log, in order. */
  function Logged(effects: seq<Effect>): (r: seq<Effect>)
    ensures |r| <= |effects|
    ensures forall e :: e in r <==> e in effects && e.Log?
  {
    if effects == [] then []
    else
      var rest := Logged(effects[1..]);
      assert effects == [effects[0]] + effects[1..];
      if effects[0].Log? then [effects[0]] + rest else rest
  }

  lemma {:induction false} LoggedAppend(a: seq<Effect>, b: seq<Effect>)
    ensures Logged(a + b) == Logged(a) + Logged(b)
    decreases |a|
  {
    if a == [] {
      assert a + b == b;
    } else {
      assert (a + b)[1..] == a[1..] + b;
      LoggedAppend(a[1..], b);
    }
  }

  /** A step writes exactly one row to the log: its click. */
  lemma StepLogsClick(s: Step, i: nat, n: nat, settings: map<string, string>)
    ensures Logged(StepEffects(s, i, n, settings)) == [Log(CLICK_NEXT, "step_" + s.id, Blank)]
  {
    var e := StepEffects(s, i, n, settings);
    assert e == e[..2] + [e[2]] + e[3..];
    LoggedOneBetween(e[..2], e[2], e[3..]);
  }

  lemma LoggedOneBetween(before: seq<Effect>, x: Effect, after: seq<Effect>)
    requires x.Log?
    requires forall i :: 0 <= i < |before| ==> !before[i].Log?
    requires forall i :: 0 <= i < |after| ==> !after[i].Log?
    ensures Logged(before + [x] + after) == [x]
  {
    LoggedAppend(before + [x], after);
    LoggedAppend(before, [x]);
    NoLogsLogged(before);
    NoLogsLogged(after);
    assert [x][1..] == [];
  }

  /** A reroute writes its click, then its latency under the label "reroute". */
  lemma RerouteLogsClickThenLatency(latencyMs: int, n: nat, settings: map<string, string>)
    ensures Logged(RerouteEffects(latencyMs, n, settings)) ==
      [Log(CLICK_REROUTE, "", Blank), Log(REROUTE_LATENCY, "reroute", Ms(latencyMs))]
  {
    var e := RerouteEffects(latencyMs, n, settings);
    assert e == [e[0], e[1]] + e[2..];
    LoggedTwoThenNone(e[0], e[1], e[2..]);
  }

  lemma LoggedTwoThenNone(a: Effect, b: Effect, rest: seq<Effect>)
    requires a.Log? && b.Log?
    requires forall i :: 0 <= i < |rest| ==> !rest[i].Log?
    ensures Logged([a, b] + rest) == [a, b]
  {
    LoggedAppend([a, b], rest);
    NoLogsLogged(rest);
    LoggedPair(a, b);
  }

  lemma LoggedPair(a: Effect, b: Effect)
    requires a.Log? && b.Log?
    ensures Logged([a, b]) == [a, b]
  {
    assert [a, b][1..] == [b];
    assert [b][1..] == [];
  }

  /** Effects none of which writes a row leave the log unchanged. */
  lemma NoLogsLogged(effects: seq<Effect>)
    requires forall i :: 0 <= i < |effects| ==> !effects[i].Log?
    ensures Logged(effects) == []
  {
    if Logged(effects) != [] {
      assert Logged(effects)[0] in Logged(effects);
    }
  }

  /** Over a whole session log, a step adds its click and a reroute its click and latency. */
  lemma LogGrowth(trace: seq<Effect>, s: Step, i: nat, latencyMs: int, n: nat, settings: map<string, string>)
    ensures Logged(trace + StepEffects(s, i, n, settings)) == Logged(trace) + [Log(CLICK_NEXT, "step_" + s.id, Blank)]
    ensures Logged(trace + RerouteEffects(latencyMs, n, settings)) ==
      Logged(trace) + [Log(CLICK_REROUTE, "", Blank), Log(REROUTE_LATENCY, "reroute", Ms(latencyMs))]
  {
    LoggedAppend(trace, StepEffects(s, i, n, settings));
    StepLogsClick(s, i, n, settings);
    LoggedAppend(trace, RerouteEffects(latencyMs, n, settings));
    RerouteLogsClickThenLatency(latencyMs, n, settings);
  }

  /** Every start latency in the log is at least 1 ms. */
  predicate LatenciesPositive(trace: seq<Effect>) {
    forall i :: 0 <= i < |trace| && trace[i].Log? && trace[i].kind == TTS_START_LATENCY ==>
      trace[i].value.Ms? && trace[i].value.ms >= 1
  }

  lemma StepKeepsLatenciesPositive(trace: seq<Effect>, s: Step, i: nat, n: nat, settings: map<string, string>)
    requires LatenciesPositive(trace)
    ensures LatenciesPositive(trace + StepEffects(s, i, n, settings))
  {
    var e := StepEffects(s, i, n, settings);
    assert e[2].kind == CLICK_NEXT != TTS_START_LATENCY;
  }

  lemma RerouteKeepsLatenciesPositive(trace: seq<Effect>, latencyMs: int, n: nat, settings: map<string, string>)
    requires LatenciesPositive(trace)
    ensures LatenciesPositive(trace + RerouteEffects(latencyMs, n, settings))
  {
    var e := RerouteEffects(latencyMs, n, settings);
    assert e[0].kind == CLICK_REROUTE != TTS_START_LATENCY;
    assert e[1].kind == REROUTE_LATENCY != TTS_START_LATENCY;
  }

  // ---------------------------------------------------------------
  // The step cursor on its own: a reference model for next_step
  // ---------------------------------------------------------------

  /** The cursor after one `next_step` call on `n` steps, and what the call returns. */
  function Advance(idx: nat, n: nat): (r: (nat, Outcome))
    ensures idx < n ==> r.0 == idx + 1
    ensures idx >= n ==> r == (idx, Arrived)
    ensures r.1 == Arrived <==> r.0 >= n
    ensures idx <= n ==> r.0 <= n
  {
    if idx >= n then (idx, Arrived)
    else (idx + 1, if idx + 1 >= n then Arrived else Continue)
  }

  /** The answers of `k` successive `next_step` calls starting at `idx`. */
  function Walk(idx: nat, n: nat, k: nat): (w: seq<Outcome>)
    ensures |w| == k
    decreases k
  {
    if k == 0 then []
    else
      var (next, outcome) := Advance(idx, n);
      [outcome] + Walk(next, n, k - 1)
  }

  /** Call j (0-based) answers "arrived" exactly when it is at or past the last step. */
  lemma {:induction false} WalkOutcomes(idx: nat, n: nat, k: nat)
    ensures |Walk(idx, n, k)| == k
    ensures forall j :: 0 <= j < k ==> (Walk(idx, n, k)[j] == Arrived <==> idx + j + 1 >= n)
    decreases k
  {
    if k > 0 {
      var (next, outcome) := Advance(idx, n);
      WalkOutcomes(next, n, k - 1);
      var w := Walk(idx, n, k);
      assert w == [outcome] + Walk(next, n, k - 1);
      forall j | 0 <= j < k
        ensures w[j] == Arrived <==> idx + j + 1 >= n
      {
        if j > 0 {
          assert w[j] == Walk(next, n, k - 1)[j - 1];
        }
      }
    }
  }

  /** On a fresh route of n > 0 steps, the first n - 1 calls continue and the n-th arrives. */
  lemma FreshRouteArrivesAtLastStep(n: nat)
    requires n > 0
    ensures forall j :: 0 <= j < n - 1 ==> Walk(0, n, n)[j] == Continue
    ensures Walk(0, n, n)[n - 1] == Arrived
  {
    WalkOutcomes(0, n, n);
  }

  /** The cursor's whole observable state. */
  class NavViewModel {
    const steps: seq<Step>
    /** The app's own settings dict, shared with the Settings screen rather than copied. */
    var settings: map<string, string>
    var idx: nat
    /** The perf-counter time of the last click, None before the first. */
    var clickT0: Option<real>
    /** Everything shown, spoken, vibrated and logged so far, in order. */
    var trace: seq<Effect>

    ghost predicate Valid()
      reads this
    {
      idx <= |steps| && LatenciesPositive(trace)
    }

    constructor(steps: seq<Step>, settings: map<string, string>)
      ensures this.steps == steps && this.settings == settings
      ensures idx == 0 && clickT0 == None && trace == []
      ensures Valid()
    {
      this.steps := steps;
      this.settings := settings;
      idx := 0;
      clickT0 := None;
      trace := [];
    }

    /** `next_step` at perf-counter time `now`. */
    method NextStep(now: real) returns (outcome: Outcome)
      requires Valid()
      modifies this
      ensures Valid()
      ensures settings == old(settings)
      ensures (idx, outcome) == Advance(old(idx), |steps|)
      ensures old(idx) >= |steps| ==> clickT0 == old(clickT0) && trace == old(trace)
      ensures old(idx) < |steps| ==> (clickT0 == Some(now) &&
        trace == old(trace) + StepEffects(steps[old(idx)], old(idx), |steps|, settings))
    {
      if idx >= |steps| {
        return Arrived;
      }
      clickT0 := Some(now);
      var step := steps[idx];
      StepKeepsLatenciesPositive(trace, step, idx, |steps|, settings);
      var kind := if step.kind.Some? then step.kind.value else "forward";
      var effects := [ShowText(step.text), ShowProgress(idx + 1, |steps|), Log(CLICK_NEXT, StepLabel(step), Blank),
                      Speak(step.text, StepLabel(step), true), Vibrate(VibratePattern(kind, Strength(settings)))];
      trace := trace + effects;
      idx := idx + 1;
      outcome := if idx >= |steps| then Arrived else Continue;
    }

    /** The speech engine's start callback for a spoken step, at time `now`. */
    method OnTtsStart(eventLabel: string, now: real)
      requires Valid()
      modifies this
      ensures Valid()
      ensures idx == old(idx) && clickT0 == old(clickT0) && settings == old(settings)
      ensures clickT0.Some? && clickT0.value != 0.0 ==>
        trace == old(trace) + [Log(TTS_START_LATENCY, eventLabel, Ms(StartLatencyMs(clickT0.value, now)))]
      ensures !(clickT0.Some? && clickT0.value != 0.0) ==> trace == old(trace)
    {
      if clickT0.Some? && clickT0.value != 0.0 {
        var latency := StartLatencyMs(clickT0.value, now);
        trace := trace + [Log(TTS_START_LATENCY, eventLabel, Ms(latency))];
      }
    }

    /** The speech engine's completion callback: speech lasted from t0 to t1. */
    method OnTtsDone(eventLabel: string, t0: real, t1: real)
      requires Valid()
      modifies this
      ensures Valid()
      ensures idx == old(idx) && clickT0 == old(clickT0) && settings == old(settings)
      ensures trace == old(trace) + [Log(TTS_DONE, eventLabel, Ms(Trunc((t1 - t0) * 1000.0)))]
    {
      trace := trace + [Log(TTS_DONE, eventLabel, Ms(Trunc((t1 - t0) * 1000.0)))];
    }

    /** `reroute`, clicked at `clickAt`, with the simulated computation ending at `doneAt`. */
    method Reroute(clickAt: real, doneAt: real)
      requires Valid()
      modifies this
      ensures Valid()
      ensures idx == 0 && clickT0 == Some(clickAt) && settings == old(settings)
      ensures trace == old(trace) +
        RerouteEffects(Trunc((doneAt - clickAt) * 1000.0), |steps|, settings)
    {
      clickT0 := Some(clickAt);
      var latency := Trunc((doneAt - clickAt) * 1000.0);
      RerouteKeepsLatenciesPositive(trace, latency, |steps|, settings);
      var logged := [Log(CLICK_REROUTE, "", Blank), Log(REROUTE_LATENCY, "reroute", Ms(latency))];
      idx := 0;
      var shown := [ShowProgress(idx, |steps|), ShowText(REROUTE_TEXT), Speak(REROUTE_TEXT, "reroute", false),
                    Vibrate(VibratePattern("forward", Strength(settings)))];
      trace := trace + (logged + shown);
    }
  
    /**
     * The Settings screen's `set_and_log(k, v)`. The view-model holds the
     * same dict, so every later step and reroute vibrates at the new strength.
     */
    method SetAndLog(k: string, v: string)
      requires Valid()
      modifies this
      ensures Valid()
      ensures settings == old(settings)[k := v]
      ensures Strength(settings) == if k == "haptic_strength" then v else Strength(old(settings))
      ensures idx == old(idx) && clickT0 == old(clickT0)
      ensures trace == old(trace) + [Log(SETTINGS_PREFIX + k, "", Text(v))]
    {
      var row := Log(SETTINGS_PREFIX + k, "", Text(v));
      assert row.kind[0] != TTS_START_LATENCY[0];
      settings := settings[k := v];
      trace := trace + [row];
    }
  }
}
