/**
 * Directional haptic patterns: a base pattern per direction, in
 * milliseconds, scaled by the user's strength setting. Playing the pattern
 * on the device is not part of this module.
 */
module Haptics {
  import opened PyNum

  /** Base vibration patterns, in ms, per direction kind. */
  const BASE: map<string, seq<int>> :=
    map["forward" := [200], "left" := [120, 100, 120], "right" := [300, 120, 300], "arrive" := [600]]

  /** Pattern used for a kind that has no entry in BASE. */
  const DEFAULT_PATTERN: seq<int> := [200]

  lemma BaseTable()
    ensures BASE.Keys == {"forward", "left", "right", "arrive"}
    ensures BASE["forward"] == [200] && BASE["arrive"] == [600]
    ensures BASE["left"] == [120, 100, 120] && BASE["right"] == [300, 120, 300]
  {
  }

  /** Every duration of every base pattern is positive. */
  predicate Positive(p: seq<int>) {
    forall i :: 0 <= i < |p| ==> p[i] > 0
  }

  /** The base pattern for a kind, falling back to the default. */
  function BasePattern(kind: string): (p: seq<int>)
    ensures |p| > 0 && Positive(p)
    ensures kind !in BASE ==> p == DEFAULT_PATTERN
    ensures kind in BASE ==> p == BASE[kind]
  {
    if kind in BASE then BASE[kind] else DEFAULT_PATTERN
  }

  /** Scaling factor for a strength setting; unknown settings scale by 1. */
  function StrengthFactor(strength: string): (k: real)
    ensures 3.0 / 5.0 <= k <= 3.0 / 2.0
    ensures strength == "light" <==> k == 3.0 / 5.0
    ensures strength == "strong" <==> k == 3.0 / 2.0
    ensures strength != "light" && strength != "strong" <==> k == 1.0
  {
    if strength == "light" then 3.0 / 5.0
    else if strength == "normal" then 1.0
    else if strength == "strong" then 3.0 / 2.0
    else 1.0
  }

  /** Each duration multiplied by `k` and truncated toward zero, as `int(x * k)`. */
  function Scale(p: seq<int>, k: real): (r: seq<int>)
    requires Positive(p) && k > 0.0
    ensures |r| == |p|
    ensures forall i :: 0 <= i < |r| ==> 0 <= r[i] && r[i] as real <= p[i] as real * k < r[i] as real + 1.0
  {
    var r := seq(|p|, i requires 0 <= i < |p| => Trunc(p[i] as real * k));
    forall i | 0 <= i < |r|
      ensures 0 <= r[i] && r[i] as real <= p[i] as real * k < r[i] as real + 1.0
    {
      PositiveProduct(p[i] as real, k);
      assert r[i] == Trunc(p[i] as real * k);
    }
    r
  }

  lemma PositiveProduct(x: real, k: real)
    requires x > 0.0 && k > 0.0
    ensures x * k > 0.0
  {
  }

  /** The durations `vibrate_pattern(kind, strength)` hands to the vibrator. */
  function VibratePattern(kind: string, strength: string): (r: seq<int>)
    ensures |r| == |BasePattern(kind)|
    ensures forall i :: 0 <= i < |r| ==>
      r[i] as real <= BasePattern(kind)[i] as real * StrengthFactor(strength) < r[i] as real + 1.0
    ensures forall i :: 0 <= i < |r| ==> r[i] > 0
  {
    var p, k := BasePattern(kind), StrengthFactor(strength);
    var r := Scale(p, k);
    assert forall i :: 0 <= i < |r| ==> r[i] > 0 by {
      forall i | 0 <= i < |r| ensures r[i] > 0 {
        assert p[i] as real * k >= 3.0 / 5.0;
      }
    }
    r
  }

  /** Scaling by a whole factor loses nothing to truncation. */
  lemma ScaleByOne(p: seq<int>)
    requires Positive(p)
    ensures Scale(p, 1.0) == p
  {
  }

  /** "normal", and any unrecognised strength, plays the base pattern unchanged. */
  lemma NormalIsBase(kind: string, strength: string)
    requires strength != "light" && strength != "strong"
    ensures VibratePattern(kind, strength) == BasePattern(kind)
  {
    ScaleByOne(BasePattern(kind));
  }

  /** A larger factor never shortens any pulse. */
  lemma ScaleMonotone(p: seq<int>, k1: real, k2: real)
    requires Positive(p) && 0.0 < k1 <= k2
    ensures forall i :: 0 <= i < |p| ==> Scale(p, k1)[i] <= Scale(p, k2)[i]
  {
    forall i | 0 <= i < |p|
      ensures Scale(p, k1)[i] <= Scale(p, k2)[i]
    {
      var x := p[i] as real;
      assert x * k1 <= x * k2;
      TruncMonotone(x * k1, x * k2);
    }
  }

  /** Pulse by pulse, light <= normal <= strong. */
  lemma StrengthOrdered(kind: string)
    ensures var light, normal, strong :=
      VibratePattern(kind, "light"), VibratePattern(kind, "normal"), VibratePattern(kind, "strong");
      |light| == |normal| == |strong| &&
      forall i :: 0 <= i < |normal| ==> light[i] <= normal[i] <= strong[i]
  {
    var p := BasePattern(kind);
    ScaleMonotone(p, 3.0 / 5.0, 1.0);
    ScaleMonotone(p, 1.0, 3.0 / 2.0);
  }

  /** An unknown direction vibrates like "forward". */
  lemma UnknownKindIsForward(kind: string, strength: string)
    requires kind !in BASE
    ensures VibratePattern(kind, strength) == VibratePattern("forward", strength)
  {
  }

  /** A "left" turn at light strength: 120, 100, 120 scaled by 0.6. */
  lemma LightLeft()
    ensures VibratePattern("left", "light") == [72, 60, 72]
  {
    var r := VibratePattern("left", "light");
    assert BasePattern("left") == [120, 100, 120];
    assert 72.0 <= 120.0 * (3.0 / 5.0) < 73.0;
    assert 60.0 <= 100.0 * (3.0 / 5.0) < 61.0;
  }

  /** An "arrive" pulse at strong strength lasts 900 ms. */
  lemma StrongArrive()
    ensures VibratePattern("arrive", "strong") == [900]
  {
    assert BasePattern("arrive") == [600];
  }
}
