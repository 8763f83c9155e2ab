/** The decay law of the segment trail: how opacity, thickness and colour
    follow from a segment's age and the fade rate. */
module Fade {
  import opened Basics
  import opened TrailSegments

  /** `Age * FadeRate`, the fraction of the fade that has elapsed. */
  function AgeRatio(fadeRate: real, age: nat): real
  {
    age as real * fadeRate
  }

  /** Opacity written to a line of the given age. */
  function OpacityAt(fadeRate: real, age: nat): real
  {
    Max(0.0, 1.0 - AgeRatio(fadeRate, age))
  }

  /** Stroke thickness written to a line of the given age. */
  function ThicknessAt(fadeRate: real, age: nat): real
  {
    Max(1.0, DefaultThickness * (1.0 - AgeRatio(fadeRate, age) * 0.5))
  }

  /** The yellow-to-orange colour for an age ratio below one half. */
  function FadeColor(ratio: real): (c: Rgb)
    ensures c.r == 255 && c.b == 0
    ensures 0 <= c.g <= 255
  {
    Rgb(255, ToByte(255.0 * (1.0 - ratio * 2.0)), 0)
  }

  /** The stroke a line carries after `age` updates: yellow when created,
      repainted on every update whose age ratio is below one half, and
      left untouched by later updates. */
  function StrokeAt(fadeRate: real, age: nat): Rgb
  {
    if age == 0 then Yellow
    else if AgeRatio(fadeRate, age) < 0.5 then FadeColor(AgeRatio(fadeRate, age))
    else StrokeAt(fadeRate, age - 1)
  }

  /** The appearance of a segment agrees with its age. */
  predicate LooksItsAge(fadeRate: real, s: Segment)
  {
    && s.opacity == OpacityAt(fadeRate, s.age)
    && s.thickness == ThicknessAt(fadeRate, s.age)
    && s.stroke == StrokeAt(fadeRate, s.age)
  }

  /** A new segment already looks the way the fade formulas draw age zero,
      whatever the fade rate: opacity 1, thickness 10, and the yellow of
      the colour formula at ratio 0. */
  lemma NewSegmentLooksAgeZero(fadeRate: real, line: LineId, start: Point, end: Point)
    ensures LooksItsAge(fadeRate, NewSegment(line, start, end))
    ensures FadeColor(0.0) == Yellow
  {
  }

  /** Opacity stays within [0, 1] for a non-negative fade rate. */
  lemma OpacityInUnitRange(fadeRate: real, age: nat)
    requires fadeRate >= 0.0
    ensures 0.0 <= OpacityAt(fadeRate, age) <= 1.0
  {
    assert age as real * fadeRate >= 0.0;
  }

  /** Opacity never rises as a segment ages, for a non-negative fade rate. */
  lemma OpacityNonIncreasing(fadeRate: real, a: nat, b: nat)
    requires fadeRate >= 0.0
    requires a <= b
    ensures OpacityAt(fadeRate, b) <= OpacityAt(fadeRate, a)
  {
    RatioMonotone(fadeRate, a, b);
  }

  lemma RatioMonotone(fadeRate: real, a: nat, b: nat)
    requires fadeRate >= 0.0
    requires a <= b
    ensures 0.0 <= AgeRatio(fadeRate, a) <= AgeRatio(fadeRate, b)
  {
    assert (b - a) as real * fadeRate >= 0.0;
    assert AgeRatio(fadeRate, b) - AgeRatio(fadeRate, a) == (b - a) as real * fadeRate;
  }

  /** A segment is faded out exactly once its age ratio reaches 1. */
  lemma FadedIffRatioReachesOne(fadeRate: real, age: nat)
    ensures OpacityAt(fadeRate, age) <= 0.0 <==> AgeRatio(fadeRate, age) >= 1.0
  {
  }

  /** Thickness stays within [1, 10] for a non-negative fade rate. */
  lemma ThicknessInRange(fadeRate: real, age: nat)
    requires fadeRate >= 0.0
    ensures 1.0 <= ThicknessAt(fadeRate, age) <= DefaultThickness
  {
    RatioMonotone(fadeRate, 0, age);
  }

  /** While the ratio is in [0, 1/2) the green channel is the truncation
      of 255 * (1 - 2 * ratio), so no clamping takes place. */
  lemma FadeGreenUnclamped(ratio: real)
    requires 0.0 <= ratio < 0.5
    ensures FadeColor(ratio).g == (255.0 * (1.0 - ratio * 2.0)).Floor
    ensures 0 <= FadeColor(ratio).g <= 255
  {
  }

  lemma FadeGreenMonotone(r1: real, r2: real)
    requires 0.0 <= r1 <= r2 < 0.5
    ensures FadeColor(r2).g <= FadeColor(r1).g
  {
    var v1 := 255.0 * (1.0 - r1 * 2.0);
    var v2 := 255.0 * (1.0 - r2 * 2.0);
    assert v2 <= v1;
    FadeGreenUnclamped(r1);
    FadeGreenUnclamped(r2);
  }

  /** The stroke is always a shade between yellow and red: full red, no
      blue, and a green channel within a byte. */
  lemma {:induction false} StrokeIsYellowToRed(fadeRate: real, age: nat)
    ensures StrokeAt(fadeRate, age).r == 255
    ensures StrokeAt(fadeRate, age).b == 0
    ensures 0 <= StrokeAt(fadeRate, age).g <= 255
  {
    if age > 0 && AgeRatio(fadeRate, age) >= 0.5 {
      StrokeIsYellowToRed(fadeRate, age - 1);
    }
  }

  /** For a non-negative fade rate the green channel only ever decreases
      from one update to the next (yellow towards orange). */
  lemma {:induction false} StrokeGreenNonIncreasing(fadeRate: real, age: nat)
    requires fadeRate >= 0.0
    ensures StrokeAt(fadeRate, age + 1).g <= StrokeAt(fadeRate, age).g
  {
    var next := AgeRatio(fadeRate, age + 1);
    if next < 0.5 {
      RatioMonotone(fadeRate, age, age + 1);
      if age == 0 {
        FadeGreenUnclamped(next);
      } else {
        FadeGreenMonotone(AgeRatio(fadeRate, age), next);
      }
    }
  }

  /** Once the age ratio has reached one half, later updates leave the
      colour as it was (the colour is fixed thereafter). */
  lemma {:induction false} StrokeFrozenPastHalf(fadeRate: real, age: nat, later: nat)
    requires fadeRate >= 0.0
    requires AgeRatio(fadeRate, age) >= 0.5
    requires age <= later
    ensures StrokeAt(fadeRate, later) == StrokeAt(fadeRate, age)
    decreases later - age
  {
    if later > age {
      StrokeFrozenPastHalf(fadeRate, age, later - 1);
      RatioMonotone(fadeRate, age, later);
    }
  }
}
