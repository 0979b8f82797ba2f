/** The adaptive font-scale search of the frame loop. Scales are counted in hundredths
    (1.0 is 100); `measure(text, scale)` stands for the rendered width that
    `cv2.getTextSize` reports, assumed not to shrink as the scale grows. */
module CaptionSizer {

  /** The starting scale 1.0, the coarse step 0.1, the fine step 0.01 and the floor 0.1. */
  const InitialScale: nat := 100
  const CoarseStep: nat := 10
  const FineStep: nat := 1
  const FloorScale: nat := 10

  /** `int(width * 0.20)`: one fifth of the frame width, rounded down. */
  function TargetWidth(frameWidth: nat): (w: nat)
    ensures 5 * w <= frameWidth < 5 * w + 5
  {
    frameWidth / 5
  }

  ghost predicate Monotone(measure: (string, nat) -> nat) {
    forall text, a, b :: a <= b ==> measure(text, a) <= measure(text, b)
  }

  /** Where the coarse phase stops: the first scale 1.0, 1.1, 1.2, ... whose width
      reaches the target. */
  ghost predicate CoarseStop(measure: (string, nat) -> nat, text: string, target: nat, c: nat) {
    && c >= InitialScale && (c - InitialScale) % CoarseStep == 0
    && measure(text, c) >= target
    && (c == InitialScale || measure(text, c - CoarseStep) < target)
  }

  /** Where the fine phase stops when started at `c`: the first scale c, c - 0.01, ...
      whose width is within the target or that has reached the floor. */
  ghost predicate FineStop(measure: (string, nat) -> nat, text: string, target: nat, c: nat, s: nat) {
    && s <= c
    && (measure(text, s) <= target || s <= FloorScale)
    && TooWide(measure, text, target, s, c)
  }

  /** Every scale in (lo, hi] is wider than the target and above the floor. */
  ghost predicate TooWide(measure: (string, nat) -> nat, text: string, target: nat, lo: nat, hi: nat) {
    forall k :: lo < k <= hi ==> measure(text, k) > target && k > FloorScale
  }

  /** The result of the two-phase search. */
  ghost predicate Fitted(measure: (string, nat) -> nat, text: string, target: nat, s: nat) {
    exists c :: CoarseStop(measure, text, target, c) && FineStop(measure, text, target, c, s)
  }

  /** `while text_width < target_width: font_scale += 0.1`. The loop has no bound in
      the program; it ends because some scale `ceiling` is wide enough. */
  method Grow(measure: (string, nat) -> nat, text: string, target: nat, ghost ceiling: nat)
    returns (scale: nat, width: nat)
    requires Monotone(measure) && measure(text, ceiling) >= target
    ensures width == measure(text, scale)
    ensures CoarseStop(measure, text, target, scale)
  {
    scale := InitialScale;
    width := measure(text, scale);
    while width < target
      invariant scale >= InitialScale && (scale - InitialScale) % CoarseStep == 0
      invariant width == measure(text, scale)
      invariant scale == InitialScale || measure(text, scale - CoarseStep) < target
      decreases ceiling - scale
    {
      scale := scale + CoarseStep;
      width := measure(text, scale);
    }
  }

  /** `while text_width > target_width and font_scale > 0.1: font_scale -= 0.01`. */
  method Shrink(measure: (string, nat) -> nat, text: string, target: nat, start: nat, startWidth: nat)
    returns (scale: nat, width: nat)
    requires startWidth == measure(text, start)
    ensures width == measure(text, scale)
    ensures FineStop(measure, text, target, start, scale)
  {
    scale, width := start, startWidth;
    while width > target && scale > FloorScale
      invariant scale <= start
      invariant width == measure(text, scale)
      invariant TooWide(measure, text, target, scale, start)
      decreases scale
    {
      scale := scale - FineStep;
      width := measure(text, scale);
    }
  }

  /** Lines 109-118: the coarse phase, then the fine phase. */
  method FitScale(measure: (string, nat) -> nat, text: string, target: nat, ghost ceiling: nat)
    returns (scale: nat)
    requires Monotone(measure) && measure(text, ceiling) >= target
    ensures Fitted(measure, text, target, scale)
  {
    var coarse, width := Grow(measure, text, target, ceiling);
    scale, width := Shrink(measure, text, target, coarse, width);
  }

  /** What the search guarantees: the scale is at least the floor; its width is within
      the target unless the floor was reached; and when the width is strictly below the
      target, one fine step up would exceed it. */
  lemma FittedMeaning(measure: (string, nat) -> nat, text: string, target: nat, s: nat)
    requires Fitted(measure, text, target, s)
    ensures FloorScale <= s
    ensures measure(text, s) <= target || s == FloorScale
    ensures measure(text, s) < target ==> measure(text, s + FineStep) > target
  {
    var c :| CoarseStop(measure, text, target, c) && FineStop(measure, text, target, c, s);
    if s < c {
      assert measure(text, s + FineStep) > target && s + FineStep > FloorScale;
    }
  }

  /** When the width at 1.0 already reaches the target, the coarse phase stays at 1.0. */
  lemma CoarseStaysAtOne(measure: (string, nat) -> nat, text: string, target: nat, c: nat)
    requires Monotone(measure) && measure(text, InitialScale) >= target
    requires CoarseStop(measure, text, target, c)
    ensures c == InitialScale
  {
  }

  /** The coarse phase stops at the only lattice point where it can. */
  lemma CoarseStopUnique(measure: (string, nat) -> nat, text: string, target: nat, c1: nat, c2: nat)
    requires Monotone(measure)
    requires CoarseStop(measure, text, target, c1) && CoarseStop(measure, text, target, c2)
    ensures c1 == c2
  {
  }

  /** The search is deterministic: a text and a target fix the scale. */
  lemma FittedUnique(measure: (string, nat) -> nat, text: string, target: nat, s1: nat, s2: nat)
    requires Monotone(measure)
    requires Fitted(measure, text, target, s1) && Fitted(measure, text, target, s2)
    ensures s1 == s2
  {
    var c1 :| CoarseStop(measure, text, target, c1) && FineStop(measure, text, target, c1, s1);
    var c2 :| CoarseStop(measure, text, target, c2) && FineStop(measure, text, target, c2, s2);
    CoarseStopUnique(measure, text, target, c1, c2);
    assert s2 <= s1 by {
      assert s1 < s2 <= c1 ==> measure(text, s2) > target && s2 > FloorScale;
    }
    assert s1 <= s2 by {
      assert s2 < s1 <= c1 ==> measure(text, s1) > target && s1 > FloorScale;
    }
  }
}
