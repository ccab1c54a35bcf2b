/** The per-nutrient penalty primitive (`calcPenalty`): a linear shortfall ramp
    below `min`, a free zone from `min` to the midpoint of `[min, max]`, and an
    unclamped linear excess ramp from the midpoint on. `max == 0` means the
    nutrient has no upper bound. */
module Penalty {

  /** Boundary between the free zone and the excess ramp. */
  function Midpoint(min: real, max: real): real
  {
    min + (max - min) / 2.0
  }

  /** The inputs for which the computation divides by a non-zero number:
      the shortfall ramp divides by `min`, the excess ramp by
      `max - Midpoint(min, max)`, which is zero exactly when `max == min`. */
  predicate Defined(amount: real, min: real, max: real)
  {
    && (amount < min ==> min != 0.0)
    && (min <= amount && max != 0.0 ==> max != min)
  }

  /** A target range as the target table uses them: a positive minimum and
      either no maximum or one above the minimum. */
  predicate ValidRange(min: real, max: real)
  {
    min > 0.0 && (max == 0.0 || max > min)
  }

  /** The zone where no penalty is due: from the minimum up to and including the
      midpoint (at the midpoint itself the excess ramp starts at 0). */
  predicate InSafeZone(amount: real, min: real, max: real)
  {
    min <= amount && (max == 0.0 || amount <= Midpoint(min, max))
  }

  /** Facts about dividing by a positive real that the solver does not find alone. */
  lemma DivByPositive(x: real, y: real)
    requires y > 0.0
    ensures x / y > 0.0 <==> x > 0.0
    ensures x / y == 0.0 <==> x == 0.0
    ensures x / y < 1.0 <==> x < y
    ensures x / y > 1.0 <==> x > y
  {
    DivSign(x, y);
    DivBelowOne(x, y);
    DivAboveOne(x, y);
  }

  lemma DivSign(x: real, y: real)
    requires y > 0.0
    ensures x / y > 0.0 <==> x > 0.0
    ensures x / y == 0.0 <==> x == 0.0
  {
    var q := x / y;
    assert q * y == x;
    if q > 0.0 { assert q * y > 0.0; }
    if q < 0.0 { assert q * y < 0.0; }
  }

  lemma DivBelowOne(x: real, y: real)
    requires y > 0.0
    ensures x / y < 1.0 <==> x < y
  {
    var q := x / y;
    assert q * y == x;
    if q < 1.0 {
      assert y - x == (1.0 - q) * y;
      assert (1.0 - q) * y > 0.0;
    } else {
      assert x - y == (q - 1.0) * y;
      assert (q - 1.0) * y >= 0.0;
    }
  }

  lemma DivAboveOne(x: real, y: real)
    requires y > 0.0
    ensures x / y > 1.0 <==> x > y
  {
    var q := x / y;
    assert q * y == x;
    if q > 1.0 {
      assert x - y == (q - 1.0) * y;
      assert (q - 1.0) * y > 0.0;
    } else {
      assert y - x == (1.0 - q) * y;
      assert (1.0 - q) * y >= 0.0;
    }
  }

  /** Dividing by a positive real preserves strict order. */
  lemma DivMonotone(a: real, b: real, y: real)
    requires y > 0.0 && a < b
    ensures a / y < b / y
  {
    DivByPositive(b - a, y);
    assert b / y - a / y == (b - a) / y;
  }

  function CalcPenalty(amount: real, min: real, max: real): (p: real)
    requires Defined(amount, min, max)
    // below the minimum the penalty is positive, and under 100 exactly when some is present
    ensures amount < min && min > 0.0 ==> p > 0.0 && (p < 100.0 <==> amount > 0.0)
    // with no maximum, meeting the minimum is enough
    ensures min <= amount && max == 0.0 ==> p == 0.0
    // between the minimum and the midpoint nothing is charged
    ensures min <= amount && max != 0.0 && amount < Midpoint(min, max) ==> p == 0.0
    // for a valid range the penalty is never negative and vanishes exactly on the safe zone
    ensures ValidRange(min, max) ==> p >= 0.0 && (p == 0.0 <==> InSafeZone(amount, min, max))
  {
    if amount < min then
      if min > 0.0 then DivByPositive(min - amount, min); (min - amount) / min * 100.0
      else (min - amount) / min * 100.0
    else if max != 0.0 then
      var mid := Midpoint(min, max);
      if amount < mid then 0.0
      else if max > min then DivByPositive(amount - mid, max - mid); (amount - mid) / (max - mid) * 100.0
      else (amount - mid) / (max - mid) * 100.0
    else
      0.0
  }

  /** Where the two ramps are anchored: 100 with none of the nutrient, 0 at the
      minimum, 0 at the midpoint, 100 at the maximum. */
  lemma PenaltyAnchors(min: real, max: real)
    requires ValidRange(min, max)
    ensures CalcPenalty(0.0, min, max) == 100.0
    ensures CalcPenalty(min, min, max) == 0.0
    ensures max != 0.0 ==> CalcPenalty(max, min, max) == 100.0
  {
    if max != 0.0 {
      var mid := Midpoint(min, max);
      assert (max - mid) / (max - mid) == 1.0;
    }
  }

  /** The excess ramp is not clamped: past the maximum the penalty exceeds 100
      and keeps growing with the amount. */
  lemma PenaltyUnclamped(a: real, b: real, min: real, max: real)
    requires ValidRange(min, max) && max != 0.0
    requires max < a < b
    ensures 100.0 < CalcPenalty(a, min, max) < CalcPenalty(b, min, max)
  {
    var mid := Midpoint(min, max);
    DivByPositive(a - mid, max - mid);
    DivMonotone(a - mid, b - mid, max - mid);
  }

  /** Below the minimum, more of the nutrient always means less penalty. */
  lemma ShortfallDecreasing(a: real, b: real, min: real, max: real)
    requires ValidRange(min, max)
    requires a < b < min
    ensures CalcPenalty(a, min, max) > CalcPenalty(b, min, max)
  {
    DivMonotone(min - b, min - a, min);
  }

  /** With no maximum, any amount that meets the minimum is penalty free. */
  lemma NoMaximumSaturates(amount: real, min: real)
    requires min > 0.0 && min <= amount
    ensures CalcPenalty(amount, min, 0.0) == 0.0
  {
  }

  /** The worked shape for the range [10, 30], whose midpoint is 20. */
  lemma PenaltyShape()
    ensures CalcPenalty(5.0, 10.0, 30.0) == 50.0
    ensures CalcPenalty(10.0, 10.0, 30.0) == 0.0
    ensures CalcPenalty(20.0, 10.0, 30.0) == 0.0
    ensures CalcPenalty(25.0, 10.0, 30.0) == 50.0
    ensures CalcPenalty(30.0, 10.0, 30.0) == 100.0
    ensures CalcPenalty(40.0, 10.0, 30.0) == 200.0
  {
  }
}
