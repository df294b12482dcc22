/** The bilateral phase-angle comparison behind the body-map figure: which
    side, right (DX) or left (SX), is drawn in the warning colour, and the
    absolute asymmetry handed to the clinical report. */
module BodyMap {
  import opened Calculations

  /** Relative difference, in percent of the right-side phase angle, beyond
      which a side is flagged. */
  const Threshold: real := 3.0

  /** Which sides are drawn red instead of green. */
  datatype Flags = Flags(right: bool, left: bool)

  /** `(dx - sx) / dx * 100`, or 0 when the right phase angle is not positive. */
  function RelativeDifference(dx: real, sx: real): real
  {
    if dx > 0.0 then ((dx - sx) / dx) * 100.0 else 0.0
  }

  function Classify(dx: real, sx: real): (f: Flags)
    ensures !(f.right && f.left)
    ensures dx <= 0.0 ==> !f.right && !f.left
    ensures -Threshold <= RelativeDifference(dx, sx) <= Threshold ==> !f.right && !f.left
  {
    var diff := RelativeDifference(dx, sx);
    if diff > Threshold then Flags(false, true)
    else if diff < -Threshold then Flags(true, false)
    else Flags(false, false)
  }

  /** `(a / d) * 100 > 3` exactly when `a > 0.03 * d`, for positive `d`. */
  lemma PercentAbove(a: real, d: real)
    requires d > 0.0
    ensures (a / d) * 100.0 > Threshold <==> a > 0.03 * d
    ensures (a / d) * 100.0 < -Threshold <==> a < -0.03 * d
  {
    var q := a / d;
    assert q * d == a;
    if q * 100.0 > Threshold {
      assert q > 0.03;
      assert q * d > 0.03 * d;
    }
    if a > 0.03 * d {
      assert q * d > 0.03 * d;
    }
    if q * 100.0 < -Threshold {
      assert q < -0.03;
      assert q * d < -0.03 * d;
    }
    if a < -0.03 * d {
      assert q * d < -0.03 * d;
    }
  }

  /** For a positive right phase angle the relative threshold is a band of
      ±3 % around it: the left side is flagged exactly when its phase angle is
      below 97 % of the right one, and the right side exactly when the left
      exceeds 103 % of it. */
  lemma ClassifyAsBand(dx: real, sx: real)
    requires dx > 0.0
    ensures Classify(dx, sx).left <==> sx < 0.97 * dx
    ensures Classify(dx, sx).right <==> sx > 1.03 * dx
  {
    PercentAbove(dx - sx, dx);
  }

  /** The absolute asymmetry reported to the clinical narrative. */
  function Asymmetry(dx: real, sx: real): (a: real)
    ensures a >= 0.0
    ensures a == 0.0 <==> dx == sx
    ensures a == dx - sx || a == sx - dx
  {
    if dx - sx >= 0.0 then dx - sx else sx - dx
  }

  /** The asymmetry does not depend on which side is called right. */
  lemma AsymmetrySymmetric(dx: real, sx: real)
    ensures Asymmetry(dx, sx) == Asymmetry(sx, dx)
  {
  }

  /** A flagged side always has a non-zero asymmetry of more than 3 % of the
      right phase angle. */
  lemma FlaggedIsAsymmetric(dx: real, sx: real)
    requires Classify(dx, sx).left || Classify(dx, sx).right
    ensures dx > 0.0 && Asymmetry(dx, sx) > 0.03 * dx
  {
    ClassifyAsBand(dx, sx);
  }

  /** The figure for two engine records: the right side's record first. */
  function BilateralFlags(right: Metrics, left: Metrics): Flags
  {
    Classify(PhaseAngle(right), PhaseAngle(left))
  }

  /** A degraded right-side measurement flags nothing; a degraded left side
      beside a positive right phase angle flags the left. The second case is
      a fact about the decision alone: in the app a degraded left record
      already fails when its resistance is plotted (modules/biva_app.py:217),
      before the figure is drawn. */
  lemma DegradedSides(right: Metrics, left: Metrics)
    ensures right.Sentinel? ==> BilateralFlags(right, left) == Flags(false, false)
    ensures left.Sentinel? && PhaseAngle(right) > 0.0 ==> BilateralFlags(right, left) == Flags(false, true)
  {
    if left.Sentinel? && PhaseAngle(right) > 0.0 {
      ClassifyAsBand(PhaseAngle(right), 0.0);
    }
  }

  /** An illustration: right 6.0, left 5.5 degrees flags the left side,
      with an asymmetry of 0.5 degrees. */
  lemma WorkedExample()
    ensures Classify(6.0, 5.5) == Flags(false, true)
    ensures Asymmetry(6.0, 5.5) == 0.5
  {
    ClassifyAsBand(6.0, 5.5);
  }
}
