/** The body-composition engine: from resistance, reactance, height, weight,
    age and sex to the derived bioimpedance metrics. All arithmetic is over
    exact reals, and the record holds the values before Python's final
    rounding; the arctangent in degrees is a parameter. */
module Calculations {
  import opened Numbers
  import opened Cells

  /** Coefficients of the sex-specific regressions for total body water,
      extracellular water and fat-free mass. */
  datatype Coefficients = Coefficients(
    tbwBase: real, tbwPerH2Rz: real, tbwPerKg: real,
    ecwBase: real, ecwPerH2Rz: real, ecwPerKg: real,
    ffmBase: real, ffmPerH2Rz: real, ffmPerKg: real, ffmPerOhm: real)

  const MaleCoefficients := Coefficients(1.2, 0.45, 0.18, -2.5, 0.065, 0.177, -10.68, 0.65, 0.26, 0.02)
  const FemaleCoefficients := Coefficients(3.75, 0.45, 0.11, -1.8, 0.065, 0.150, -9.53, 0.69, 0.17, 0.02)

  /** The physiological band for ECW as a fraction of TBW, and the values an
      out-of-band ECW is reset to. */
  const EcwMinFraction: real := 0.30
  const EcwLowReset: real := 0.35
  const EcwMaxFraction: real := 0.55
  const EcwHighReset: real := 0.50

  /** Fat-free mass never exceeds this fraction of body weight. */
  const FfmMaxFraction: real := 0.98

  /** Extra skeletal muscle mass the male regression adds. */
  const SmmMaleOffset: real := 3.825

  /** The engine's output. `Sentinel` is the all-zero record returned for a
      non-positive resistance, height or weight. */
  datatype Metrics =
    | Sentinel
    | Full(rz: real, xc: real, pha: real, bmi: real,
           ffmKg: real, ffmPerc: real, fmKg: real, fmPerc: real,
           bcmKg: real, smmKg: real, tbwL: real, tbwPerc: real,
           ecwL: real, icwL: real, bmrKcal: int)

  /** Only the exact string "M" selects the male equations. */
  predicate IsMale(gender: string)
  {
    gender == "M"
  }

  function CoefficientsFor(gender: string): Coefficients
  {
    if IsMale(gender) then MaleCoefficients else FemaleCoefficients
  }

  /** The impedance index height²/Rz, with the height in centimetres. */
  function H2Rz(heightCm: real, rz: real): (h: real)
    requires rz > 0.0
    ensures h * rz == heightCm * heightCm
  {
    heightCm * heightCm / rz
  }

  /** The ECW safety clamp, applied only when TBW is positive. */
  function ClampExtracellular(tbw: real, ecw: real): (r: real)
    ensures tbw > 0.0 ==> EcwMinFraction * tbw <= r <= EcwMaxFraction * tbw
    ensures tbw > 0.0 && ecw < EcwMinFraction * tbw ==> r == EcwLowReset * tbw
    ensures tbw > 0.0 && ecw > EcwMaxFraction * tbw ==> r == EcwHighReset * tbw
    ensures tbw <= 0.0 || EcwMinFraction * tbw <= ecw <= EcwMaxFraction * tbw ==> r == ecw
  {
    if tbw > 0.0 then
      var low := if ecw < tbw * EcwMinFraction then tbw * EcwLowReset else ecw;
      if low > tbw * EcwMaxFraction then tbw * EcwHighReset else low
    else ecw
  }

  /** The FFM ceiling at 98 % of body weight. */
  function CapFatFree(ffm: real, weightKg: real): (r: real)
    ensures r <= FfmMaxFraction * weightKg
    ensures ffm <= FfmMaxFraction * weightKg ==> r == ffm
    ensures ffm > FfmMaxFraction * weightKg ==> r == FfmMaxFraction * weightKg
  {
    if ffm > weightKg * FfmMaxFraction then weightKg * FfmMaxFraction else ffm
  }

  /** Fat mass as the remainder of the weight, floored at zero. Once FFM is
      capped the floor is never reached: FM is at least 2 % of the weight. */
  function FatMass(weightKg: real, ffm: real): (fm: real)
    requires weightKg > 0.0 && ffm <= FfmMaxFraction * weightKg
    ensures fm == weightKg - ffm
    ensures fm >= (1.0 - FfmMaxFraction) * weightKg
  {
    var fm := weightKg - ffm;
    if fm < 0.0 then 0.0 else fm
  }

  /** `100 * part / whole` */
  function Percent(part: real, whole: real): real
    requires whole > 0.0
  {
    (part / whole) * 100.0
  }

  /** Two masses that make up the whole weight have percentages summing to 100. */
  lemma PercentagesSum(a: real, b: real, weightKg: real)
    requires weightKg > 0.0 && a + b == weightKg
    ensures Percent(a, weightKg) + Percent(b, weightKg) == 100.0
  {
    assert a / weightKg + b / weightKg == (a + b) / weightKg;
  }

  /** `bmi` times the squared height in metres is the weight. */
  predicate IndexInMetres(bmi: real, heightCm: real, weightKg: real)
  {
    bmi * ((heightCm / 100.0) * (heightCm / 100.0)) == weightKg
  }

  /** Body-mass index, with the height converted to metres. */
  function BodyMassIndex(heightCm: real, weightKg: real): (bmi: real)
    requires heightCm > 0.0
    ensures IndexInMetres(bmi, heightCm, weightKg)
  {
    var hm := heightCm / 100.0;
    DivideThenMultiply(weightKg, hm);
    weightKg / (hm * hm)
  }

  function TotalWater(c: Coefficients, h2rz: real, weightKg: real): real
  {
    c.tbwBase + c.tbwPerH2Rz * h2rz + c.tbwPerKg * weightKg
  }

  /** Extracellular water as the regression gives it, before the clamp. */
  function RawExtracellular(c: Coefficients, h2rz: real, weightKg: real): real
  {
    c.ecwPerH2Rz * h2rz + c.ecwPerKg * weightKg + c.ecwBase
  }

  /** Fat-free mass as the regression gives it, before the ceiling. */
  function RawFatFree(c: Coefficients, h2rz: real, weightKg: real, rz: real): real
  {
    c.ffmBase + c.ffmPerH2Rz * h2rz + c.ffmPerKg * weightKg + c.ffmPerOhm * rz
  }

  function BodyCellMass(ffm: real, pha: real): real
  {
    ffm * (0.50 + 0.02 * (pha - 5.0))
  }

  /** Basal metabolic rate, truncated toward zero like Python's `int()`. */
  function BasalMetabolicRate(ffm: real): int
  {
    Trunc(500.0 + 22.0 * ffm)
  }

  function SkeletalMuscle(h2rz: real, gender: string, age: int): real
  {
    var sex := if IsMale(gender) then 1.0 else 0.0;
    0.401 * h2rz + SmmMaleOffset * sex - 0.071 * (age as real) + 5.102
  }

  /** The engine. `atanDegrees` stands for `math.degrees(math.atan(·))`. */
  function Compute(atanDegrees: real -> real, rz: real, xc: real, heightCm: real,
                   weightKg: real, age: int, gender: string): (m: Metrics)
    ensures m.Sentinel? <==> rz <= 0.0 || heightCm <= 0.0 || weightKg <= 0.0
    ensures m.Full? ==> m.rz == rz && m.xc == xc && m.pha == atanDegrees(xc / rz)
    ensures m.Full? ==> Consistent(m, weightKg)
  {
    if rz <= 0.0 || heightCm <= 0.0 || weightKg <= 0.0 then Sentinel
    else
      var pha := if rz != 0.0 then atanDegrees(xc / rz) else 0.0;
      var h2rz := H2Rz(heightCm, rz);
      var c := CoefficientsFor(gender);
      var tbw := TotalWater(c, h2rz, weightKg);
      var ecw := ClampExtracellular(tbw, RawExtracellular(c, h2rz, weightKg));
      var ffm := CapFatFree(RawFatFree(c, h2rz, weightKg, rz), weightKg);
      var fm := FatMass(weightKg, ffm);
      PercentagesSum(fm, ffm, weightKg);
      Full(rz, xc, pha, BodyMassIndex(heightCm, weightKg),
           ffm, Percent(ffm, weightKg), fm, Percent(fm, weightKg),
           BodyCellMass(ffm, pha), SkeletalMuscle(h2rz, gender, age),
           tbw, Percent(tbw, weightKg), ecw, tbw - ecw, BasalMetabolicRate(ffm))
  }

  /** The regressions of a full record, with the published coefficients
      written out: H2_Rz uses the height in centimetres, and exactly "M"
      selects the male equations for TBW, ECW, FFM and SMM. */
  lemma Regressions(atanDegrees: real -> real, rz: real, xc: real, heightCm: real,
                    weightKg: real, age: int, gender: string)
    requires rz > 0.0 && heightCm > 0.0 && weightKg > 0.0
    ensures var m := Compute(atanDegrees, rz, xc, heightCm, weightKg, age, gender);
      var h2 := heightCm * heightCm / rz;
      && m.Full?
      && m.tbwL == (if gender == "M" then 1.2 + 0.45 * h2 + 0.18 * weightKg
                    else 3.75 + 0.45 * h2 + 0.11 * weightKg)
      && m.ecwL == ClampExtracellular(m.tbwL, if gender == "M" then 0.065 * h2 + 0.177 * weightKg - 2.5
                                             else 0.065 * h2 + 0.150 * weightKg - 1.8)
      && m.ffmKg == CapFatFree(if gender == "M" then -10.68 + 0.65 * h2 + 0.26 * weightKg + 0.02 * rz
                               else -9.53 + 0.69 * h2 + 0.17 * weightKg + 0.02 * rz, weightKg)
      && m.smmKg == 0.401 * h2 + (if gender == "M" then 3.825 else 0.0) - 0.071 * (age as real) + 5.102
      && m.tbwPerc == (m.tbwL / weightKg) * 100.0
      && m.ffmPerc == (m.ffmKg / weightKg) * 100.0
      && m.fmPerc == (m.fmKg / weightKg) * 100.0
  {
  }

  /** The record's BMI uses the height in metres. */
  lemma BmiInMetres(atanDegrees: real -> real, rz: real, xc: real, heightCm: real,
                    weightKg: real, age: int, gender: string)
    requires rz > 0.0 && heightCm > 0.0 && weightKg > 0.0
    ensures var m := Compute(atanDegrees, rz, xc, heightCm, weightKg, age, gender);
      m.Full? && m.bmi == BodyMassIndex(heightCm, weightKg) && IndexInMetres(m.bmi, heightCm, weightKg)
  {
  }


  /** The internal consistency a full record keeps before rounding. */
  ghost predicate Consistent(m: Metrics, weightKg: real)
    requires m.Full?
  {
    && (m.tbwL > 0.0 ==> EcwMinFraction * m.tbwL <= m.ecwL <= EcwMaxFraction * m.tbwL)
    && m.icwL == m.tbwL - m.ecwL
    && m.fmKg + m.ffmKg == weightKg
    && m.ffmKg <= FfmMaxFraction * weightKg
    && m.fmKg >= (1.0 - FfmMaxFraction) * weightKg
    && m.fmPerc + m.ffmPerc == 100.0
  }

  /** The keys of the degraded-input record. */
  const SentinelKeys: set<string> := {"PhA", "TBW_L", "ECW_L", "ICW_L", "BCM_kg", "FM_perc", "FFM_kg"}

  /** The keys of a full record. */
  const FullKeys: set<string> := {"Rz", "Xc", "PhA", "BMI", "FFM_kg", "FFM_perc", "FM_kg", "FM_perc",
    "BCM_kg", "SMM_kg", "TBW_L", "TBW_perc", "ECW_L", "ICW_L", "BMR_kcal"}

  /** The record as the Python dictionary the engine returns. */
  function AsRow(m: Metrics): (r: map<string, Value>)
    ensures m.Sentinel? ==> r.Keys == SentinelKeys && forall k | k in r :: r[k] == Num(0.0)
    ensures m.Full? ==> r.Keys == FullKeys
    ensures m.Full? ==> r["Rz"] == Num(m.rz) && r["Xc"] == Num(m.xc) && r["BMR_kcal"] == Num(m.bmrKcal as real)
  {
    match m
    case Sentinel =>
      map["PhA" := Num(0.0), "TBW_L" := Num(0.0), "ECW_L" := Num(0.0), "ICW_L" := Num(0.0),
          "BCM_kg" := Num(0.0), "FM_perc" := Num(0.0), "FFM_kg" := Num(0.0)]
    case Full(rz, xc, pha, bmi, ffmKg, ffmPerc, fmKg, fmPerc, bcmKg, smmKg, tbwL, tbwPerc, ecwL, icwL, bmrKcal) =>
      map["Rz" := Num(rz), "Xc" := Num(xc), "PhA" := Num(pha), "BMI" := Num(bmi),
          "FFM_kg" := Num(ffmKg), "FFM_perc" := Num(ffmPerc), "FM_kg" := Num(fmKg), "FM_perc" := Num(fmPerc),
          "BCM_kg" := Num(bcmKg), "SMM_kg" := Num(smmKg), "TBW_L" := Num(tbwL), "TBW_perc" := Num(tbwPerc),
          "ECW_L" := Num(ecwL), "ICW_L" := Num(icwL), "BMR_kcal" := Num(bmrKcal as real)]
  }

  /** A full record stores each of its fields under its key. */
  lemma FullRecordValues(m: Metrics)
    requires m.Full?
    ensures var row := AsRow(m);
      "PhA" in row && row["PhA"] == Num(m.pha) && "FM_perc" in row && row["FM_perc"] == Num(m.fmPerc) &&
      "FFM_kg" in row && row["FFM_kg"] == Num(m.ffmKg) && "SMM_kg" in row && row["SMM_kg"] == Num(m.smmKg) &&
      "BCM_kg" in row && row["BCM_kg"] == Num(m.bcmKg) && "TBW_L" in row && row["TBW_L"] == Num(m.tbwL) &&
      "ECW_L" in row && row["ECW_L"] == Num(m.ecwL)
  {
  }

  /** The phase angle a record reports; the sentinel reports 0. */
  function PhaseAngle(m: Metrics): (pha: real)
    ensures "PhA" in AsRow(m) && AsRow(m)["PhA"] == Num(pha)
  {
    match m
    case Sentinel => 0.0
    case Full(_, _, pha, _, _, _, _, _, _, _, _, _, _, _, _) => pha
  }

  /** The sentinel has exactly the seven keys, all zero, and they are a strict
      subset of the keys of every full record. */
  lemma SentinelShape(m: Metrics)
    requires m.Full?
    ensures AsRow(Sentinel).Keys == SentinelKeys && |SentinelKeys| == 7
    ensures forall k | k in AsRow(Sentinel) :: AsRow(Sentinel)[k] == Num(0.0)
    ensures SentinelKeys < AsRow(m).Keys
    ensures "SMM_kg" !in AsRow(Sentinel) && "SMM_kg" in AsRow(m)
  {
    SentinelKeysCount();
    SentinelKeysInFull();
  }

  lemma SentinelKeysCount()
    ensures |SentinelKeys| == 7
  {
  }

  lemma SentinelKeysInFull()
    ensures SentinelKeys < FullKeys && "SMM_kg" in FullKeys - SentinelKeys
  {
    assert SentinelKeys <= FullKeys;
    assert "SMM_kg" in FullKeys - SentinelKeys;
  }

  /** Intracellular water is what the clamp leaves of TBW: between 45 % and
      70 % of it whenever TBW is positive. */
  lemma IntracellularBand(atanDegrees: real -> real, rz: real, xc: real, heightCm: real,
                          weightKg: real, age: int, gender: string)
    requires rz > 0.0 && heightCm > 0.0 && weightKg > 0.0
    ensures var m := Compute(atanDegrees, rz, xc, heightCm, weightKg, age, gender);
      m.icwL + m.ecwL == m.tbwL &&
      (m.tbwL > 0.0 ==> 0.45 * m.tbwL <= m.icwL <= 0.70 * m.tbwL)
  {
  }

  lemma DivideThenMultiply(a: real, d: real)
    requires d > 0.0
    ensures (a / (d * d)) * (d * d) == a
  {
  }

  /** Any gender other than exactly "M" is treated as female. */
  lemma OnlyExactMIsMale(atanDegrees: real -> real, rz: real, xc: real, heightCm: real,
                         weightKg: real, age: int, gender: string)
    requires gender != "M"
    ensures Compute(atanDegrees, rz, xc, heightCm, weightKg, age, gender)
         == Compute(atanDegrees, rz, xc, heightCm, weightKg, age, "F")
  {
  }

  /** With everything else equal, the male SMM exceeds the female SMM by
      exactly 3.825 kg. */
  lemma MaleMuscleOffset(atanDegrees: real -> real, rz: real, xc: real, heightCm: real,
                         weightKg: real, age: int, gender: string)
    requires rz > 0.0 && heightCm > 0.0 && weightKg > 0.0
    requires gender != "M"
    ensures Compute(atanDegrees, rz, xc, heightCm, weightKg, age, "M").smmKg
          - Compute(atanDegrees, rz, xc, heightCm, weightKg, age, gender).smmKg == SmmMaleOffset
  {
  }

  /** BCM and BMR are functions of the record's own unrounded FFM and PhA:
      BCM scales FFM by 0.5 at a phase angle of 5 degrees plus 0.02 per degree,
      and BMR is 500 + 22·FFM truncated toward zero. */
  lemma CellMassAndMetabolicRate(atanDegrees: real -> real, rz: real, xc: real, heightCm: real,
                                 weightKg: real, age: int, gender: string)
    requires rz > 0.0 && heightCm > 0.0 && weightKg > 0.0
    ensures var m := Compute(atanDegrees, rz, xc, heightCm, weightKg, age, gender);
      && m.bcmKg == m.ffmKg * (0.50 + 0.02 * (m.pha - 5.0))
      && m.bmrKcal == Trunc(500.0 + 22.0 * m.ffmKg)
      && (m.ffmKg >= 0.0 ==> m.bmrKcal as real <= 500.0 + 22.0 * m.ffmKg < m.bmrKcal as real + 1.0)
  {
    var m := Compute(atanDegrees, rz, xc, heightCm, weightKg, age, gender);
    assert m.bcmKg == BodyCellMass(m.ffmKg, m.pha);
    assert m.bmrKcal == BasalMetabolicRate(m.ffmKg);
  }
}
