/** The BMI calculator page (Task4.py): the formula and the category ladder. */
module BodyMass {

  datatype Category = Underweight | NormalWeight | Overweight | Obese

  /** What pressing "Calculate BMI" shows: the index and its category, or
      "Please enter valid height and weight values." */
  datatype Assessment = Invalid | Assessed(bmi: real, category: Category)

  /** weight / (height / 100)², with the height in centimetres and the weight in kilograms. */
  function Bmi(heightCm: real, weightKg: real): (bmi: real)
    requires heightCm > 0.0
    ensures bmi * (heightCm / 100.0) * (heightCm / 100.0) == weightKg
    ensures weightKg > 0.0 ==> bmi > 0.0
  {
    var heightM := heightCm / 100.0;
    weightKg / (heightM * heightM)
  }

  /** The if/elif/else ladder, first match wins. */
  function Classify(bmi: real): (c: Category)
    ensures c == Underweight <==> bmi < 18.5
    ensures c == NormalWeight <==> 18.5 <= bmi < 24.9
    ensures c == Overweight <==> 25.0 <= bmi < 29.9
    ensures c == Obese <==> (24.9 <= bmi < 25.0 || 29.9 <= bmi)
  {
    if bmi < 18.5 then Underweight
    else if 18.5 <= bmi < 24.9 then NormalWeight
    else if 25.0 <= bmi < 29.9 then Overweight
    else Obese
  }

  /** Both measurements must be positive; otherwise an error is shown. */
  function Assess(heightCm: real, weightKg: real): (r: Assessment)
    ensures r.Invalid? <==> !(heightCm > 0.0 && weightKg > 0.0)
    ensures r.Assessed? ==> r.bmi > 0.0 && r.bmi * (heightCm / 100.0) * (heightCm / 100.0) == weightKg
    ensures r.Assessed? ==> r.category == Classify(r.bmi)
  {
    if heightCm > 0.0 && weightKg > 0.0 then
      var bmi := Bmi(heightCm, weightKg);
      Assessed(bmi, Classify(bmi))
    else Invalid
  }

  /** The ladder leaves a gap between Normal Weight (below 24.9) and
      Overweight (from 25): an index in [24.9, 25) falls through to "Obese",
      so the category is not monotone in the index. */
  lemma GapBelowOverweightIsObese()
    ensures Classify(24.95) == Obese
    ensures Classify(24.8) == NormalWeight && Classify(25.0) == Overweight
  {
  }

  /** The heavier of two people of the same height has the larger index, and
      the taller of two people of the same weight the smaller one. */
  lemma BmiMonotone(h1: real, h2: real, w1: real, w2: real)
    requires 0.0 < h1 && 0.0 < h2 && 0.0 < w1 && 0.0 < w2
    ensures w1 < w2 ==> Bmi(h1, w1) < Bmi(h1, w2)
    ensures h1 < h2 ==> Bmi(h2, w1) < Bmi(h1, w1)
  {
    var m1, m2 := h1 / 100.0, h2 / 100.0;
    assert 0.0 < m1 * m1;
    if h1 < h2 {
      assert m1 * m1 < m2 * m2;
    }
  }
}
