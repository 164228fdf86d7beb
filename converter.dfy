/** The conversion helpers of the unit converter page (Task5.py:6-28):
    currency, temperature, length and weight, over exact reals. */
module Converter {

  /** Centimetres per inch. */
  const CmPerInch: real := 2.54
  /** Pounds per kilogram. */
  const LbPerKg: real := 2.20462262185

  function UsdToInr(amount: real, rate: real): real
  {
    amount * rate
  }

  /** INR to USD; a zero rate gives 0 instead of dividing by zero. */
  function InrToUsd(amount: real, rate: real): (usd: real)
    ensures rate == 0.0 ==> usd == 0.0
    ensures rate != 0.0 ==> usd * rate == amount
  {
    if rate != 0.0 then amount / rate else 0.0
  }

  function CToF(c: real): real
  {
    c * 9.0 / 5.0 + 32.0
  }

  function FToC(f: real): real
  {
    (f - 32.0) * 5.0 / 9.0
  }

  function CmToInch(cm: real): real
  {
    cm / CmPerInch
  }

  function InchToCm(inch: real): real
  {
    inch * CmPerInch
  }

  function KgToLb(kg: real): real
  {
    kg * LbPerKg
  }

  function LbToKg(lb: real): real
  {
    lb / LbPerKg
  }

  /** With a non-zero rate the two currency conversions undo each other. */
  lemma CurrencyRoundTrip(amount: real, rate: real)
    requires rate != 0.0
    ensures InrToUsd(UsdToInr(amount, rate), rate) == amount
    ensures UsdToInr(InrToUsd(amount, rate), rate) == amount
  {
    var usd := InrToUsd(amount * rate, rate);
    assert usd * rate == amount * rate;
    assert (usd - amount) * rate == 0.0;
  }

  /** A zero rate sends every INR amount to 0 USD. */
  lemma CurrencyZeroRate(amount: real)
    ensures InrToUsd(amount, 0.0) == 0.0 && UsdToInr(amount, 0.0) == 0.0
  {
  }

  lemma TemperatureRoundTrip(t: real)
    ensures FToC(CToF(t)) == t
    ensures CToF(FToC(t)) == t
  {
  }

  /** Water freezes at 32 °F and boils at 212 °F; the scales meet at -40. */
  lemma TemperatureLandmarks()
    ensures CToF(0.0) == 32.0 && CToF(100.0) == 212.0 && CToF(-40.0) == -40.0
    ensures FToC(32.0) == 0.0 && FToC(212.0) == 100.0
  {
  }

  lemma LengthRoundTrip(x: real)
    ensures CmToInch(InchToCm(x)) == x
    ensures InchToCm(CmToInch(x)) == x
  {
  }

  lemma WeightRoundTrip(x: real)
    ensures LbToKg(KgToLb(x)) == x
    ensures KgToLb(LbToKg(x)) == x
  {
  }

  /** Every fixed-factor helper is strictly increasing. */
  lemma FixedConversionsIncrease(x: real, y: real)
    requires x < y
    ensures CToF(x) < CToF(y) && FToC(x) < FToC(y)
    ensures CmToInch(x) < CmToInch(y) && InchToCm(x) < InchToCm(y)
    ensures KgToLb(x) < KgToLb(y) && LbToKg(x) < LbToKg(y)
  {
  }

  /** With a positive rate both currency conversions are strictly increasing. */
  lemma CurrencyIncreases(x: real, y: real, rate: real)
    requires x < y && rate > 0.0
    ensures UsdToInr(x, rate) < UsdToInr(y, rate)
    ensures InrToUsd(x, rate) < InrToUsd(y, rate)
  {
    assert (y - x) * rate > 0.0;
    var a, b := InrToUsd(x, rate), InrToUsd(y, rate);
    assert (b - a) * rate == y - x;
  }
}
