/**
 * Money amounts as the commerce backend delivers them, and the discount
 * formula `Math.round(((mrp - dealPrice) / mrp) * 100)` that several
 * components evaluate, each behind its own guard.
 *
 * Amounts are decimal strings with two fraction digits; a well-formed one is
 * held as its value in minor units (cents, paise). The percentage is a ratio,
 * so it is the same whether prices are counted in major or minor units.
 */
module Pricing {
  import opened Wrappers
  import JsMath

  /** The `amount` string of a MoneyV2 value: empty, or a non-negative decimal. */
  datatype Amount = Blank | Decimal(minor: nat)

  /** `parseFloat(amount)`; `None` stands for NaN, which `parseFloat('')` gives. */
  function ParseAmount(a: Amount): (r: Option<nat>)
    ensures r.None? <==> a.Blank?
    ensures a.Decimal? ==> r == Some(a.minor)
  {
    match a
    case Blank => None
    case Decimal(v) => Some(v)
  }

  /** JavaScript's `a > b` on numbers that may be NaN: any comparison with NaN is false. */
  predicate Greater(a: Option<int>, b: Option<int>)
  {
    a.Some? && b.Some? && a.value > b.value
  }

  /** A JavaScript number produced by `Math.round`: a whole number, NaN, or an infinity. */
  datatype Num = Finite(value: int) | NaN | Infinity | NegInfinity

  /**
   * `Math.round(((mrp - dealPrice) / mrp) * 100)` with no guard. A zero `mrp`
   * divides by zero: 0/0 is NaN, and a non-zero numerator gives an infinity
   * with the numerator's sign.
   */
  function PercentOff(mrp: int, dealPrice: int): (r: Num)
    ensures r.Finite? <==> mrp != 0
    ensures mrp != 0 ==> var exact := (mrp - dealPrice) as real / mrp as real * 100.0;
      r.value as real - 0.5 <= exact < r.value as real + 0.5
    ensures mrp == 0 ==> (r.NaN? <==> dealPrice == 0) && (r.NegInfinity? <==> dealPrice > 0)
  {
    if mrp == 0 then
      if dealPrice == 0 then NaN
      else if dealPrice > 0 then NegInfinity
      else Infinity
    else
      Finite(JsMath.Round((mrp - dealPrice) as real / mrp as real * 100.0))
  }

  /** For a positive list price and a sale price between 0 and it, the percentage is a whole number in [0, 100]. */
  lemma PercentOffInRange(mrp: int, dealPrice: int)
    requires mrp > 0 && 0 <= dealPrice <= mrp
    ensures PercentOff(mrp, dealPrice).Finite?
    ensures 0 <= PercentOff(mrp, dealPrice).value <= 100
    ensures dealPrice == mrp ==> PercentOff(mrp, dealPrice).value == 0
    ensures dealPrice == 0 ==> PercentOff(mrp, dealPrice).value == 100
  {
    var ratio := (mrp - dealPrice) as real / mrp as real;
    QuotientBounds(mrp - dealPrice, mrp);
    assert 0.0 <= ratio <= 1.0;
    if dealPrice == mrp {
      assert ratio == 0.0;
    }
    if dealPrice == 0 {
      assert ratio == 1.0;
    }
  }

  /** `0 <= a <= b` with `b > 0` puts `a / b` in [0, 1]. */
  lemma QuotientBounds(a: int, b: int)
    requires b > 0 && 0 <= a <= b
    ensures 0.0 <= a as real / b as real <= 1.0
  {
    var q := a as real / b as real;
    assert q * b as real == a as real;
    JsMath.MulBelowConverse(q, 1.0, b as real);
    JsMath.MulBelowConverse(0.0, q, b as real);
  }

  /**
   * A sale price above a positive list price gives a percentage of at most 0,
   * and a strictly negative one exactly when the markup exceeds half a percent
   * of the list price (`Math.round(-0.5)` is 0).
   */
  lemma PercentOffAboveList(mrp: int, dealPrice: int)
    requires mrp > 0 && dealPrice > mrp
    ensures PercentOff(mrp, dealPrice).Finite?
    ensures PercentOff(mrp, dealPrice).value <= 0
    ensures PercentOff(mrp, dealPrice).value < 0 <==> 200 * (dealPrice - mrp) > mrp
  {
    var a, b := (mrp - dealPrice) as real, mrp as real;
    var q := a / b;
    QuotientBelow(a, b, 0.0);
    assert q < 0.0;
    QuotientBelow(a, b, -0.005);
    assert q < -0.005 <==> a < -0.005 * b;
    assert a < -0.005 * b <==> 200 * (dealPrice - mrp) > mrp;
  }

  /** For a positive divisor, `a / b < c` exactly when `a < c * b`. */
  lemma QuotientBelow(a: real, b: real, c: real)
    requires b > 0.0
    ensures a / b < c <==> a < c * b
  {
    var q := a / b;
    assert q * b == a;
    JsMath.MulBelowConverse(q, c, b);
    if q < c { JsMath.MulBelow(q, c, b); }
  }

  /** The storefront's own figures: list 12999, sale 7999 is 38% off. */
  lemma PercentOffExample()
    ensures PercentOff(12999, 7999) == Finite(38)
  {
    var exact := (12999 - 7999) as real / 12999 as real * 100.0;
    assert 37.5 <= exact < 38.5;
  }
}
