/**
 * The StockBar component: the share of stock left, as a percentage of the
 * total, classified against thresholds at 30% ("low") and 15% ("critical"),
 * and the label, warning and bar width chosen from that.
 */
module StockBar {
  import opened Wrappers
  import JsMath

  /** `(remaining / total) * 100`; the component divides by `total`, so it must be positive. */
  function Percentage(remaining: int, total: int): real
    requires total > 0
  {
    (remaining as real / total as real) * 100.0
  }

  predicate IsLow(remaining: int, total: int)
    requires total > 0
  {
    Percentage(remaining, total) < 30.0
  }

  predicate IsCritical(remaining: int, total: int)
    requires total > 0
  {
    Percentage(remaining, total) < 15.0
  }

  /** A percentage below a threshold is the integer comparison `remaining * 100 < threshold * total`. */
  lemma BelowThreshold(remaining: int, total: int, threshold: int)
    requires total > 0
    ensures Percentage(remaining, total) < threshold as real <==> remaining * 100 < threshold * total
  {
    var q := remaining as real / total as real;
    assert q * total as real == remaining as real;
    JsMath.CastMul(threshold, total);
    JsMath.CastMul(remaining, 100);
    JsMath.MulBelowConverse(q * 100.0, threshold as real, total as real);
    if q * 100.0 < threshold as real {
      JsMath.MulBelow(q * 100.0, threshold as real, total as real);
    }
  }

  /** The two flags in integer terms. */
  lemma FlagsIff(remaining: int, total: int)
    requires total > 0
    ensures IsCritical(remaining, total) <==> remaining * 100 < 15 * total
    ensures IsLow(remaining, total) <==> remaining * 100 < 30 * total
  {
    BelowThreshold(remaining, total, 15);
    BelowThreshold(remaining, total, 30);
  }

  /** Critical stock is always also low stock. */
  lemma CriticalImpliesLow(remaining: int, total: int)
    requires total > 0
    ensures IsCritical(remaining, total) ==> IsLow(remaining, total)
  {
  }

  datatype Urgency = Normal | Low | Critical

  /** The urgency the component's nested conditionals express. */
  function Classify(remaining: int, total: int): (u: Urgency)
    requires total > 0
    ensures u == Critical <==> remaining * 100 < 15 * total
    ensures u == Low <==> 15 * total <= remaining * 100 < 30 * total
    ensures u == Normal <==> remaining * 100 >= 30 * total
  {
    FlagsIff(remaining, total);
    if IsCritical(remaining, total) then Critical
    else if IsLow(remaining, total) then Low
    else Normal
  }

  /** How urgent a class is: Normal below Low below Critical. */
  function Rank(u: Urgency): nat
  {
    match u
    case Normal => 0
    case Low => 1
    case Critical => 2
  }

  /** Urgency never drops as stock falls with the total fixed. */
  lemma UrgencyMonotone(remaining1: int, remaining2: int, total: int)
    requires total > 0 && remaining2 <= remaining1
    ensures Rank(Classify(remaining1, total)) <= Rank(Classify(remaining2, total))
  {
  }

  /** 23 of 100 is Low, not Critical; 10 of 100 is Critical. */
  lemma ClassifyExamples()
    ensures Classify(23, 100) == Low
    ensures Classify(10, 100) == Critical
  {
  }

  /** The headline label: 'Almost Gone!', 'Selling Fast!' or 'In Stock'. */
  function Label(remaining: int, total: int): (s: string)
    requires total > 0
    ensures s == "Almost Gone!" <==> Classify(remaining, total) == Critical
    ensures s == "Selling Fast!" <==> Classify(remaining, total) == Low
    ensures s == "In Stock" <==> Classify(remaining, total) == Normal
  {
    if IsCritical(remaining, total) then "Almost Gone!"
    else if IsLow(remaining, total) then "Selling Fast!"
    else "In Stock"
  }

  const CRITICAL_MESSAGE := "\U{1F525} Less than 15% remaining - grab yours now!"
  const LOW_MESSAGE := "⚡ Limited stock - don't miss out!"

  /** The warning line under the bar: present only for low stock, with the 15% text when critical. */
  function Warning(remaining: int, total: int): (w: Option<string>)
    requires total > 0
    ensures w.Some? <==> remaining * 100 < 30 * total
    ensures w == Some(CRITICAL_MESSAGE) <==> remaining * 100 < 15 * total
  {
    FlagsIff(remaining, total);
    if IsLow(remaining, total) then
      Some(if IsCritical(remaining, total) then CRITICAL_MESSAGE else LOW_MESSAGE)
    else None
  }

  /** The bar's CSS width in percent: the raw percentage, not clamped to [0, 100]. */
  function BarWidth(remaining: int, total: int): (w: real)
    requires total > 0
    ensures w * total as real == remaining as real * 100.0
    ensures remaining > total ==> w > 100.0
    ensures 0 <= remaining <= total ==> 0.0 <= w <= 100.0
  {
    BarWidthBounds(remaining, total);
    Percentage(remaining, total)
  }

  lemma BarWidthBounds(remaining: int, total: int)
    requires total > 0
    ensures remaining > total ==> Percentage(remaining, total) > 100.0
    ensures 0 <= remaining <= total ==> 0.0 <= Percentage(remaining, total) <= 100.0
  {
    var q := remaining as real / total as real;
    assert q * total as real == remaining as real;
    JsMath.MulBelowConverse(1.0, q, total as real);
    JsMath.MulBelowConverse(q, 1.0, total as real);
    JsMath.MulBelowConverse(0.0, q, total as real);
    if remaining > total {
      assert 1.0 * total as real < q * total as real;
      assert q > 1.0;
    }
  }
}
