/**
 * The StickyBuyBar component: a bar that appears once the page has been
 * scrolled past 600 pixels, showing the selected variant's price, a
 * "Save N%" line and a Buy Now button that adds one unit and goes to checkout.
 */
module StickyBuyBar {
  import opened Wrappers
  import opened Pricing
  import opened JsMath
  import ProductCard
  import AddToCartButton

  const SCROLL_THRESHOLD: real := 600.0

  /** The selected variant as the bar reads it; every field may be missing. */
  datatype SelectedVariant = SelectedVariant(id: Option<string>, price: Option<Amount>, compareAtPrice: Option<Amount>)

  /** `parseFloat(x?.amount || '0')` in minor units: a missing or empty amount counts as 0. */
  function AmountOrZero(a: Option<Amount>): (minor: nat)
    ensures a.Some? && a.value.Decimal? ==> minor == a.value.minor
    ensures a.None? || a.value.Blank? ==> minor == 0
  {
    if a.Some? && a.value.Decimal? then a.value.minor else 0
  }

  /**
   * The figure printed before "%": the compare-at price minus the price, in
   * currency units, rounded by `toFixed(0)`. It is a money difference, not a percentage.
   */
  function SaveFigure(v: SelectedVariant): (n: int)
    ensures var diff := (AmountOrZero(v.compareAtPrice) - AmountOrZero(v.price)) as real / 100.0;
      && (diff >= 0.0 ==> n as real - 0.5 <= diff < n as real + 0.5)
      && (diff < 0.0 ==> n as real - 0.5 < diff <= n as real + 0.5)
    ensures v.compareAtPrice.None? && AmountOrZero(v.price) >= 50 ==> n < 0
  {
    var diff := (AmountOrZero(v.compareAtPrice) - AmountOrZero(v.price)) as real / 100.0;
    ToFixed0(diff)
  }

  /** The percentage the "Save N%" line evidently means: the product card's guarded discount. */
  function SavePercent(v: SelectedVariant): (n: int)
    requires v.price.Some?
    ensures 0 <= n <= 100
    ensures n == ProductCard.Discount(v.price.value, v.compareAtPrice)
    ensures v.compareAtPrice.None? ==> n == 0
  {
    ProductCard.Discount(v.price.value, v.compareAtPrice)
  }

  /** A variant priced 79.99 with a compare-at price of 129.99: the bar says "Save 50%", the saving is 38%. */
  lemma SaveFigureIsNotAPercentage()
    ensures SaveFigure(SelectedVariant(Some("v"), Some(Decimal(7999)), Some(Decimal(12999)))) == 50
    ensures SavePercent(SelectedVariant(Some("v"), Some(Decimal(7999)), Some(Decimal(12999)))) == 38
  {
    var v := SelectedVariant(Some("v"), Some(Decimal(7999)), Some(Decimal(12999)));
    assert (AmountOrZero(v.compareAtPrice) - AmountOrZero(v.price)) as real / 100.0 == 50.0;
    PercentOffExample();
  }

  /** Without a compare-at price the bar reads "Save -80%" for a price of 79.99. */
  lemma NoCompareAtShowsNegativeSaving()
    ensures SaveFigure(SelectedVariant(Some("v"), Some(Decimal(7999)), None)) == -80
  {
    var v := SelectedVariant(Some("v"), Some(Decimal(7999)), None);
    assert (AmountOrZero(v.compareAtPrice) - AmountOrZero(v.price)) as real / 100.0 == -79.99;
  }

  /** What the bar shows when it is rendered. */
  datatype BarView = BarView(price: Amount, compareAtPrice: Option<Amount>, saveFigure: int,
                             buyNow: AddToCartButton.CartInputs)

  /** The Buy Now button's form: one unit of the selected variant, redirecting to checkout. */
  function BuyNowInputs(v: SelectedVariant): (inputs: AddToCartButton.CartInputs)
    ensures inputs.lines == [AddToCartButton.CartLine(v.id, 1)]
    ensures inputs.redirectTo == Some("/checkout")
  {
    AddToCartButton.Inputs([AddToCartButton.CartLine(v.id, 1)], Some("/checkout"))
  }

  /** Buy Now never opens the cart drawer, whatever the cart replies. */
  lemma BuyNowNeverOpensCart(v: SelectedVariant, state: AddToCartButton.FetcherState,
                             data: Option<AddToCartButton.CartResponse>)
    ensures AddToCartButton.Decide(state, data, BuyNowInputs(v).redirectTo) != AddToCartButton.OpenCart
  {
    AddToCartButton.RedirectNeverOpensCart(state, data, BuyNowInputs(v).redirectTo);
  }

  /** The bar's visibility, driven by the window's scroll listener. */
  class Bar {
    var isVisible: bool

    constructor()
      ensures !isVisible
    {
      isVisible := false;
    }

    /** `handleScroll`: visible exactly when scrolled strictly past the threshold. */
    method HandleScroll(scrollY: real)
      modifies this
      ensures isVisible <==> scrollY > SCROLL_THRESHOLD
    {
      if scrollY > SCROLL_THRESHOLD {
        isVisible := true;
      } else {
        isVisible := false;
      }
    }

    /** Nothing is rendered while hidden or when the variant has no price. */
    function View(v: Option<SelectedVariant>): (r: Option<BarView>)
      reads this
      ensures r.Some? <==> isVisible && v.Some? && v.value.price.Some?
      ensures r.Some? ==>
        && r.value.price == v.value.price.value
        && r.value.compareAtPrice == v.value.compareAtPrice
        && r.value.saveFigure == SaveFigure(v.value)
        && r.value.buyNow == BuyNowInputs(v.value)
    {
      if !isVisible || v.None? || v.value.price.None? then None
      else Some(BarView(v.value.price.value, v.value.compareAtPrice, SaveFigure(v.value), BuyNowInputs(v.value)))
    }
  }
}
