/**
 * The PriceDisplay component: the "N% OFF" figure and the "You save" amount
 * for a list price (`mrp`) and a deal price.
 */
module PriceDisplay {
  import opened Pricing
  import DealCard

  datatype Size = Default | Large

  datatype PriceView = PriceView(discount: Num, savings: int, large: bool)

  /** Discount with the same unguarded formula as DealCard; savings is the plain difference. */
  function Render(mrp: int, dealPrice: int, size: Size): (v: PriceView)
    ensures v.savings + dealPrice == mrp
    ensures dealPrice > mrp ==> v.savings < 0
    ensures v.discount == PercentOff(mrp, dealPrice)
    ensures v.large <==> size == Large
  {
    PriceView(PercentOff(mrp, dealPrice), mrp - dealPrice, size == Large)
  }

  /** For a genuine markdown the figure is a percentage in [0, 100], and 0 when the prices are equal. */
  lemma DiscountInRange(mrp: int, dealPrice: int, size: Size)
    requires mrp > 0 && 0 <= dealPrice <= mrp
    ensures Render(mrp, dealPrice, size).discount.Finite?
    ensures 0 <= Render(mrp, dealPrice, size).discount.value <= 100
    ensures dealPrice == mrp ==> Render(mrp, dealPrice, size).discount.value == 0
  {
    PercentOffInRange(mrp, dealPrice);
  }

  /** The home page's figures: 12999 and 7999 show 38% OFF and a saving of 5000. */
  lemma HomePageExample()
    ensures Render(12999, 7999, Large) == PriceView(Finite(38), 5000, true)
  {
    PercentOffExample();
  }

  /** The size changes the styling only, never the figures. */
  lemma SizeIsStylingOnly(mrp: int, dealPrice: int)
    ensures Render(mrp, dealPrice, Default).discount == Render(mrp, dealPrice, Large).discount
    ensures Render(mrp, dealPrice, Default).savings == Render(mrp, dealPrice, Large).savings
  {
  }

  /** The price block and a deal card for the same prices show the same discount. */
  lemma SameDiscountAsDealCard(p: DealCard.DealProps, size: Size)
    ensures Render(p.mrp, p.dealPrice, size).discount == DealCard.Render(p).discount
  {
  }
}
