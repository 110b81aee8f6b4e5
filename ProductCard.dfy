/**
 * The ProductCard component: the card for a catalogue product, from its
 * first variant. Its discount is guarded (no badge unless the compare-at
 * price is higher), and its status is "sold-out" or "live".
 */
module ProductCard {
  import opened Wrappers
  import opened Pricing
  import DealCard
  import Utils

  datatype Variant = Variant(id: string, availableForSale: bool, price: Amount, compareAtPrice: Option<Amount>)

  /** A product; `variants` is the connection's node list, or `None` when the field is missing. */
  datatype Product = Product(title: string, handle: string, variants: Option<seq<Variant>>)

  /**
   * `mrp > dealPrice ? Math.round(((mrp - dealPrice) / mrp) * 100) : 0`, where
   * `mrp` is 0 without a compare-at price and NaN comparisons are false.
   */
  function Discount(price: Amount, compareAtPrice: Option<Amount>): (d: int)
    ensures 0 <= d <= 100
    ensures compareAtPrice.None? ==> d == 0
    ensures !Utils.IsDiscounted(price, compareAtPrice) ==> d == 0
    ensures Utils.IsDiscounted(price, compareAtPrice) ==>
      PercentOff(compareAtPrice.value.minor, price.minor) == Finite(d)
  {
    var mrp := if compareAtPrice.Some? then ParseAmount(compareAtPrice.value) else Some(0);
    var dealPrice := ParseAmount(price);
    if Greater(mrp, dealPrice) then
      PercentOffInRange(mrp.value, dealPrice.value);
      PercentOff(mrp.value, dealPrice.value).value
    else 0
  }

  /** A markdown too small to round to 1% shows no badge although the product is discounted. */
  lemma TinyMarkdownShowsNoBadge()
    ensures Utils.IsDiscounted(Decimal(999_900), Some(Decimal(1_000_000)))
    ensures Discount(Decimal(999_900), Some(Decimal(1_000_000))) == 0
  {
    var exact := (1_000_000 - 999_900) as real / 1_000_000 as real * 100.0;
    assert exact == 0.01;
  }

  /** Wherever the unguarded DealCard formula is evaluated on a real markdown, the two cards agree. */
  lemma AgreesWithDealCard(mrp: nat, dealPrice: nat, p: DealCard.DealProps)
    requires mrp > dealPrice && p.mrp == mrp && p.dealPrice == dealPrice
    ensures DealCard.Render(p).discount == Finite(Discount(Decimal(dealPrice), Some(Decimal(mrp))))
  {
  }

  function StatusOf(v: Variant): (s: DealCard.Status)
    ensures s == DealCard.SoldOut <==> !v.availableForSale
    ensures s == DealCard.Live <==> v.availableForSale
  {
    if !v.availableForSale then DealCard.SoldOut else DealCard.Live
  }

  /** What the card shows. */
  datatype CardView = CardView(status: DealCard.Status, discount: int, showsDiscountBadge: bool,
                               dimmed: bool, link: string)

  /**
   * The card, or `None` when nothing is rendered. The variants come from the
   * product, or from `placeholder` when the product has no variants field;
   * title and link always come from the product itself.
   */
  function Render(product: Product, placeholder: Product): (r: Option<CardView>)
    ensures var nodes := (if product.variants.Some? then product else placeholder).variants;
      r.None? <==> nodes.None? || |nodes.value| == 0
    ensures r.Some? ==>
      var first := (if product.variants.Some? then product else placeholder).variants.value[0];
      && r.value.status == StatusOf(first)
      && r.value.discount == Discount(first.price, first.compareAtPrice)
      && (r.value.showsDiscountBadge <==> r.value.discount > 0)
      && (r.value.dimmed <==> !first.availableForSale)
      && r.value.link == "/products/" + product.handle
  {
    var cardProduct := if product.variants.Some? then product else placeholder;
    if cardProduct.variants.None? || |cardProduct.variants.value| == 0 then None
    else
      var firstVariant := cardProduct.variants.value[0];
      var discount := Discount(firstVariant.price, firstVariant.compareAtPrice);
      var status := StatusOf(firstVariant);
      Some(CardView(status, discount, discount > 0, status == DealCard.SoldOut, "/products/" + product.handle))
  }

  /** A product card is never "upcoming" or "expired". */
  lemma StatusIsLiveOrSoldOut(product: Product, placeholder: Product)
    requires Render(product, placeholder).Some?
    ensures Render(product, placeholder).value.status in {DealCard.Live, DealCard.SoldOut}
  {
  }

  /** A visible discount badge means `isDiscounted` holds for the first variant. */
  lemma BadgeImpliesDiscounted(product: Product, placeholder: Product)
    requires Render(product, placeholder).Some? && Render(product, placeholder).value.showsDiscountBadge
    ensures var first := (if product.variants.Some? then product else placeholder).variants.value[0];
      Utils.IsDiscounted(first.price, first.compareAtPrice)
  {
  }
}
