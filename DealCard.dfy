/**
 * The DealCard component: a deal's discount badge (computed with no guard),
 * its status badge, whether the card is dimmed, and where it links.
 */
module DealCard {
  import opened Wrappers
  import opened Pricing

  datatype Status = Expired | SoldOut | Live | Upcoming

  /** The props a deal card reads; prices are plain numbers, here integers. */
  datatype DealProps = DealProps(id: string, title: string, mrp: int, dealPrice: int,
                                 status: Status, handle: Option<string>)

  /** What the card shows. The discount badge is always rendered. */
  datatype DealView = DealView(discount: Num, statusBadge: string, dimmed: bool, link: string)

  /** The `switch` from status to badge text. */
  function StatusBadge(s: Status): (badge: string)
    ensures badge in {"LIVE", "Upcoming", "Expired", "Sold Out"}
  {
    match s
    case Live => "LIVE"
    case Upcoming => "Upcoming"
    case Expired => "Expired"
    case SoldOut => "Sold Out"
  }

  /** Each status has its own badge: the badge determines the status. */
  lemma StatusBadgeInjective(s1: Status, s2: Status)
    ensures StatusBadge(s1) == StatusBadge(s2) ==> s1 == s2
  {
  }

  /** The card is faded for deals that can no longer be bought. */
  predicate IsDimmed(s: Status)
  {
    s == Expired || s == SoldOut
  }

  /** A handle is used only when it is a non-empty string (JavaScript truthiness). */
  predicate HasHandle(handle: Option<string>)
  {
    handle.Some? && handle.value != ""
  }

  /** The link target: the product page for a handle, otherwise the deal page for the id. */
  function LinkTo(id: string, handle: Option<string>): (link: string)
    ensures HasHandle(handle) ==> |link| == 10 + |handle.value| && link[..10] == "/products/" && link[10..] == handle.value
    ensures !HasHandle(handle) ==> |link| == 6 + |id| && link[..6] == "/deal/" && link[6..] == id
  {
    if HasHandle(handle) then "/products/" + handle.value else "/deal/" + id
  }

  /** The two kinds of link never coincide, so the link tells which one was used. */
  lemma LinkKindsDistinct(id: string, handle: Option<string>)
    ensures var link := LinkTo(id, handle);
      HasHandle(handle) <==> |link| >= 10 && link[..10] == "/products/"
  {
    var link := LinkTo(id, handle);
    if !HasHandle(handle) && |link| >= 10 {
      assert link[1] == 'd' != 'p';
    }
  }

  /** The card for the given props: `Math.round(((mrp - dealPrice) / mrp) * 100)` with no guard. */
  function Render(p: DealProps): (v: DealView)
    ensures v.discount == PercentOff(p.mrp, p.dealPrice)
    ensures v.statusBadge == StatusBadge(p.status)
    ensures v.dimmed <==> IsDimmed(p.status)
    ensures v.link == LinkTo(p.id, p.handle)
  {
    DealView(PercentOff(p.mrp, p.dealPrice), StatusBadge(p.status), IsDimmed(p.status), LinkTo(p.id, p.handle))
  }

  /** A zero list price gives NaN (both zero) or minus infinity (a positive deal price) on the badge. */
  lemma DiscountAtZeroMrp(p: DealProps)
    requires p.mrp == 0 && p.dealPrice >= 0
    ensures p.dealPrice == 0 ==> Render(p).discount == NaN
    ensures p.dealPrice > 0 ==> Render(p).discount == NegInfinity
  {
  }

  /** A deal price above the list price shows a discount of at most 0%, negative past half a percent. */
  lemma DiscountAboveMrp(p: DealProps)
    requires p.mrp > 0 && p.dealPrice > p.mrp
    ensures Render(p).discount.Finite? && Render(p).discount.value <= 0
    ensures Render(p).discount.value < 0 <==> 200 * (p.dealPrice - p.mrp) > p.mrp
  {
    PercentOffAboveList(p.mrp, p.dealPrice);
  }
}
