/**
 * The AddToCartButton component: the cart form's inputs, the effect that
 * runs once the cart fetcher settles (follow a checkout URL, or open the
 * cart drawer), and when the button is disabled.
 */
module AddToCartButton {
  import opened Wrappers
  import Aside

  datatype FetcherState = Idle | Submitting | Loading

  /** One line to add: a variant id (possibly missing) and a quantity. */
  datatype CartLine = CartLine(merchandiseId: Option<string>, quantity: nat)

  /** The fetcher's reply data; `checkoutUrl` may be absent. */
  datatype CartResponse = CartResponse(checkoutUrl: Option<string>)

  /** An optional string used as a condition: present and non-empty. */
  predicate Truthy(s: Option<string>)
  {
    s.Some? && s.value != ""
  }

  /** The `inputs` object posted to `/cart`. */
  datatype CartInputs = CartInputs(lines: seq<CartLine>, redirectTo: Option<string>)

  /** `{lines, ...(redirectTo && {redirectTo})}`: the redirect is included only when truthy. */
  function Inputs(lines: seq<CartLine>, redirectTo: Option<string>): (inputs: CartInputs)
    ensures inputs.lines == lines
    ensures inputs.redirectTo.Some? <==> Truthy(redirectTo)
    ensures inputs.redirectTo.Some? ==> inputs.redirectTo == redirectTo
  {
    CartInputs(lines, if Truthy(redirectTo) then redirectTo else None)
  }

  /** The hidden `redirectTo` form field, present under the same condition. */
  function HiddenRedirect(redirectTo: Option<string>): (field: Option<string>)
    ensures field == Inputs([], redirectTo).redirectTo
  {
    if Truthy(redirectTo) then redirectTo else None
  }

  /** What the effect does. */
  datatype Action = Navigate(url: string) | OpenCart | NoAction

  /** The effect's decision, from the fetcher state, its data and the redirect prop. */
  function Decide(state: FetcherState, data: Option<CartResponse>, redirectTo: Option<string>): (a: Action)
    ensures a.Navigate? <==> state == Idle && data.Some? && Truthy(data.value.checkoutUrl)
    ensures a.Navigate? ==> a.url == data.value.checkoutUrl.value
    ensures a == OpenCart <==>
      state == Idle && data.Some? && !Truthy(data.value.checkoutUrl) && !Truthy(redirectTo)
  {
    if state == Idle && data.Some? then
      if Truthy(data.value.checkoutUrl) then Navigate(data.value.checkoutUrl.value)
      else if !Truthy(redirectTo) then OpenCart
      else NoAction
    else NoAction
  }

  /** While the fetcher is busy, or before it has data, the effect does nothing. */
  lemma NothingUntilSettled(state: FetcherState, data: Option<CartResponse>, redirectTo: Option<string>)
    requires state != Idle || data.None?
    ensures Decide(state, data, redirectTo) == NoAction
  {
  }

  /** A redirecting ("Buy Now") button never opens the cart drawer. */
  lemma RedirectNeverOpensCart(state: FetcherState, data: Option<CartResponse>, redirectTo: Option<string>)
    requires Truthy(redirectTo)
    ensures Decide(state, data, redirectTo) != OpenCart
  {
  }

  /**
   * Runs the effect: opens the cart drawer through the `useAside` handle, and
   * returns the URL the window navigates to, if any.
   */
  method RunEffect(aside: Aside.AsideHandle, state: FetcherState, data: Option<CartResponse>,
                   redirectTo: Option<string>) returns (navigateTo: Option<string>)
    modifies aside.provider
    ensures var a := Decide(state, data, redirectTo);
      && (navigateTo.Some? <==> a.Navigate?)
      && (a.Navigate? ==> navigateTo.value == a.url)
      && (a == OpenCart ==> aside.Kind() == Aside.Cart || aside.provider == null)
      && (a != OpenCart ==> aside.Kind() == old(aside.Kind()))
  {
    navigateTo := None;
    if state == Idle && data.Some? {
      if Truthy(data.value.checkoutUrl) {
        navigateTo := data.value.checkoutUrl;
      } else if !Truthy(redirectTo) {
        aside.Open(Aside.Cart);
      }
    }
  }

  /** `disabled ?? fetcher.state !== 'idle'`: an explicit prop wins, otherwise busy means disabled. */
  function Disabled(explicit: Option<bool>, state: FetcherState): (d: bool)
    ensures explicit.Some? ==> d == explicit.value
    ensures explicit.None? ==> (d <==> state != Idle)
  {
    explicit.GetOr(state != Idle)
  }
}
