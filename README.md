# Drop-deal storefront: verified model of the pricing, timer and UI-state logic

The storefront is a thin UI over a hosted commerce backend. Its logic lives in small pieces:

- **Discounts.** The discount percentage is computed four times, with different guards: on the product card, the deal card, the price block and the sticky buy bar. A fifth helper, `isDiscounted`, decides whether a product counts as discounted at all.
- **Countdowns.** Two countdowns turn a millisecond difference into hours, minutes and seconds.
- **Stock.** A stock bar sorts the remaining stock into three urgency levels.
- **State machines.** There are three small ones: the side drawer (`Aside`), the newsletter sign-up form, and the effect that runs after "add to cart".
- **Helpers.** `app/lib/utils.ts` holds string and path helpers: excerpts, local-path test, locale from the path, menu parsing, `missingClass`.

This Dafny project models each of those files as one module and proves what they promise. Values are modelled as follows:

- **Money amounts** are integers in minor units. An empty amount string is `Blank`, so `parseFloat` gives NaN, modelled as `None`.
- **Plain price props** (`mrp`, `dealPrice`) are integers: the numbers a caller passes, read at one common integer scale (for example minor units). The percentage does not depend on the scale; the savings are in that scale.
- **Times** are integers of milliseconds.
- **JavaScript arithmetic** is computed on exact reals. This covers `Math.floor`, `Math.round`, the truncating `%` and `toFixed(0)`.
- **Division by zero** in the unguarded discount yields `NaN`, `Infinity` or `-Infinity` values.

Components whose state changes over time are classes:

- `CountdownTimer.Countdown`;
- `DropHero.Hero`;
- `StickyBuyBar.Bar`;
- `Aside.AsideProvider` and `Aside.AsideHandle`;
- `NewsletterForm.Form`.

Interval ticks, scroll events, the newsletter's reply timer and the fetcher settling are each modelled as a method call. The current time or scroll position is a parameter of that call.

Modules:

- **Helpers:**
  - `Wrappers` (Option);
  - `JsMath` (the JavaScript numeric operations);
  - `Pricing` (amounts and the shared `Math.round((mrp - deal) / mrp * 100)` formula);
  - `Padding` (`toString().padStart(2, '0')`).
- **One module per source file:**
  - `Utils`;
  - `CountdownTimer`, `DropHero`, `StockBar`;
  - `ProductCard`, `DealCard`, `PriceDisplay`, `StickyBuyBar`;
  - `Aside`, `NewsletterForm`, `AddToCartButton`.

## Model

| member | source | states |
|---|---|---|
| JsMath.Floor | app/components/CountdownTimer.tsx:26-28 | `Math.floor`: the greatest integer not above x |
| JsMath.Round | app/components/DealCard.tsx:29 | `Math.round`: the integer within half of x, halves rounding up |
| JsMath.Rem | app/components/CountdownTimer.tsx:26-28 | JavaScript `%` on a positive modulus: result takes the sign of x and is smaller than the modulus in magnitude |
| JsMath.ToFixed0 | app/components/StickyBuyBar.tsx:46-49 | `toFixed(0)`: nearest integer, halves rounding away from zero |
| Pricing.ParseAmount | app/components/ProductCard.tsx:32-33 | `parseFloat` of an amount string: NaN exactly for the empty string, otherwise its value |
| Pricing.PercentOff | app/components/DealCard.tsx:29 | `Math.round((mrp - dealPrice) / mrp * 100)`: finite iff mrp is non-zero, then within half of the exact percentage; NaN at 0/0, -Infinity for a positive price over a zero mrp |
| Pricing.PercentOffInRange | app/components/PriceDisplay.tsx:14 | for mrp > 0 and 0 <= dealPrice <= mrp the percentage is in [0, 100], 0 at equal prices and 100 at a zero price |
| Pricing.PercentOffAboveList | app/components/DealCard.tsx:29 | a deal price above the list price gives at most 0%, and a negative figure exactly when the excess is over half a percent |
| Pricing.PercentOffExample | app/components/PriceDisplay.tsx:14 | 12999 against 7999 rounds to 38 |
| Utils.IndexOfFrom | app/lib/utils.ts:22-23 | finds the first occurrence of a pattern at or after a position, or proves there is none |
| Utils.IncludesIff | app/lib/utils.ts:137 | `includes` is true iff the pattern occurs at some index |
| Utils.MissingClass | app/lib/utils.ts:17-24 | true for an undefined or empty string; otherwise true iff the literal prefix text (`undefined` when absent) does not occur in the string |
| Utils.MissingClassExamples | app/lib/utils.ts:17-24 | `w-` is found in "flex w-full" and missing from "flex"; an empty string is always missing; an empty prefix is always found; an absent prefix searches for "undefined" |
| Utils.AfterFirstSlash | app/lib/utils.ts:60 | the text after the first `/`, or none exactly when there is no `/` |
| Utils.UpToSlash | app/lib/utils.ts:60 | the longest `/`-free prefix, stopping at a `/` |
| Utils.ToUpper | app/lib/utils.ts:60 | same length, each character upper-cased |
| Utils.LocaleFromPath | app/lib/utils.ts:58-72 | the German locale exactly when the first path segment upper-cases to "DE", otherwise the default locale |
| Utils.UpperIsDE | app/lib/utils.ts:60-62 | a segment upper-cases to "DE" iff it is one of de, dE, De, DE |
| Utils.SegmentOfPath | app/lib/utils.ts:60 | the first segment of "/" + seg + rest is seg whenever rest is empty or starts with `/` |
| Utils.UpToSlashStopsAtSlash | app/lib/utils.ts:60 | cutting at the first `/` recovers a `/`-free segment |
| Utils.LocaleOfRoot | app/lib/utils.ts:60-71 | "/" gives the default locale (EN, US, empty prefix) |
| Utils.LocaleOfGermanPath | app/lib/utils.ts:60-68 | "/de" followed by nothing or by "/…" always gives the German locale with prefix "/de" |
| Utils.LocaleOfDealsPath | app/lib/utils.ts:60-71 | "/deals" is not German: the whole segment must match |
| Utils.ResolveLink | app/lib/utils.ts:129-144 | an unparsable or relative URL keeps `to = url` and `_self`; an absolute URL on a foreign non-myshopify host keeps the full URL with `_blank`; any other absolute URL becomes its pathname with `_self` |
| Utils.ParseMenu | app/lib/utils.ts:97-120 | no menu or no items gives an empty list; otherwise the same number of items, in order, each the parsed item (link and whole sub-tree) of the item at the same index, keeping the menu id |
| Utils.ParseMenuItemKeepsShape | app/lib/utils.ts:146-148 | the parsed item has exactly the nested sub-item tree shape of the input |
| Utils.ParseMenuItemKeepsFields | app/lib/utils.ts:150-157 | id, title, url and type are copied unchanged |
| Utils.ParseMenuItemLink | app/lib/utils.ts:129-144 | the item's `to` and `target` are the resolved link of its url |
| Utils.IsDiscounted | app/lib/utils.ts:169-177 | true iff a compare-at price with a non-empty amount is present and strictly above the price |
| Utils.EqualPricesNotDiscounted | app/lib/utils.ts:172 | equal prices are never a discount |
| Utils.SubstringTo | app/lib/utils.ts:188 | `substring(0, n)`: a prefix of length n, a negative n giving the empty string |
| Utils.GetExcerpt | app/lib/utils.ts:185-189 | empty text gives ""; text no longer than the limit is unchanged; longer text is its first `length` characters followed by "...", length + 3 in all |
| Utils.GetExcerptDefault | app/lib/utils.ts:185 | with the default limit 100, a long text becomes its first 100 characters plus "...", 103 characters |
| Utils.ExcerptIdempotent | app/lib/utils.ts:185-189 | an excerpt of an excerpt is the same excerpt |
| Utils.LetterRun | app/lib/utils.ts:234 | the length of the leading run of ASCII letters |
| Utils.IsLocalPath | app/lib/utils.ts:232-238 | false exactly when the string starts with one or more letters (either case) then `:`, or with `//` |
| Utils.SchemeIsLetterRun | app/lib/utils.ts:234 | a scheme match is exactly a non-empty letter run followed by `:` |
| Utils.IsLocalPathRejectsScheme | app/lib/utils.ts:234 | "https://x.io" is not local |
| Utils.IsLocalPathRejectsProtocolRelative | app/lib/utils.ts:234 | "//cdn.io/a.png" is not local |
| Utils.IsLocalPathAccepts | app/lib/utils.ts:234 | "/collections/all" and "a1:b" are local |
| Padding.DigitChar | app/components/CountdownTimer.tsx:63 | a digit below 10 becomes a character between '0' and '9' |
| Padding.ToDecimal | app/components/CountdownTimer.tsx:63 | `toString()` of a natural number: all digits, one digit exactly below 10, two digits below 100 |
| Padding.PadStart2 | app/components/CountdownTimer.tsx:63 | `padStart(2, '0')`: at least two characters, a single character gets one leading '0', longer strings unchanged |
| Padding.TwoDigits | app/components/CountdownTimer.tsx:63 | a displayed field is all digits, at least two of them, exactly two below 100 |
| Padding.ToDecimalRoundTrip | app/components/CountdownTimer.tsx:63 | reading the decimal string back gives the number |
| Padding.LeadingZero | app/components/DropHero.tsx:119 | a leading '0' does not change the value read |
| Padding.TwoDigitsRoundTrip | app/components/CountdownTimer.tsx:63 | the padded field reads back as the number |
| Padding.TwoDigitsExamples | app/components/DropHero.tsx:119-133 | 4 shows as "04", 32 as "32", 0 as "00" |
| CountdownTimer.CalculateTimeLeft | app/components/CountdownTimer.tsx:21-33 | every field in range (hours < 24, minutes and seconds < 60); zero when the target is not in the future; the integer decomposition of the difference otherwise |
| CountdownTimer.SplitSeconds | app/components/CountdownTimer.tsx:26-28 | hours, minutes and seconds of a second count recombine to that count modulo a day |
| CountdownTimer.DivDiv | app/components/CountdownTimer.tsx:26-27 | dividing milliseconds by a minute or an hour equals dividing whole seconds by 60 or 3600 |
| CountdownTimer.TotalIsSecondsOfDay | app/components/CountdownTimer.tsx:26-28 | hours·3600 + minutes·60 + seconds equals (difference div 1000) mod 86400 |
| CountdownTimer.WholeDaysDropped | app/components/CountdownTimer.tsx:26 | moving the target one day later shows the same time |
| CountdownTimer.DecomposeDropsDays | app/components/CountdownTimer.tsx:26 | the decomposition ignores whole days |
| CountdownTimer.TwentyFiveHoursShowsOne | app/components/CountdownTimer.tsx:26-28 | a deadline 25 hours away shows 01:00:00 |
| CountdownTimer.LaterNowShowsNoMore | app/components/CountdownTimer.tsx:22-28 | within a day of the target, a later clock never shows more remaining seconds |
| CountdownTimer.SecondsWithinDay | app/components/CountdownTimer.tsx:22-28 | a smaller difference below one day has no more whole seconds of the day |
| CountdownTimer.OneSecondLater | app/components/CountdownTimer.tsx:28 | one second later the seconds field drops by one, unless it was 0 |
| CountdownTimer.Display | app/components/CountdownTimer.tsx:63 | three fields of exactly two characters each |
| CountdownTimer.DisplayReadsBack | app/components/CountdownTimer.tsx:63 | each displayed field reads back as the stored value |
| CountdownTimer.Countdown.constructor | app/components/CountdownTimer.tsx:13-18 | starts at 00:00:00 with prevSeconds 0 |
| CountdownTimer.Countdown.RunEffect | app/components/CountdownTimer.tsx:41 | the effect recomputes the time left from target and clock, not from the previous value |
| CountdownTimer.Countdown.Tick | app/components/CountdownTimer.tsx:35-39 | a tick records the previous seconds and recomputes from target and clock |
| CountdownTimer.Countdown.ChangeTarget | app/components/CountdownTimer.tsx:41-44 | a new target is recomputed from at once |
| CountdownTimer.Countdown.Shown | app/components/CountdownTimer.tsx:63 | three two-character fields |
| DropHero.Decompose | app/components/DropHero.tsx:52-56 | for a positive difference: h = (d mod 86400000) div 3600000, m = (d mod 3600000) div 60000, s = (d mod 60000) div 1000, each in range |
| DropHero.AgreesWithCountdownTimer | app/components/DropHero.tsx:52-56 | for every positive difference the hero's fields equal CountdownTimer's |
| DropHero.ChooseDeadline | app/components/DropHero.tsx:29-41 | tonight's 23:59:59 unless the clock is past it, then one day later; the deadline is at most a day ahead and not in the past |
| DropHero.Hero.constructor | app/components/DropHero.tsx:6-10 | starts running and showing the hard-coded 04:32:12, with the chosen deadline |
| DropHero.Hero.Tick | app/components/DropHero.tsx:43-59 | a stopped timer ignores ticks; a non-positive difference stops it and keeps the shown time; otherwise the shown time is the decomposition |
| DropHero.Hero.Shown | app/components/DropHero.tsx:119-133 | three two-character fields |
| DropHero.Render | app/components/DropHero.tsx:25 | without a product the mock product is shown; the link is "/products/" + handle; the original price shows iff present; the badge is "SAVE 75%" |
| DropHero.SaveBadgeIgnoresPrices | app/components/DropHero.tsx:107-109 | the badge is the same for every product |
| DropHero.MockDiscountIsNotSeventyFive | app/components/DropHero.tsx:18-20 | the mock prices 190 against 1500 are an 87% markdown |
| StockBar.BelowThreshold | app/components/StockBar.tsx:9 | percentage below a threshold iff remaining·100 < threshold·total |
| StockBar.FlagsIff | app/components/StockBar.tsx:9-11 | isCritical iff remaining·100 < 15·total; isLow iff remaining·100 < 30·total |
| StockBar.CriticalImpliesLow | app/components/StockBar.tsx:10-11 | critical stock is also low |
| StockBar.Classify | app/components/StockBar.tsx:9-11 | exactly one urgency level, each characterised in integers |
| StockBar.UrgencyMonotone | app/components/StockBar.tsx:9-11 | less stock of the same total never lowers urgency |
| StockBar.ClassifyExamples | app/components/StockBar.tsx:9-11 | 23 of 100 is low, 10 of 100 is critical |
| StockBar.Label | app/components/StockBar.tsx:35 | "Almost Gone!", "Selling Fast!" or "In Stock", each exactly for its urgency |
| StockBar.Warning | app/components/StockBar.tsx:59-64 | a warning line iff low; the "less than 15%" text iff critical |
| StockBar.BarWidth | app/components/StockBar.tsx:52 | the raw percentage: width · total = remaining · 100, unclamped, so above 100 when more remains than the total |
| StockBar.BarWidthBounds | app/components/StockBar.tsx:52 | between 0 and 100 for 0 <= remaining <= total, above 100 otherwise |
| DealCard.StatusBadge | app/components/DealCard.tsx:31-56 | one of LIVE, Upcoming, Expired, Sold Out |
| DealCard.StatusBadgeInjective | app/components/DealCard.tsx:31-56 | each status has its own badge |
| DealCard.LinkTo | app/components/DealCard.tsx:59 | "/products/" + handle for a non-empty handle, otherwise "/deal/" + id |
| DealCard.LinkKindsDistinct | app/components/DealCard.tsx:59 | the link is a product link exactly when a handle was given |
| DealCard.Render | app/components/DealCard.tsx:29-64 | unguarded discount, status badge, dimmed iff expired or sold out, the link; the discount badge is unconditional |
| DealCard.DiscountAtZeroMrp | app/components/DealCard.tsx:29 | a zero list price gives NaN or -Infinity |
| DealCard.DiscountAboveMrp | app/components/DealCard.tsx:29 | a deal price above the list price gives a non-positive, possibly negative, discount |
| ProductCard.Discount | app/components/ProductCard.tsx:32-35 | 0 without a compare-at price or when it is not above the price; otherwise the rounded percentage, always in [0, 100] |
| ProductCard.TinyMarkdownShowsNoBadge | app/components/ProductCard.tsx:90-97 | 9999 against 10000 is discounted but rounds to 0, so no badge |
| ProductCard.AgreesWithDealCard | app/components/ProductCard.tsx:34-35 | for mrp > dealPrice >= 0 the guarded and unguarded discounts agree |
| ProductCard.StatusOf | app/components/ProductCard.tsx:38-39 | sold out iff the variant is not available, live otherwise |
| ProductCard.Render | app/components/ProductCard.tsx:21-63 | nothing without variant nodes; otherwise first variant's status and discount, badge iff discount > 0, dimmed iff sold out, link to the product's handle |
| ProductCard.StatusIsLiveOrSoldOut | app/components/ProductCard.tsx:38-39 | never upcoming or expired |
| ProductCard.BadgeImpliesDiscounted | app/components/ProductCard.tsx:90 | a visible badge means `isDiscounted` holds |
| PriceDisplay.Render | app/components/PriceDisplay.tsx:14-17 | savings is exactly mrp − dealPrice (negative above the list price); the discount is DealCard's formula |
| PriceDisplay.DiscountInRange | app/components/PriceDisplay.tsx:14 | for a genuine markdown the discount is in [0, 100], 0 at equal prices |
| PriceDisplay.HomePageExample | app/components/PriceDisplay.tsx:14-15 | 12999 and 7999 show 38% OFF and savings 5000 |
| PriceDisplay.SizeIsStylingOnly | app/components/PriceDisplay.tsx:17 | size changes neither figure |
| PriceDisplay.SameDiscountAsDealCard | app/components/PriceDisplay.tsx:14 | the same discount as the deal card for the same prices |
| StickyBuyBar.AmountOrZero | app/components/StickyBuyBar.tsx:47-48 | a missing or empty amount counts as 0 |
| StickyBuyBar.SaveFigure | app/components/StickyBuyBar.tsx:44-51 | the compare-at price minus the price in currency units, rounded to the nearest integer with halves away from zero, for positive and negative differences; negative without a compare-at price once the price is at least 0.50 |
| StickyBuyBar.SavePercent | app/components/StickyBuyBar.tsx:44-51 | the percentage the line evidently means, in [0, 100] |
| StickyBuyBar.SaveFigureIsNotAPercentage | app/components/StickyBuyBar.tsx:44-51 | 129.99 against 79.99 prints 50 where the saving is 38% |
| StickyBuyBar.NoCompareAtShowsNegativeSaving | app/components/StickyBuyBar.tsx:47 | without a compare-at price, 79.99 prints -80 |
| StickyBuyBar.BuyNowInputs | app/components/StickyBuyBar.tsx:53-55 | exactly one line, quantity 1, for the selected variant, redirecting to "/checkout" |
| StickyBuyBar.BuyNowNeverOpensCart | app/components/StickyBuyBar.tsx:53-55 | Buy Now never opens the cart drawer |
| StickyBuyBar.Bar.constructor | app/components/StickyBuyBar.tsx:10 | starts hidden |
| StickyBuyBar.Bar.HandleScroll | app/components/StickyBuyBar.tsx:14-20 | visible iff scrolled strictly past 600 |
| StickyBuyBar.Bar.View | app/components/StickyBuyBar.tsx:26-55 | nothing when hidden or without a price; otherwise prices, the Save figure and the Buy Now inputs |
| Aside.AsideProvider.constructor | app/components/Aside.tsx:15 | starts closed |
| Aside.AsideProvider.Open | app/components/Aside.tsx:17 | the drawer becomes the given mode; open iff that mode is not closed |
| Aside.AsideProvider.Close | app/components/Aside.tsx:18 | closed, and not open |
| Aside.After | app/components/Aside.tsx:17-18 | a call leaves its own mode (closed for close) whatever was open before |
| Aside.LastCallWins | app/components/Aside.tsx:17-18 | after any non-empty sequence of calls only the last one decides the state |
| Aside.AsideHandle.constructor | app/components/Aside.tsx:29-40 | wraps the mounted provider, or none |
| Aside.AsideHandle.Kind | app/components/Aside.tsx:31-40 | the provider's state, or closed without a provider |
| Aside.AsideHandle.Open | app/components/Aside.tsx:33-38 | forwards to the provider; without one nothing changes and it stays closed |
| Aside.AsideHandle.Close | app/components/Aside.tsx:33-38 | closed afterwards, with or without a provider |
| NewsletterForm.StatusText | app/components/NewsletterForm.tsx:8 | the stored status is never the empty string |
| NewsletterForm.Form.constructor | app/components/NewsletterForm.tsx:7-8 | idle with an empty address |
| NewsletterForm.Form.ChangeEmail | app/components/NewsletterForm.tsx:51 | the address is replaced while idle |
| NewsletterForm.Form.Submit | app/components/NewsletterForm.tsx:10-22 | a non-empty address moves to submitting with the reply pending; an empty one is blocked by `required` |
| NewsletterForm.Form.TimerFires | app/components/NewsletterForm.tsx:18-21 | the reply moves to success and clears the address |
| NewsletterForm.Form.Reset | app/components/NewsletterForm.tsx:35 | back to idle |
| NewsletterForm.Form.ButtonLabel | app/components/NewsletterForm.tsx:61 | "Joining..." exactly while submitting, "Join Drop Club" otherwise |
| NewsletterForm.ArrowNeverShown | app/components/NewsletterForm.tsx:62 | the arrow never renders |
| NewsletterForm.ArrowMissingWhenIdle | app/components/NewsletterForm.tsx:62 | even the idle form, where the arrow belongs, has none |
| NewsletterForm.IntendedArrowNotWhileJoining | app/components/NewsletterForm.tsx:53-62 | with the idle condition the arrow never meets the disabled "Joining..." button |
| NewsletterForm.SubscribeOnce | app/components/NewsletterForm.tsx:10-35 | type, submit, reply and reset return the form to an empty idle state |
| AddToCartButton.Inputs | app/components/AddToCartButton.tsx:28-31 | the lines unchanged, and redirectTo only when it is a non-empty string |
| AddToCartButton.HiddenRedirect | app/components/AddToCartButton.tsx:51-53 | the hidden field appears under the same condition as the input |
| AddToCartButton.Decide | app/components/AddToCartButton.tsx:38-47 | navigate to checkoutUrl iff idle with data carrying one; open the cart iff idle with data, no checkoutUrl and no redirectTo; otherwise nothing |
| AddToCartButton.NothingUntilSettled | app/components/AddToCartButton.tsx:39 | while busy or without data nothing happens |
| AddToCartButton.RedirectNeverOpensCart | app/components/AddToCartButton.tsx:42 | a redirecting button never opens the cart |
| AddToCartButton.RunEffect | app/components/AddToCartButton.tsx:38-47 | returns the URL to navigate to exactly for a navigation; opens the cart drawer through the context exactly for `open('cart')`, and leaves it alone otherwise |
| AddToCartButton.Disabled | app/components/AddToCartButton.tsx:60 | the explicit prop when given, else busy means disabled |

## Findings

| source | as written | input that shows it | evidently intended | confidence | as-written member | corrected member |
|---|---|---|---|---|---|---|
| app/components/StickyBuyBar.tsx:44-51 | "Save N%" prints compare-at price minus price in currency units | 129.99 vs 79.99 prints "Save 50%"; the markdown is 38% | the percentage off, as on the product card | high, not executed | StickyBuyBar.SaveFigureIsNotAPercentage | StickyBuyBar.SavePercent |
| app/components/NewsletterForm.tsx:62 | the arrow is guarded by `!status`, which is false for every status string | the idle form shows no arrow | show the arrow on the idle button | medium, not executed | NewsletterForm.ArrowMissingWhenIdle | NewsletterForm.IntendedArrowNotWhileJoining |
| app/components/DealCard.tsx:29 | discount computed with no guard | mrp 0 gives NaN% or -Infinity%; a deal price above mrp gives a negative percentage | guard as on the product card: 0 unless mrp > dealPrice | medium, not executed | DealCard.DiscountAtZeroMrp | ProductCard.Discount |

## Left out

- IEEE-754 arithmetic is not modelled. Amounts are exact, so rounding artefacts of binary floating point and amounts too large for a double are out of scope.
- Unparsable non-empty amount strings are not modelled. An amount is either empty or a well-formed decimal.
- The text shown by `Money`, `toLocaleString('en-IN')` and `parseAsCurrency`'s `Intl.NumberFormat` is left out, as are the `-0` that `toFixed(0)` prints for small negative values and the `NaN%`/`-Infinity%` renderings.
- `Date` is abstracted away: local midnight, time zones and the calendar rollover of `setDate`. DropHero.ChooseDeadline takes tonight's 23:59:59 as an input timestamp and models "one day later" as 86 400 000 ms.
- `setInterval`, `clearInterval`, `setTimeout`, scroll listeners and React effect scheduling are not modelled. Each tick or event is one method call. Only `useEffect`'s dependency on `timeLeft.seconds` is reflected, through `Countdown.ChangeTarget` and `Countdown.RunEffect`.
- Utils.MissingClass: the prefix is taken literally. A prefix containing one of the regular-expression metacharacters `\ ^ $ . | ? * + ( ) [ ] { }` is excluded by its precondition, because the pattern would then not match the text literally. `/` and every other character are allowed.
- `toUpperCase` is modelled on ASCII letters only, and string lengths count characters rather than UTF-16 code units.
- The `URL` class (parsing and hostnames) is a parameter of Utils.ResolveLink and Utils.ParseMenu. `new URL(primaryDomain)` failing is modelled as a parse that yields no host.
- The browser's e-mail format check on the newsletter input is left out. Only the `required` attribute is modelled.
- Markup, CSS classes, images and icons are left out. Each component's view records only the choices stated above.
- The following operations are not modelled, because they hold no logic to prove or wrap libraries: `cn` and `getInputStyleClasses`, `formatText`, `usePrefixPathWithLocale`, `useIsHomePath`, `isNewArrival` (wall clock) and `statusMessage` (a fixed lookup table).
- The Hydrogen and Remix wrappers `Money`, `Image`, `CartForm`, `flattenConnection` and `useLocation` are not modelled, and neither are the cart mutation and network calls.
- `app/lib/placeholders` is not part of this model. ProductCard.Render takes the placeholder product as a parameter.
- `app/components/ProductCard.tsx` lacks its function header at line 11. The model follows the evident `ProductCard({product, ...})` component.
- `window.location.href` assignment is modelled as the URL that AddToCartButton.RunEffect returns.
