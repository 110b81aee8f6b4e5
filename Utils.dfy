/**
 * The string and path helpers of app/lib/utils.ts: `missingClass`,
 * `getLocaleFromRequest`, `parseMenu`/`parseMenuItem`, `isDiscounted`,
 * `getExcerpt` and `isLocalPath`. Strings are sequences of characters; the
 * URL parser is a parameter.
 */
module Utils {
  import opened Wrappers
  import opened Pricing

  // ---------------------------------------------------------------------------
  // Substring search (the regular expression of missingClass, String.includes)
  // ---------------------------------------------------------------------------

  /** `p` occurs in `s` starting at index `i`. */
  predicate OccursAt(s: string, p: string, i: nat)
  {
    i + |p| <= |s| && s[i..i + |p|] == p
  }

  /** The first index at or after `from` where `p` occurs in `s`, found by a left-to-right scan. */
  function IndexOfFrom(s: string, p: string, from: nat): (r: Option<nat>)
    decreases |s| - from
    ensures r.Some? ==> from <= r.value && OccursAt(s, p, r.value)
    ensures r.Some? ==> forall i :: from <= i < r.value ==> !OccursAt(s, p, i)
    ensures r.None? ==> forall i :: from <= i ==> !OccursAt(s, p, i)
  {
    if from + |p| > |s| then None
    else if s[from..from + |p|] == p then Some(from)
    else IndexOfFrom(s, p, from + 1)
  }

  /** `s.includes(p)`. */
  predicate Includes(s: string, p: string)
  {
    IndexOfFrom(s, p, 0).Some?
  }

  /** `Includes` holds exactly when `p` occurs somewhere in `s`. */
  lemma IncludesIff(s: string, p: string)
    ensures Includes(s, p) <==> exists i: nat :: OccursAt(s, p, i)
  {
    if Includes(s, p) {
      var i := IndexOfFrom(s, p, 0).value;
      assert OccursAt(s, p, i);
    }
  }

  // ---------------------------------------------------------------------------
  // missingClass
  // ---------------------------------------------------------------------------

  /** Characters with a special meaning in a JavaScript regular expression. */
  predicate IsRegexMeta(c: char)
  {
    c in "\\^$.|?*+()[]{}"
  }

  /** A prefix that the pattern `` ` ?${prefix}` `` matches literally. */
  predicate LiteralPattern(p: string)
  {
    forall i :: 0 <= i < |p| ==> !IsRegexMeta(p[i])
  }

  /** What the template literal `${prefix}` produces: an absent prefix prints as "undefined". */
  function PrefixText(prefix: Option<string>): string
  {
    prefix.GetOr("undefined")
  }

  /**
   * `missingClass(string, prefix)`: true for an absent or empty class string,
   * otherwise true exactly when `/ ?prefix/g` finds no match, that is, when the
   * prefix does not occur in the string (the optional space never decides
   * whether there is a match).
   */
  function MissingClass(str: Option<string>, prefix: Option<string>): (r: bool)
    requires prefix.Some? ==> LiteralPattern(prefix.value)
    ensures str.None? || str.value == "" ==> r
    ensures str.Some? && str.value != "" ==>
      (r <==> forall i: nat :: !OccursAt(str.value, PrefixText(prefix), i))
  {
    IncludesIff(str.GetOr(""), PrefixText(prefix));
    if str.None? || str.value == "" then true
    else !Includes(str.value, PrefixText(prefix))
  }

  /** A class list that already carries the prefix is not missing it, and an empty prefix is never missing. */
  lemma MissingClassExamples()
    ensures !MissingClass(Some("flex w-full"), Some("w-"))
    ensures MissingClass(Some("flex"), Some("w-"))
    ensures MissingClass(Some(""), Some("w-"))
    ensures !MissingClass(Some("flex"), Some(""))
    ensures !MissingClass(Some("is undefined"), None)
  {
    assert OccursAt("flex w-full", "w-", 5);
    forall i: nat ensures !OccursAt("flex", "w-", i) {
      if i + 2 <= 4 { assert "flex"[i] != 'w'; }
    }
    assert OccursAt("flex", "", 0);
    assert OccursAt("is undefined", "undefined", 3);
  }

  // ---------------------------------------------------------------------------
  // getLocaleFromRequest
  // ---------------------------------------------------------------------------

  datatype Locale = Locale(language: string, country: string, displayName: string, pathPrefix: string)

  const DEFAULT_LOCALE := Locale("EN", "US", "English (US)", "")
  const GERMAN_LOCALE := Locale("DE", "DE", "German (DE)", "/de")

  /** The text after the first '/' of `s`, or `None` when `s` has no '/'. */
  function AfterFirstSlash(s: string): (r: Option<string>)
    ensures r.Some? ==> exists k :: 0 <= k < |s| && s[k] == '/' && '/' !in s[..k] && r.value == s[k + 1..]
    ensures r.None? <==> '/' !in s
  {
    if s == [] then None
    else if s[0] == '/' then Some(s[1..])
    else
      var r := AfterFirstSlash(s[1..]);
      assert r.Some? ==> exists k :: 0 <= k < |s| && s[k] == '/' && '/' !in s[..k] && r.value == s[k + 1..] by {
        if r.Some? {
          var k :| 0 <= k < |s[1..]| && s[1..][k] == '/' && '/' !in s[1..][..k] && r.value == s[1..][k + 1..];
          assert s[..k + 1] == [s[0]] + s[1..][..k];
          assert s[k + 1] == '/' && '/' !in s[..k + 1] && r.value == s[k + 2..];
        }
      }
      r
  }

  /** The text of `s` up to (not including) its first '/'. */
  function UpToSlash(s: string): (r: string)
    ensures '/' !in r
    ensures r <= s
    ensures |r| < |s| ==> s[|r|] == '/'
  {
    if s == [] || s[0] == '/' then []
    else [s[0]] + UpToSlash(s[1..])
  }

  /** `pathname.split('/')[1]`: the field between the first and second '/'. */
  function SecondField(pathname: string): Option<string>
  {
    match AfterFirstSlash(pathname)
    case None => None
    case Some(rest) => Some(UpToSlash(rest))
  }

  /** `toUpperCase` on ASCII letters; other characters are kept. */
  function UpperAscii(c: char): char
  {
    if 'a' <= c <= 'z' then (c as int - 32) as char else c
  }

  function ToUpper(s: string): (r: string)
    ensures |r| == |s|
    ensures forall i :: 0 <= i < |s| ==> r[i] == UpperAscii(s[i])
  {
    if s == [] then [] else [UpperAscii(s[0])] + ToUpper(s[1..])
  }

  /**
   * `getLocaleFromRequest`, given the request URL's pathname: German when the
   * first path segment, uppercased, is "DE"; the default locale otherwise.
   */
  function LocaleFromPath(pathname: string): (r: Locale)
    ensures r == GERMAN_LOCALE || r == DEFAULT_LOCALE
    ensures r == GERMAN_LOCALE <==> IsGermanSegment(SecondField(pathname).GetOr(""))
  {
    var firstPathPart := ToUpper(SecondField(pathname).GetOr(""));
    UpperIsDE(SecondField(pathname).GetOr(""));
    if firstPathPart == "DE" then GERMAN_LOCALE else DEFAULT_LOCALE
  }

  /** A path segment that uppercases to "DE": "de", "dE", "De" or "DE". */
  predicate IsGermanSegment(seg: string)
  {
    |seg| == 2 && seg[0] in "dD" && seg[1] in "eE"
  }

  lemma UpperIsDE(seg: string)
    ensures ToUpper(seg) == "DE" <==> IsGermanSegment(seg)
  {
    if ToUpper(seg) == "DE" {
      assert UpperAscii(seg[0]) == 'D' && UpperAscii(seg[1]) == 'E';
    }
    if IsGermanSegment(seg) {
      assert ToUpper(seg) == [UpperAscii(seg[0]), UpperAscii(seg[1])];
    }
  }

  /** For a URL pathname "/seg/rest…" the tested segment is `seg`. */
  lemma {:induction false} SegmentOfPath(seg: string, rest: string)
    requires '/' !in seg
    ensures SecondField("/" + seg + rest) == Some(UpToSlash(seg + rest))
    ensures rest == [] || rest[0] == '/' ==> SecondField("/" + seg + rest) == Some(seg)
  {
    assert ("/" + seg + rest)[0] == '/';
    assert ("/" + seg + rest)[1..] == seg + rest;
    if rest == [] || rest[0] == '/' {
      UpToSlashStopsAtSlash(seg, rest);
    }
  }

  lemma {:induction false} UpToSlashStopsAtSlash(seg: string, rest: string)
    requires '/' !in seg
    requires rest == [] || rest[0] == '/'
    ensures UpToSlash(seg + rest) == seg
  {
    if seg == [] {
      assert seg + rest == rest;
    } else {
      assert (seg + rest)[1..] == seg[1..] + rest;
      UpToSlashStopsAtSlash(seg[1..], rest);
    }
  }

  /** The root path has an empty first segment: default locale. */
  lemma LocaleOfRoot()
    ensures LocaleFromPath("/") == DEFAULT_LOCALE
  {
    SegmentOfPath("", "");
    assert "/" + "" + "" == "/";
  }

  /** "/de", "/de/…" select German, whatever follows the segment. */
  lemma LocaleOfGermanPath(rest: string)
    requires rest == [] || rest[0] == '/'
    ensures LocaleFromPath("/de" + rest) == GERMAN_LOCALE
  {
    SegmentOfPath("de", rest);
    assert "/" + "de" + rest == "/de" + rest;
    assert IsGermanSegment("de");
  }

  /** "/deals" merely starts with "de": default locale. */
  lemma LocaleOfDealsPath()
    ensures LocaleFromPath("/deals") == DEFAULT_LOCALE
  {
    SegmentOfPath("deals", "");
    assert "/" + "deals" + "" == "/deals";
    assert !IsGermanSegment("deals");
  }

  // ---------------------------------------------------------------------------
  // parseMenu / parseMenuItem
  // ---------------------------------------------------------------------------

  /** The two parts of a parsed absolute URL that parseMenuItem reads. */
  datatype UrlParts = UrlParts(hostname: string, pathname: string)

  /** A menu item as the storefront API returns it; `items` may be missing. */
  datatype MenuItem = MenuItem(id: string, title: string, url: Option<string>, itemType: string,
                               items: SubItems)

  /** The `items` of a menu item: missing (`item.items` is undefined) or a list. */
  datatype SubItems = Missing | Items(list: seq<MenuItem>)

  /** A menu item with its link target (`to`) and window (`target`) resolved. */
  datatype EnhancedItem = EnhancedItem(id: string, title: string, url: Option<string>, itemType: string,
                                       to: Option<string>, target: string, items: seq<EnhancedItem>)

  datatype Menu = Menu(id: string, items: Option<seq<MenuItem>>)

  /** The parsed menu: when the input menu was absent its fields are absent too. */
  datatype EnhancedMenu = EnhancedMenu(id: Option<string>, items: seq<EnhancedItem>)

  /**
   * The link of one item. `parseUrl` is `new URL(…)` (None: it throws);
   * `primaryHost` is the hostname of `new URL(primaryDomain)` (None: it throws).
   * Once the item URL parses, `to` is already its pathname when the primary
   * domain is parsed, so a throwing primary domain leaves the pathname.
   */
  function ResolveLink(url: Option<string>, parseUrl: string -> Option<UrlParts>,
                       primaryHost: Option<string>): (link: (string, Option<string>))
    ensures var parsed := if url.Some? then parseUrl(url.value) else None;
      && (link.0 == "_blank" || link.0 == "_self")
      && (link.0 == "_blank" <==>
            parsed.Some? && primaryHost.Some? && parsed.value.hostname != primaryHost.value
            && forall i: nat :: !OccursAt(parsed.value.hostname, "myshopify", i))
      && (link.0 == "_blank" ==> link.1 == url)
      && (parsed.None? ==> link == ("_self", url))
      && (parsed.Some? && link.0 == "_self" ==> link.1 == Some(parsed.value.pathname))
  {
    var parsed := if url.Some? then parseUrl(url.value) else None;
    match parsed
    case None => ("_self", url)
    case Some(u) =>
      IncludesIff(u.hostname, "myshopify");
      match primaryHost
      case None => ("_self", Some(u.pathname))
      case Some(host) =>
        if u.hostname != host && !Includes(u.hostname, "myshopify") then ("_blank", url)
        else ("_self", Some(u.pathname))
  }

  /** `parseMenuItem`: resolves the item's link, then its sub-items in order. */
  function ParseMenuItem(item: MenuItem, parseUrl: string -> Option<UrlParts>,
                         primaryHost: Option<string>): (r: EnhancedItem)
    decreases item
  {
    var (target, to) := ResolveLink(item.url, parseUrl, primaryHost);
    var subItems := match item.items
      case Missing => []
      case Items(subs) =>
        seq(|subs|, i requires 0 <= i < |subs| => ParseMenuItem(subs[i], parseUrl, primaryHost));
    EnhancedItem(item.id, item.title, item.url, item.itemType, to, target, subItems)
  }

  /** `parseMenu`: an absent menu or absent items give no items; otherwise every item is parsed in order. */
  function ParseMenu(menu: Option<Menu>, parseUrl: string -> Option<UrlParts>,
                     primaryHost: Option<string>): (r: EnhancedMenu)
    ensures menu.None? || menu.value.items.None? ==> r.items == []
    ensures menu.Some? ==> r.id == Some(menu.value.id)
    ensures menu.Some? && menu.value.items.Some? ==>
      |r.items| == |menu.value.items.value| &&
      forall i :: 0 <= i < |r.items| ==> r.items[i] == ParseMenuItem(menu.value.items.value[i], parseUrl, primaryHost)
  {
    match menu
    case None => EnhancedMenu(None, [])
    case Some(m) =>
      match m.items
      case None => EnhancedMenu(Some(m.id), [])
      case Some(items) =>
        EnhancedMenu(Some(m.id), seq(|items|, i requires 0 <= i < |items| => ParseMenuItem(items[i], parseUrl, primaryHost)))
  }

  /** A menu tree with its data erased: only the nesting of items. */
  datatype Shape = Node(children: seq<Shape>)

  function ItemShape(item: MenuItem): Shape
    decreases item
  {
    match item.items
    case Missing => Node([])
    case Items(subs) => Node(seq(|subs|, i requires 0 <= i < |subs| => ItemShape(subs[i])))
  }

  function EnhancedShape(item: EnhancedItem): Shape
    decreases item
  {
    Node(seq(|item.items|, i requires 0 <= i < |item.items| => EnhancedShape(item.items[i])))
  }

  /** parseMenuItem keeps the whole sub-item tree: same nesting, same order, same count at every level. */
  lemma {:induction false} ParseMenuItemKeepsShape(item: MenuItem, parseUrl: string -> Option<UrlParts>,
                                                   primaryHost: Option<string>)
    decreases item
    ensures EnhancedShape(ParseMenuItem(item, parseUrl, primaryHost)) == ItemShape(item)
  {
    var r := ParseMenuItem(item, parseUrl, primaryHost);
    match item.items
    case Missing =>
    case Items(subs) =>
      forall i | 0 <= i < |subs|
        ensures EnhancedShape(r.items[i]) == ItemShape(subs[i])
      {
        ParseMenuItemKeepsShape(subs[i], parseUrl, primaryHost);
      }
      assert EnhancedShape(r).children == ItemShape(item).children;
  }

  /** parseMenuItem copies the item's own fields unchanged. */
  lemma ParseMenuItemKeepsFields(item: MenuItem, parseUrl: string -> Option<UrlParts>,
                                 primaryHost: Option<string>)
    ensures var r := ParseMenuItem(item, parseUrl, primaryHost);
      r.id == item.id && r.title == item.title && r.url == item.url && r.itemType == item.itemType
  {
  }

  /**
   * An item opens in a new window, keeping its full URL, exactly when its URL
   * parses, the primary domain parses, and the hosts differ with no
   * "myshopify" in the item's host. A parsed URL that stays on site is reduced
   * to its pathname; an unparsable or missing URL is kept as it is.
   */
  lemma ParseMenuItemLink(item: MenuItem, parseUrl: string -> Option<UrlParts>, primaryHost: Option<string>)
    ensures var r := ParseMenuItem(item, parseUrl, primaryHost);
      var parsed := if item.url.Some? then parseUrl(item.url.value) else None;
      && (r.target == "_blank" || r.target == "_self")
      && (r.target == "_blank" <==>
            parsed.Some? && primaryHost.Some? && parsed.value.hostname != primaryHost.value
            && forall i: nat :: !OccursAt(parsed.value.hostname, "myshopify", i))
      && (r.target == "_blank" ==> r.to == item.url)
      && (parsed.None? ==> r.to == item.url && r.target == "_self")
      && (parsed.Some? && r.target == "_self" ==> r.to == Some(parsed.value.pathname))
  {
    var parsed := if item.url.Some? then parseUrl(item.url.value) else None;
    if parsed.Some? {
      IncludesIff(parsed.value.hostname, "myshopify");
    }
  }

  // ---------------------------------------------------------------------------
  // isDiscounted
  // ---------------------------------------------------------------------------

  /**
   * `isDiscounted(price, compareAtPrice)`: the compare-at amount must be a
   * non-empty string, and its value must exceed the price (a NaN on either
   * side makes the comparison false).
   */
  function IsDiscounted(price: Amount, compareAtPrice: Option<Amount>): (r: bool)
    ensures r <==> compareAtPrice.Some? && compareAtPrice.value.Decimal? && price.Decimal?
                   && compareAtPrice.value.minor > price.minor
  {
    compareAtPrice.Some? && !compareAtPrice.value.Blank?
    && Greater(ParseAmount(compareAtPrice.value), ParseAmount(price))
  }

  /** Equal prices are not a discount, whatever the amount. */
  lemma EqualPricesNotDiscounted(v: nat)
    ensures !IsDiscounted(Decimal(v), Some(Decimal(v)))
  {
  }

  // ---------------------------------------------------------------------------
  // getExcerpt
  // ---------------------------------------------------------------------------

  /** `text.substring(0, n)` for `n <= |text|`: a negative end is treated as 0. */
  function SubstringTo(text: string, n: int): (r: string)
    requires n <= |text|
    ensures |r| == if n < 0 then 0 else n
    ensures r <= text
  {
    if n < 0 then [] else text[..n]
  }

  /**
   * `getExcerpt(text, length)`: the empty string stays empty, a text of at most
   * `length` characters is returned whole, and a longer one is cut to its
   * first `length` characters followed by "...".
   */
  function GetExcerpt(text: string, length: int): (r: string)
    ensures text == "" ==> r == ""
    ensures text != "" && |text| <= length ==> r == text
    ensures |text| > length && text != "" ==>
      var n := if length < 0 then 0 else length;
      |r| == n + 3 && r[..n] == text[..n] && r[n..] == "..."
  {
    if text == "" then ""
    else if |text| <= length then text
    else SubstringTo(text, length) + "..."
  }

  /** `getExcerpt(text)` with the default length of 100. */
  function GetExcerptDefault(text: string): (r: string)
    ensures |text| <= 100 ==> r == text
    ensures |text| > 100 ==> |r| == 103 && r[..100] == text[..100]
  {
    GetExcerpt(text, 100)
  }

  /** Cutting an excerpt again with the same length changes nothing. */
  lemma ExcerptIdempotent(text: string, length: int)
    requires length >= 0
    ensures GetExcerpt(GetExcerpt(text, length), length) == GetExcerpt(text, length)
  {
    var r := GetExcerpt(text, length);
    if text != "" && |text| > length {
      assert r[..length] + "..." == r;
    }
  }

  // ---------------------------------------------------------------------------
  // isLocalPath
  // ---------------------------------------------------------------------------

  /** The letters `[a-z]` matches under the case-insensitive flag. */
  predicate IsAsciiLetter(c: char)
  {
    'a' <= c <= 'z' || 'A' <= c <= 'Z'
  }

  /** The length of the run of letters at the start of `s`. */
  function LetterRun(s: string): (k: nat)
    ensures k <= |s|
    ensures forall i :: 0 <= i < k ==> IsAsciiLetter(s[i])
    ensures k < |s| ==> !IsAsciiLetter(s[k])
  {
    if s != [] && IsAsciiLetter(s[0]) then 1 + LetterRun(s[1..]) else 0
  }

  /** The language of `^([a-z]+:|//)` with flag `i`: one or more letters then ':', or "//". */
  ghost predicate MatchesSchemeOrProtocolRelative(url: string)
  {
    (exists k :: 0 < k < |url| && url[k] == ':' && forall i :: 0 <= i < k ==> IsAsciiLetter(url[i]))
    || (|url| >= 2 && url[0] == '/' && url[1] == '/')
  }

  /**
   * `isLocalPath(url)`: false exactly when the URL starts with a scheme
   * ("https:", "MAILTO:") or with "//". The `RegExp` constructor is given a
   * constant pattern and never throws, so the catch branch is not reachable.
   */
  function IsLocalPath(url: string): (r: bool)
    ensures r <==> !MatchesSchemeOrProtocolRelative(url)
  {
    var k := LetterRun(url);
    SchemeIsLetterRun(url);
    !((0 < k < |url| && url[k] == ':') || (|url| >= 2 && url[..2] == "//"))
  }

  /** A scheme is the maximal run of leading letters, followed by ':'. */
  lemma SchemeIsLetterRun(url: string)
    ensures var k := LetterRun(url);
      (exists j :: 0 < j < |url| && url[j] == ':' && forall i :: 0 <= i < j ==> IsAsciiLetter(url[i]))
      <==> (0 < k < |url| && url[k] == ':')
  {
    var k := LetterRun(url);
    if exists j :: 0 < j < |url| && url[j] == ':' && forall i :: 0 <= i < j ==> IsAsciiLetter(url[i]) {
      var j :| 0 < j < |url| && url[j] == ':' && forall i :: 0 <= i < j ==> IsAsciiLetter(url[i]);
      assert !IsAsciiLetter(url[j]);
      assert k == j;
    }
  }

  /** An absolute URL is not local. */
  lemma IsLocalPathRejectsScheme()
    ensures !IsLocalPath("https://x.io")
  {
    var url := "https://x.io";
    assert url[5] == ':' && forall i :: 0 <= i < 5 ==> IsAsciiLetter(url[i]);
    assert MatchesSchemeOrProtocolRelative(url);
  }

  /** A protocol-relative URL is not local. */
  lemma IsLocalPathRejectsProtocolRelative()
    ensures !IsLocalPath("//cdn.io/a.png")
  {
    var url := "//cdn.io/a.png";
    assert url[0] == '/' && url[1] == '/';
    assert MatchesSchemeOrProtocolRelative(url);
  }

  /** A path, or a colon after a non-letter, is local. */
  lemma IsLocalPathAccepts()
    ensures IsLocalPath("/collections/all")
    ensures IsLocalPath("a1:b")
  {
    assert LetterRun("/collections/all") == 0;
    assert LetterRun("a1:b") == 1;
  }
}
