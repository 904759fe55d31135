/**
 * The listing-page extractor: turns a saved eBay listing page into a
 * `ParsedListingData`. Every field is found by trying a fixed list of CSS
 * selectors in order and keeping the first candidate that passes the field's
 * validity test, followed by a field-specific fallback.
 *
 * The page is given already parsed: `query(sel)` is what `querySelector(sel)`
 * returns and `queryAll(sel)` is what `querySelectorAll(sel)` returns for the
 * item-specifics containers, each container reduced to the four element shapes
 * that the specifics matchers look at.
 */
module HtmlParser {
  import opened Text
  import opened Types

  // ---------------------------------------------------------------------------
  // The parsed page

  /** An element found by `querySelector`: its `textContent` and `innerHTML`. */
  datatype Node = Node(textContent: string, innerHtml: string)

  /**
   * The `#desc_ifr` element: its `srcdoc` and `src` attributes (empty when absent)
   * and the `body.innerHTML` of the document that parsing `srcdoc` yields.
   */
  datatype Iframe = Iframe(srcdoc: string, src: string, srcdocBodyHtml: string)

  /** The `nextElementSibling` of a `dt` or `label` element. */
  datatype Sibling = Sibling(tagName: string, textContent: string)

  /** A `dt` or `label` element: its text and its next element sibling, if any. */
  datatype LabelElement = LabelElement(textContent: string, nextSibling: Option<Sibling>)

  /**
   * A `.ux-labels-values__item` element: the `textContent` of its first
   * `.ux-textspans--bold` and first `.ux-textspans--light` descendants, when present.
   */
  datatype LabelsValuesItem = LabelsValuesItem(boldText: Option<string>, lightText: Option<string>)

  /**
   * An item-specifics container, as its four matchers see it: its
   * `.ux-labels-values__item` elements, its `dt` elements, its `label` elements and
   * the `td` texts of each of its `table tr` rows, all in document order.
   */
  datatype Container = Container(
    items: seq<LabelsValuesItem>,
    terms: seq<LabelElement>,
    labels: seq<LabelElement>,
    rows: seq<seq<string>>)

  datatype Document = Document(
    query: string -> Option<Node>,
    queryAll: string -> seq<Container>,
    descriptionFrame: Option<Iframe>,
    title: string,
    bodyText: string)

  /** The elements that `selectors` pick out, one per selector, in order. */
  function Lookup(doc: Document, selectors: seq<string>): seq<Option<Node>> {
    seq(|selectors|, i requires 0 <= i < |selectors| => doc.query(selectors[i]))
  }

  const TitleSelectors: seq<string> := [
    "h1.x-item-title__mainTitle", "span.l-title-text", "h1#itemTitle", "h1.product-title",
    ".vi-title h1", "#itemTitle_feature_div span", "#item-title", "h1[itemprop=\"name\"]"]

  const PriceSelectors: seq<string> := [
    ".x-price-primary span[itemprop=\"price\"]", ".x-price-primary", "[itemprop=\"price\"]", ".item-price"]

  const DescriptionSelectors: seq<string> := [
    "div[itemprop=\"description\"]", "div.section-description", "div#description_content",
    "div#desc_div", "div#fullItemDesc", "div.item-description", "div.item-description-wrapper",
    "div.description-text", "div[data-testid=\"description-content\"]", ".ui-pdp-description__content",
    "div[role=\"tabpanel\"][aria-labelledby=\"desc-tab\"]", "#Body #tg_pbox #content"]

  const MainContentSelector: string :=
    "div.product-description-container, div.main-content, #mainContent, #Body"

  const SpecificsContainerSelectors: seq<string> := [
    ".ux-layout-section--item-details .ux-labels-values", "#viTabs_0_is", ".item-specifics",
    "#details_list", ".section-details", "dl.item-details__list",
    "div[data-testid=\"item-specifics-section\"]", ".spec-group"]

  const ItemNumberSelectors: seq<string> := [
    "#descItemNumber",
    "div.ux-layout-section--item-details span.ux-textspans--item-information-value",
    "span[data-testid=\"item-information-value\"]", "div.item-information__item-id span",
    "#vi-itm-num", ".item-number-value"]

  /** The value every string field holds when nothing usable was found. */
  const NotFound: string := "N/A"

  // ---------------------------------------------------------------------------
  // Title

  /** A title candidate: an element whose trimmed text is longer than 5 characters. */
  predicate IsTitleNode(n: Option<Node>) {
    n.Some? && |Trim(n.value.textContent)| > 5
  }

  /** Length of `\([0-9]+\) ` at position `i`, or 0 when it is not there. */
  function CountPrefixAt(s: string, i: nat): (n: nat)
    ensures n > 0 ==> i + n <= |s|
  {
    if i < |s| && s[i] == '(' then
      var d := RunLength(s, i + 1, IsDigit);
      if d > 0 && HasAt(s, i + 1 + d, ") ") then d + 3 else 0
    else 0
  }

  /** `\s*Product details - \s*eBay`, ignoring case, at position `i`. */
  function ProductDetailsTailAt(s: string, i: nat): (r: Option<nat>)
    ensures r.Some? ==> i + r.value <= |s|
  {
    if i > |s| then None
    else
      var a := RunLength(s, i, IsSpace);
      if !HasAtIgnoreCase(s, i + a, "product details - ") then None
      else
        var j := i + a + 18;
        var b := RunLength(s, j, IsSpace);
        if HasAtIgnoreCase(s, j + b, "ebay") then Some(a + 18 + b + 4) else None
  }

  /**
   * The title boilerplate pattern at position `i`, its four alternatives tried in
   * order, ignoring case: "NEW LISTING", "Brand New", "Used - ", or an optional
   * "(digits) " followed by "Product details - eBay" with optional white space.
   */
  function BoilerplateAt(s: string, i: nat): (r: Option<nat>)
    ensures r.Some? ==> i + r.value <= |s|
  {
    if HasAtIgnoreCase(s, i, "new listing") then Some(11)
    else if HasAtIgnoreCase(s, i, "brand new") then Some(9)
    else if HasAtIgnoreCase(s, i, "used - ") then Some(7)
    else
      var g := CountPrefixAt(s, i);
      if g > 0 && ProductDetailsTailAt(s, i + g).Some? then Some(g + ProductDetailsTailAt(s, i + g).value)
      else ProductDetailsTailAt(s, i)
  }

  /** `s.replace(pattern, '')` for a pattern without the `g` flag: the leftmost match goes. */
  function RemoveFirstMatch(s: string, m: (string, nat) -> Option<nat>): (r: string)
    ensures (forall j :: 0 <= j <= |s| ==> m(s, j).None?) ==> r == s
  {
    match FindFirst(s, 0, m)
    case None => s
    case Some((p, n)) => if p + n <= |s| then s[..p] + s[p + n..] else s
  }

  /** The leftmost match is the one cut: a match at `p` with none before it removes exactly `s[p..p + n]`. */
  lemma RemoveLeftmostMatch(s: string, m: (string, nat) -> Option<nat>, p: nat, n: nat)
    requires p + n <= |s| && m(s, p) == Some(n)
    requires forall j :: 0 <= j < p ==> m(s, j).None?
    ensures RemoveFirstMatch(s, m) == s[..p] + s[p + n..]
  {
    FindFirstIsLeftmost(s, m, p);
  }

  /** A title found by a selector, with the boilerplate removed. */
  function CleanTitle(text: string): string {
    Trim(RemoveFirstMatch(Trim(text), BoilerplateAt))
  }

  /** `/\| eBay.*$/` at position `i`: "| eBay" followed by a rest without line terminators. */
  function EbaySuffixAt(s: string, i: nat): (r: Option<nat>)
    ensures r.Some? ==> i + r.value <= |s|
  {
    if HasAt(s, i, "| eBay") && forall j :: i + 6 <= j < |s| ==> !IsLineTerminator(s[j]) then Some(|s| - i)
    else None
  }

  /** `/Product details - eBay/i` at position `i`. */
  function ProductDetailsAt(s: string, i: nat): (r: Option<nat>)
    ensures r.Some? ==> i + r.value <= |s|
  {
    if HasAtIgnoreCase(s, i, "product details - ebay") then Some(22) else None
  }

  /** The title taken from `document.title` when no selector gives a usable one. */
  function DocumentTitleFallback(docTitle: string): (r: string)
    ensures r != ""
  {
    var cleaned := Trim(RemoveFirstMatch(RemoveFirstMatch(docTitle, EbaySuffixAt), ProductDetailsAt));
    if cleaned == "" then NotFound else cleaned
  }

  /**
   * A page title "<name> | eBay<rest>", with the first "| eBay" at `p`, no line
   * break after it and no "Product details - eBay" before it, falls back to the
   * trimmed `<name>`, or "N/A" when that is blank.
   */
  lemma DocumentTitleSuffixCut(docTitle: string, p: nat)
    requires HasAt(docTitle, p, "| eBay")
    requires forall j :: p + 6 <= j < |docTitle| ==> !IsLineTerminator(docTitle[j])
    requires forall j :: 0 <= j < p ==> !HasAt(docTitle, j, "| eBay")
    requires forall j :: 0 <= j <= p ==> !HasAtIgnoreCase(docTitle[..p], j, "product details - ebay")
    ensures DocumentTitleFallback(docTitle) == Or(Trim(docTitle[..p]), NotFound)
  {
    RemoveLeftmostMatch(docTitle, EbaySuffixAt, p, |docTitle| - p);
    assert docTitle[..p] + docTitle[|docTitle|..] == docTitle[..p];
  }

  /**
   * Without "| eBay" in the page title, the first "Product details - eBay" (in any
   * case), at `p`, is cut out and the rest trimmed.
   */
  lemma DocumentTitleProductDetailsCut(docTitle: string, p: nat)
    requires forall j :: 0 <= j <= |docTitle| ==> !HasAt(docTitle, j, "| eBay")
    requires HasAtIgnoreCase(docTitle, p, "product details - ebay")
    requires forall j :: 0 <= j < p ==> !HasAtIgnoreCase(docTitle, j, "product details - ebay")
    ensures DocumentTitleFallback(docTitle) == Or(Trim(docTitle[..p] + docTitle[p + 22..]), NotFound)
  {
    RemoveLeftmostMatch(docTitle, ProductDetailsAt, p, 22);
  }

  /** A page title with neither pattern is only trimmed. */
  lemma DocumentTitleUncut(docTitle: string)
    requires forall j :: 0 <= j <= |docTitle| ==> !HasAt(docTitle, j, "| eBay")
    requires forall j :: 0 <= j <= |docTitle| ==> !HasAtIgnoreCase(docTitle, j, "product details - ebay")
    ensures DocumentTitleFallback(docTitle) == Or(Trim(docTitle), NotFound)
  {
  }

  /** A title that is the sentinel, empty or shorter than 5 characters is replaced by the fallback. */
  predicate NeedsTitleFallback(t: string) {
    t == NotFound || t == "" || |t| < 5
  }

  /** The title the selector chain settles on, before the fallback: "N/A" when no selector qualifies. */
  function ChainTitle(doc: Document): string {
    var nodes := Lookup(doc, TitleSelectors);
    match FirstIndex(nodes, IsTitleNode)
    case Some(k) => CleanTitle(nodes[k].value.textContent)
    case None => NotFound
  }

  function TitleOf(doc: Document): (r: string)
    ensures r != ""
    ensures r == ChainTitle(doc) || r == DocumentTitleFallback(doc.title)
  {
    var chain := ChainTitle(doc);
    if NeedsTitleFallback(chain) then DocumentTitleFallback(doc.title) else chain
  }

  /** The title loop: selectors in order, the first with more than 5 trimmed characters wins. */
  method ExtractTitle(doc: Document) returns (title: string)
    ensures title == TitleOf(doc)
    ensures title != ""
  {
    var k := FirstQualifying(doc, TitleSelectors, IsTitleNode);
    title := NotFound;
    if k.Some? {
      title := CleanTitle(doc.query(TitleSelectors[k.value]).value.textContent);
    }
    if title == NotFound || title == "" || |title| < 5 {
      title := DocumentTitleFallback(doc.title);
    }
  }

  /**
   * The first selector whose trimmed text is longer than 5 characters decides the
   * title; what later selectors find is never consulted.
   */
  lemma TitleIgnoresLaterSelectors(d1: Document, d2: Document, k: nat)
    requires k < |TitleSelectors| && IsTitleNode(d1.query(TitleSelectors[k]))
    requires forall j :: 0 <= j <= k ==> d1.query(TitleSelectors[j]) == d2.query(TitleSelectors[j])
    requires d1.title == d2.title
    ensures TitleOf(d1) == TitleOf(d2)
  {
    LookupAgrees(d1, d2, TitleSelectors, k);
    FirstIndexAgreesOnPrefix(Lookup(d1, TitleSelectors), Lookup(d2, TitleSelectors), IsTitleNode, k);
  }

  /** When the first qualifying selector's cleaned text is usable, it is the title. */
  lemma TitleFromFirstQualifyingSelector(doc: Document, k: nat)
    requires k < |TitleSelectors| && IsTitleNode(doc.query(TitleSelectors[k]))
    requires forall j :: 0 <= j < k ==> !IsTitleNode(doc.query(TitleSelectors[j]))
    requires !NeedsTitleFallback(CleanTitle(doc.query(TitleSelectors[k]).value.textContent))
    ensures TitleOf(doc) == CleanTitle(doc.query(TitleSelectors[k]).value.textContent)
  {
    var nodes := Lookup(doc, TitleSelectors);
    FirstIndexIsFirst(nodes, IsTitleNode, k);
  }

  /** When the first qualifying selector's cleaned text is too short, the title comes from `document.title`. */
  lemma TitleFallsBackAfterShortChain(doc: Document, k: nat)
    requires k < |TitleSelectors| && IsTitleNode(doc.query(TitleSelectors[k]))
    requires forall j :: 0 <= j < k ==> !IsTitleNode(doc.query(TitleSelectors[j]))
    requires NeedsTitleFallback(CleanTitle(doc.query(TitleSelectors[k]).value.textContent))
    ensures TitleOf(doc) == DocumentTitleFallback(doc.title)
  {
    var nodes := Lookup(doc, TitleSelectors);
    FirstIndexIsFirst(nodes, IsTitleNode, k);
  }

  /** With no qualifying selector the title comes from `document.title`. */
  lemma TitleWithoutSelectors(doc: Document)
    requires forall j :: 0 <= j < |TitleSelectors| ==> !IsTitleNode(doc.query(TitleSelectors[j]))
    ensures TitleOf(doc) == DocumentTitleFallback(doc.title)
  {
    LookupNone(doc, TitleSelectors, IsTitleNode);
  }

  // ---------------------------------------------------------------------------
  // First-valid-wins chains

  /**
   * Queries `selectors` in order and stops at the first element that `ok` accepts:
   * the loop shared by the title and item-number extractors.
   */
  method FirstQualifying(doc: Document, selectors: seq<string>, ok: Option<Node> -> bool) returns (k: Option<nat>)
    ensures k == FirstIndex(Lookup(doc, selectors), ok)
  {
    ghost var nodes := Lookup(doc, selectors);
    for i := 0 to |selectors|
      invariant forall j :: 0 <= j < i ==> !ok(nodes[j])
    {
      var el := doc.query(selectors[i]);
      assert el == nodes[i];
      if ok(el) {
        FirstIndexIsFirst(nodes, ok, i);
        return Some(i);
      }
    }
    FirstIndexNone(nodes, ok);
    return None;
  }

  /** Documents that answer the first `k + 1` selectors alike give lookups that agree there. */
  lemma LookupAgrees(d1: Document, d2: Document, selectors: seq<string>, k: nat)
    requires k < |selectors|
    requires forall j :: 0 <= j <= k ==> d1.query(selectors[j]) == d2.query(selectors[j])
    ensures forall j :: 0 <= j <= k ==> Lookup(d1, selectors)[j] == Lookup(d2, selectors)[j]
  {
  }

  /** No selector's element is accepted, so the chain finds nothing. */
  lemma LookupNone(doc: Document, selectors: seq<string>, ok: Option<Node> -> bool)
    requires forall j :: 0 <= j < |selectors| ==> !ok(doc.query(selectors[j]))
    ensures FirstIndex(Lookup(doc, selectors), ok) == None
  {
    var nodes := Lookup(doc, selectors);
    assert forall j :: 0 <= j < |nodes| ==> !ok(nodes[j]);
    FirstIndexNone(nodes, ok);
  }

  lemma FirstIndexIsFirst<T>(xs: seq<T>, ok: T -> bool, k: nat)
    requires k < |xs| && ok(xs[k])
    requires forall j :: 0 <= j < k ==> !ok(xs[j])
    ensures FirstIndex(xs, ok) == Some(k)
  {
  }

  lemma FirstIndexNone<T>(xs: seq<T>, ok: T -> bool)
    requires forall j :: 0 <= j < |xs| ==> !ok(xs[j])
    ensures FirstIndex(xs, ok) == None
  {
  }

  /** Two chains that agree up to an accepted element `k` pick the same element. */
  lemma FirstIndexAgreesOnPrefix<T>(xs: seq<T>, ys: seq<T>, ok: T -> bool, k: nat)
    requires k < |xs| && k < |ys| && ok(xs[k])
    requires forall j :: 0 <= j <= k ==> xs[j] == ys[j]
    ensures FirstIndex(xs, ok) == FirstIndex(ys, ok)
    ensures FirstIndex(xs, ok).Some? && FirstIndex(xs, ok).value <= k
  {
    var f := FirstIndex(xs, ok).value;
    assert forall j :: 0 <= j < f ==> !ok(ys[j]) by {
      forall j | 0 <= j < f ensures !ok(ys[j]) {
        assert xs[j] == ys[j];
      }
    }
    FirstIndexIsFirst(ys, ok, f);
  }

  // ---------------------------------------------------------------------------
  // Price

  /** `el?.textContent?.trim()`, with a missing element giving the (falsy) empty string. */
  function TrimmedText(n: Option<Node>): string {
    match n
    case None => ""
    case Some(e) => Trim(e.textContent)
  }

  /** The first non-blank price text, or "N/A". */
  function RawPrice(doc: Document): string {
    Or(TrimmedText(doc.query(PriceSelectors[0])),
    Or(TrimmedText(doc.query(PriceSelectors[1])),
    Or(TrimmedText(doc.query(PriceSelectors[2])),
    Or(TrimmedText(doc.query(PriceSelectors[3])), NotFound))))
  }

  /** The characters the price cleanup keeps: `[\d.,£$€]`. */
  predicate IsPriceChar(c: char) {
    IsDigit(c) || c == '.' || c == ',' || c == '£' || c == '$' || c == '€'
  }

  /**
   * `s.replace(/(\d),(\d)/g, '$1.$2')`: scanning left to right, a comma between two
   * digits becomes a dot; matches do not overlap, so in "1,2,3" only the first
   * comma changes.
   */
  function DecimalCommas(s: string): (r: string)
    ensures |r| == |s|
    ensures forall i :: 0 <= i < |s| && r[i] != s[i] ==> s[i] == ',' && r[i] == '.'
    ensures forall i :: 0 <= i < |s| && r[i] != s[i] ==> 0 < i < |s| - 1 && IsDigit(s[i - 1]) && IsDigit(s[i + 1])
  {
    if |s| >= 3 && IsDigit(s[0]) && s[1] == ',' && IsDigit(s[2]) then
      var rest := DecimalCommas(s[3..]);
      var r := [s[0], '.', s[2]] + rest;
      assert forall i :: 3 <= i < |s| ==> s[i] == s[3..][i - 3] && r[i] == rest[i - 3];
      r
    else if s == [] then []
    else
      var rest := DecimalCommas(s[1..]);
      var r := [s[0]] + rest;
      assert forall i :: 1 <= i < |s| ==> s[i] == s[1..][i - 1] && r[i] == rest[i - 1];
      r
  }

  /**
   * A comma between two digits becomes a dot unless the scan has just consumed the
   * digit before it, which happens exactly when the comma two places back was replaced.
   */
  lemma {:induction false} CommaBetweenDigitsBecomesDot(s: string, i: nat)
    requires 0 < i < |s| - 1 && s[i] == ',' && IsDigit(s[i - 1]) && IsDigit(s[i + 1])
    requires i < 2 || DecimalCommas(s)[i - 2] == s[i - 2]
    ensures DecimalCommas(s)[i] == '.'
    decreases |s|
  {
    if |s| >= 3 && IsDigit(s[0]) && s[1] == ',' && IsDigit(s[2]) {
      if i >= 4 {
        CommaBetweenDigitsBecomesDot(s[3..], i - 3);
      }
    } else {
      CommaBetweenDigitsBecomesDot(s[1..], i - 1);
    }
  }

  /** Matches do not overlap: the character two places after a comma that became a dot is left as it was. */
  lemma {:induction false} AfterReplacedCommaKept(s: string, i: nat)
    requires 2 <= i < |s| && DecimalCommas(s)[i - 2] != s[i - 2]
    ensures DecimalCommas(s)[i] == s[i]
    decreases |s|
  {
    if |s| >= 3 && IsDigit(s[0]) && s[1] == ',' && IsDigit(s[2]) {
      if i >= 5 {
        AfterReplacedCommaKept(s[3..], i - 3);
      }
    } else if i >= 3 {
      AfterReplacedCommaKept(s[1..], i - 1);
    }
  }

  /** Removes every character outside `[\d.,£$€]`, then turns digit-comma-digit into digit-dot-digit. */
  function CleanPrice(s: string): (r: string)
    ensures forall i :: 0 <= i < |r| ==> IsPriceChar(r[i])
    ensures |r| == |Filter(s, IsPriceChar)|
    ensures forall i :: 0 <= i < |r| && Filter(s, IsPriceChar)[i] != ',' ==> r[i] == Filter(s, IsPriceChar)[i]
  {
    var kept := Filter(s, IsPriceChar);
    var r := DecimalCommas(kept);
    assert forall i :: 0 <= i < |r| ==> r[i] == kept[i] || r[i] == '.';
    r
  }

  /** A string whose only comma sits between two digits has that comma, and nothing else, replaced. */
  lemma SingleCommaBecomesDot(s: string, i: nat)
    requires 0 < i < |s| - 1 && s[i] == ',' && IsDigit(s[i - 1]) && IsDigit(s[i + 1])
    requires forall j :: 0 <= j < |s| && j != i ==> s[j] != ','
    ensures DecimalCommas(s) == s[i := '.']
  {
    CommaBetweenDigitsBecomesDot(s, i);
  }

  /**
   * A price made of price characters whose one comma sits between digits keeps every
   * character but that comma, which becomes a dot: "£1,234.56" cleans to "£1.234.56".
   */
  lemma CleanPriceSingleComma(s: string, i: nat)
    requires forall j :: 0 <= j < |s| ==> IsPriceChar(s[j])
    requires 0 < i < |s| - 1 && s[i] == ',' && IsDigit(s[i - 1]) && IsDigit(s[i + 1])
    requires forall j :: 0 <= j < |s| && j != i ==> s[j] != ','
    ensures CleanPrice(s) == s[i := '.']
  {
    FilterAllAccepted(s, IsPriceChar);
    SingleCommaBecomesDot(s, i);
  }

  function PriceOf(doc: Document): string {
    CleanPrice(RawPrice(doc))
  }

  /** The cleanup never loses or reorders a digit. */
  lemma CleanPriceKeepsDigits(s: string)
    ensures Filter(CleanPrice(s), IsDigit) == Filter(s, IsDigit)
  {
    var kept := Filter(s, IsPriceChar);
    FilterOfFilter(s);
    SameDigitsFilter(DecimalCommas(kept), kept);
  }

  /** Keeping the price characters first does not change which digits remain. */
  lemma {:induction false} FilterOfFilter(s: string)
    ensures Filter(Filter(s, IsPriceChar), IsDigit) == Filter(s, IsDigit)
  {
    if s != [] {
      var t := s[1..];
      FilterOfFilter(t);
      assert Filter(s, IsDigit) == (if IsDigit(s[0]) then [s[0]] else []) + Filter(t, IsDigit);
      if IsPriceChar(s[0]) {
        assert Filter(s, IsPriceChar) == [s[0]] + Filter(t, IsPriceChar);
        FilterConcat([s[0]], Filter(t, IsPriceChar), IsDigit);
        assert [s[0]][1..] == [];
        assert Filter([s[0]], IsDigit) == (if IsDigit(s[0]) then [s[0]] else []) + Filter([], IsDigit);
      } else {
        assert Filter(s, IsPriceChar) == Filter(t, IsPriceChar);
      }
    }
  }

  /** Two strings that differ only at non-digit positions, and agree there on being non-digits, have the same digits. */
  lemma {:induction false} SameDigitsFilter(r: string, s: string)
    requires |r| == |s|
    requires forall i :: 0 <= i < |s| && r[i] != s[i] ==> !IsDigit(r[i]) && !IsDigit(s[i])
    ensures Filter(r, IsDigit) == Filter(s, IsDigit)
  {
    if s != [] {
      SameDigitsFilter(r[1..], s[1..]);
    }
  }

  /** Without any price element the "N/A" default is stripped to the empty string. */
  lemma MissingPriceIsEmpty(doc: Document)
    requires forall j :: 0 <= j < |PriceSelectors| ==> TrimmedText(doc.query(PriceSelectors[j])) == ""
    ensures PriceOf(doc) == ""
  {
    assert RawPrice(doc) == NotFound;
    assert Filter(NotFound, IsPriceChar) == [] by {
      assert !IsPriceChar('N') && !IsPriceChar('/') && !IsPriceChar('A');
      FilterAllRejected(NotFound, IsPriceChar);
    }
  }

  // ---------------------------------------------------------------------------
  // Item number

  /** An item-number candidate: an element with non-empty text holding more than 5 digits. */
  predicate IsItemNumberNode(n: Option<Node>) {
    n.Some? && n.value.textContent != "" && |Filter(Trim(n.value.textContent), IsDigit)| > 5
  }

  /** `/Item number:\s*([0-9]{10,})/i` at position `i`: the length of the whole match. */
  function ItemNumberLabelAt(s: string, i: nat): (r: Option<nat>)
    ensures r.Some? ==> 22 <= r.value && i + r.value <= |s|
  {
    if !HasAtIgnoreCase(s, i, "item number:") then None
    else
      var w := RunLength(s, i + 12, IsSpace);
      var d := RunLength(s, i + 12 + w, IsDigit);
      if d >= 10 then Some(12 + w + d) else None
  }

  /** The digits captured by the leftmost "Item number:" match in the page text, if any. */
  function ItemNumberInText(s: string): (r: Option<string>)
    ensures r.Some? ==> |r.value| >= 10 && AllDigits(r.value)
    ensures r.Some? <==> exists p :: 0 <= p <= |s| && ItemNumberLabelAt(s, p).Some?
  {
    if s == "" then
      assert ItemNumberLabelAt(s, 0).None?;
      None
    else match FindFirst(s, 0, ItemNumberLabelAt)
      case None => None
      case Some((p, n)) =>
        assert ItemNumberLabelAt(s, p).Some?;
        Some(LabelDigits(s, p))
  }

  /** The capture group of a label match at `p`: past the label and the white space after it, the whole run of digits. */
  function LabelDigits(s: string, p: nat): (r: string)
    requires ItemNumberLabelAt(s, p).Some?
    ensures |r| >= 10 && AllDigits(r)
  {
    var w := RunLength(s, p + 12, IsSpace);
    var d := RunLength(s, p + 12 + w, IsDigit);
    s[p + 12 + w .. p + 12 + w + d]
  }

  /**
   * The number is taken at the leftmost "Item number:" label that is followed by
   * 10 or more digits, and the number is what that label captures.
   */
  lemma ItemNumberAtLeftmostLabel(s: string, p: nat)
    requires p <= |s| && ItemNumberLabelAt(s, p).Some?
    requires forall j :: 0 <= j < p ==> ItemNumberLabelAt(s, j).None?
    ensures ItemNumberInText(s) == Some(LabelDigits(s, p))
  {
    FindFirstIsLeftmost(s, ItemNumberLabelAt, p);
    assert s != "";
  }

  function ItemNumberOf(doc: Document): (r: string)
    ensures r == NotFound || (|r| > 5 && AllDigits(r))
  {
    var nodes := Lookup(doc, ItemNumberSelectors);
    match FirstIndex(nodes, IsItemNumberNode)
    case Some(k) => Filter(Trim(nodes[k].value.textContent), IsDigit)
    case None =>
      match ItemNumberInText(doc.bodyText)
      case Some(digits) => digits
      case None => NotFound
  }

  /** The first selector whose element holds more than 5 digits gives the number: the digits of its trimmed text. */
  lemma ItemNumberFromFirstSelector(doc: Document, k: nat)
    requires k < |ItemNumberSelectors| && IsItemNumberNode(doc.query(ItemNumberSelectors[k]))
    requires forall j :: 0 <= j < k ==> !IsItemNumberNode(doc.query(ItemNumberSelectors[j]))
    ensures ItemNumberOf(doc) == Filter(Trim(doc.query(ItemNumberSelectors[k]).value.textContent), IsDigit)
  {
    FirstIndexIsFirst(Lookup(doc, ItemNumberSelectors), IsItemNumberNode, k);
  }

  /** The item-number loop, then the page-text search when no selector gave more than 5 digits. */
  method ExtractItemNumber(doc: Document) returns (itemNumber: string)
    ensures itemNumber == ItemNumberOf(doc)
  {
    var k := FirstQualifying(doc, ItemNumberSelectors, IsItemNumberNode);
    itemNumber := NotFound;
    if k.Some? {
      itemNumber := Filter(Trim(doc.query(ItemNumberSelectors[k.value]).value.textContent), IsDigit);
    }
    if itemNumber == NotFound {
      var bodyText := doc.bodyText;
      if bodyText != "" {
        var found := ItemNumberInText(bodyText);
        if found.Some? {
          itemNumber := found.value;
        }
      }
    }
  }

  /** The page-text search is only a fallback: once a selector qualifies, the page text does not matter. */
  lemma ItemNumberIgnoresTextAfterSelector(d1: Document, d2: Document, k: nat)
    requires k < |ItemNumberSelectors| && IsItemNumberNode(d1.query(ItemNumberSelectors[k]))
    requires forall j :: 0 <= j < |ItemNumberSelectors| ==> d1.query(ItemNumberSelectors[j]) == d2.query(ItemNumberSelectors[j])
    ensures ItemNumberOf(d1) == ItemNumberOf(d2)
    ensures ItemNumberOf(d1) != NotFound
  {
    var n1, n2 := Lookup(d1, ItemNumberSelectors), Lookup(d2, ItemNumberSelectors);
    assert n1 == n2;
    FirstIndexAgreesOnPrefix(n1, n2, IsItemNumberNode, k);
  }

  /** With no qualifying selector, the number is the page-text match or "N/A". */
  lemma ItemNumberFromText(doc: Document)
    requires forall j :: 0 <= j < |ItemNumberSelectors| ==> !IsItemNumberNode(doc.query(ItemNumberSelectors[j]))
    ensures ItemNumberOf(doc) == match ItemNumberInText(doc.bodyText) case Some(n) => n case None => NotFound
  {
    LookupNone(doc, ItemNumberSelectors, IsItemNumberNode);
  }

  // ---------------------------------------------------------------------------
  // Description

  /** The notes that open a description taken from the page rather than from a description element. */
  const PageNote: string :=
    "<div style=\"font-style: italic; color: #888;\">(Potential description extracted from page, may include noise):</div>\n"
  const BodyNote: string :=
    "<div style=\"font-style: italic; color: #888;\">(Potential description extracted from page body, may include noise):</div>\n"

  /** How much page text a fallback description keeps, and the marker added when it kept less than all. */
  const PageLimit: nat := 10000
  const PageMarker: string := "... (truncated)"

  /** The bound on the final description, and the marker added when it is cut there. */
  const DescriptionLimit: nat := 20000
  const DescriptionMarker: string := "... (truncated for AI processing)"

  /** Stage 1: the trimmed body of the document in the iframe's `srcdoc`, when that is not blank. */
  function FrameDescription(frame: Option<Iframe>): (r: string)
    ensures r != ""
    ensures r == NotFound || (frame.Some? && r == Trim(frame.value.srcdocBodyHtml))
    ensures frame.Some? && frame.value.srcdoc != "" && Trim(frame.value.srcdocBodyHtml) != ""
            ==> r == Trim(frame.value.srcdocBodyHtml)
    ensures frame.None? || frame.value.srcdoc == "" ==> r == NotFound
  {
    if frame.Some? && frame.value.srcdoc != "" && Trim(frame.value.srcdocBodyHtml) != "" then
      Trim(frame.value.srcdocBodyHtml)
    else NotFound
  }

  /** The test that sends the description to the next stage: still "N/A", blank, or shorter than 50 characters. */
  predicate Incomplete(d: string) {
    d == NotFound || Trim(d) == "" || |d| < 50
  }

  /** A description element: one whose trimmed inner HTML is longer than 50 characters. */
  predicate IsDescriptionNode(n: Option<Node>) {
    n.Some? && |Trim(n.value.innerHtml)| > 50
  }

  /** Stage 2: the first description element in selector order, replacing an incomplete description. */
  function SelectorDescription(doc: Document, d: string): (r: string)
    ensures r == d || (Incomplete(d) && |r| > 50)
  {
    if !Incomplete(d) then d
    else
      var nodes := Lookup(doc, DescriptionSelectors);
      match FirstIndex(nodes, IsDescriptionNode)
      case Some(k) => Trim(nodes[k].value.innerHtml)
      case None => d
  }

  /** `s.substring(0, 10000)`, followed by the marker exactly when something was cut. */
  function PageExcerpt(s: string): (r: string)
    ensures |s| <= PageLimit ==> r == s
    ensures |s| > PageLimit ==> r == s[..PageLimit] + PageMarker
  {
    if |s| > PageLimit then s[..PageLimit] + PageMarker else s
  }

  /** An incomplete description is replaced by the trimmed inner HTML of the first description element in selector order. */
  lemma SelectorDescriptionFirstWins(doc: Document, d: string, k: nat)
    requires Incomplete(d)
    requires k < |DescriptionSelectors| && IsDescriptionNode(doc.query(DescriptionSelectors[k]))
    requires forall j :: 0 <= j < k ==> !IsDescriptionNode(doc.query(DescriptionSelectors[j]))
    ensures SelectorDescription(doc, d) == Trim(doc.query(DescriptionSelectors[k]).value.innerHtml)
  {
    FirstIndexIsFirst(Lookup(doc, DescriptionSelectors), IsDescriptionNode, k);
  }

  /** Without a description element the description passes through unchanged. */
  lemma SelectorDescriptionNone(doc: Document, d: string)
    requires forall j :: 0 <= j < |DescriptionSelectors| ==> !IsDescriptionNode(doc.query(DescriptionSelectors[j]))
    ensures SelectorDescription(doc, d) == d
  {
    LookupNone(doc, DescriptionSelectors, IsDescriptionNode);
  }

  /** A page-content element: one whose trimmed inner HTML is longer than 500 characters. */
  predicate IsPageNode(n: Option<Node>) {
    n.Some? && |Trim(n.value.innerHtml)| > 500
  }

  /**
   * Stage 3: when the description is still incomplete, the main content block of
   * the page, else the text of the whole body, each needing more than 500 trimmed
   * characters; otherwise the description is left as it was.
   */
  function PageDescription(doc: Document, d: string): string {
    if !Incomplete(d) then d
    else
      var main := doc.query(MainContentSelector);
      if IsPageNode(main) then PageNote + PageExcerpt(Trim(main.value.innerHtml))
      else if doc.bodyText != "" && |Trim(doc.bodyText)| > 500 then BodyNote + PageExcerpt(Trim(doc.bodyText))
      else d
  }

  /** The final bound: a description other than "N/A" longer than 20000 characters is cut there and marked. */
  function BoundDescription(d: string): (r: string)
    ensures |r| <= DescriptionLimit + |DescriptionMarker|
            || (r == d && d == NotFound)
    ensures r == d || (|d| > DescriptionLimit && r == d[..DescriptionLimit] + DescriptionMarker)
    ensures d != NotFound && |d| > DescriptionLimit ==> r == d[..DescriptionLimit] + DescriptionMarker
    ensures |d| <= DescriptionLimit ==> r == d
  {
    if d != NotFound && |d| > DescriptionLimit then d[..DescriptionLimit] + DescriptionMarker else d
  }

  function DescriptionOf(doc: Document): (r: string)
    ensures r != ""
    ensures |r| <= DescriptionLimit + |DescriptionMarker|
  {
    var d1 := FrameDescription(doc.descriptionFrame);
    var d2 := SelectorDescription(doc, d1);
    var d3 := PageDescription(doc, d2);
    BoundDescription(d3)
  }

  /** The description stages in order: `srcdoc`, the description selectors, the page fallbacks, the bound. */
  method ExtractDescription(doc: Document) returns (description: string)
    ensures description == DescriptionOf(doc)
  {
    description := FrameStage(doc);
    description := SelectorStage(doc, description);
    description := PageStage(doc, description);
    if description != NotFound && |description| > DescriptionLimit {
      description := description[..DescriptionLimit] + DescriptionMarker;
    }
  }

  /** Attempt 1: the `srcdoc` of the description iframe. An iframe with only a `src` gives nothing. */
  method FrameStage(doc: Document) returns (description: string)
    ensures description == FrameDescription(doc.descriptionFrame)
  {
    description := NotFound;
    var frame := doc.descriptionFrame;
    if frame.Some? && frame.value.srcdoc != "" {
      var body := Trim(frame.value.srcdocBodyHtml);
      if body != "" {
        description := body;
      }
    }
  }

  /** Attempt 2: the description selectors, tried only while the description is incomplete. */
  method SelectorStage(doc: Document, d: string) returns (description: string)
    ensures description == SelectorDescription(doc, d)
  {
    description := d;
    if Incomplete(description) {
      var k := FirstQualifying(doc, DescriptionSelectors, IsDescriptionNode);
      if k.Some? {
        description := Trim(doc.query(DescriptionSelectors[k.value]).value.innerHtml);
      }
    }
  }

  /** Attempt 3: the main content block, else the body text, tried only while the description is incomplete. */
  method PageStage(doc: Document, d: string) returns (description: string)
    ensures description == PageDescription(doc, d)
  {
    description := d;
    if Incomplete(description) {
      var main := doc.query(MainContentSelector);
      if IsPageNode(main) {
        description := PageNote + PageExcerpt(Trim(main.value.innerHtml));
      } else {
        var bodyText := doc.bodyText;
        if bodyText != "" && |Trim(bodyText)| > 500 {
          description := BodyNote + PageExcerpt(Trim(bodyText));
        }
      }
    }
  }

  /** Cutting is idempotent: a bounded description is left alone by a second bound. */
  lemma BoundDescriptionIdempotent(d: string)
    ensures BoundDescription(BoundDescription(d)) == BoundDescription(d)
  {
    var r := BoundDescription(d);
    if r != d {
      assert r[..DescriptionLimit] == d[..DescriptionLimit];
    }
  }

  /** When the final cut fires, the description ends with its marker. */
  lemma BoundMarksCut(doc: Document)
    requires |PageDescription(doc, SelectorDescription(doc, FrameDescription(doc.descriptionFrame)))| > DescriptionLimit
    ensures var r := DescriptionOf(doc);
      |r| == DescriptionLimit + |DescriptionMarker| && r[DescriptionLimit..] == DescriptionMarker
  {
  }

  /**
   * A page-fallback description is the note followed by the page excerpt (at most
   * 10000 characters of the page, marked exactly when the page had more); the final
   * cut never fires on it.
   */
  lemma PageFallbackShape(doc: Document)
    requires Incomplete(SelectorDescription(doc, FrameDescription(doc.descriptionFrame)))
    requires IsPageNode(doc.query(MainContentSelector))
    ensures DescriptionOf(doc) == PageNote + PageExcerpt(Trim(doc.query(MainContentSelector).value.innerHtml))
  {
    ExcerptFitsLimit(PageNote, Trim(doc.query(MainContentSelector).value.innerHtml));
  }

  /** Without a page-content block, the body text is the last resort, under the same shape. */
  lemma BodyFallbackShape(doc: Document)
    requires Incomplete(SelectorDescription(doc, FrameDescription(doc.descriptionFrame)))
    requires !IsPageNode(doc.query(MainContentSelector)) && |Trim(doc.bodyText)| > 500
    ensures DescriptionOf(doc) == BodyNote + PageExcerpt(Trim(doc.bodyText))
  {
    assert doc.bodyText != "";
    ExcerptFitsLimit(BodyNote, Trim(doc.bodyText));
  }

  lemma ExcerptFitsLimit(note: string, content: string)
    requires |NotFound| < |note| <= 200
    ensures note + PageExcerpt(content) != NotFound
    ensures |note + PageExcerpt(content)| <= DescriptionLimit
  {
  }

  /** A `srcdoc` body of at least 50 characters settles the description: later stages are never consulted. */
  lemma FrameDescriptionWins(doc: Document)
    requires !Incomplete(FrameDescription(doc.descriptionFrame))
    ensures DescriptionOf(doc) == BoundDescription(Trim(doc.descriptionFrame.value.srcdocBodyHtml))
  {
  }

  /**
   * A short `srcdoc` body (under 50 characters) survives when no later stage finds
   * anything: the stages only replace the description, they never reset it to "N/A".
   */
  lemma ShortFrameDescriptionSurvives(doc: Document)
    requires var d := FrameDescription(doc.descriptionFrame); d != NotFound && |d| < 50
    requires forall j :: 0 <= j < |DescriptionSelectors| ==> !IsDescriptionNode(doc.query(DescriptionSelectors[j]))
    requires !IsPageNode(doc.query(MainContentSelector)) && |Trim(doc.bodyText)| <= 500
    ensures DescriptionOf(doc) == FrameDescription(doc.descriptionFrame)
  {
    LookupNone(doc, DescriptionSelectors, IsDescriptionNode);
  }

  // ---------------------------------------------------------------------------
  // Item specifics: the four matchers

  /** `label.toLowerCase() === 'condition:'`: the one label every matcher skips. */
  predicate IsConditionLabel(name: string) {
    ToLower(name) == "condition:"
  }

  /** The pair a matcher pushes for an accepted trimmed label: the label loses its first colon. */
  function Pushed(name: string, value: string): (p: Specific)
    ensures p.value == value
    ensures ':' !in name ==> p.labelText == name
    ensures ':' in name ==> p.labelText == name[..IndexOf(name, ':')] + name[IndexOf(name, ':') + 1..]
  {
    Specific(RemoveFirst(name, ':'), value)
  }

  /** `.ux-labels-values__item`: bold label and light value, both non-blank after trimming. */
  function MatchItem(it: LabelsValuesItem): (r: Option<Specific>)
    ensures r.Some? <==> it.boldText.Some? && it.lightText.Some? && Trim(it.lightText.value) != ""
                         && Trim(it.boldText.value) != "" && !IsConditionLabel(Trim(it.boldText.value))
    ensures r.Some? ==> r.value == Pushed(Trim(it.boldText.value), Trim(it.lightText.value))
  {
    if it.boldText.Some? && it.lightText.Some? then
      var name, value := Trim(it.boldText.value), Trim(it.lightText.value);
      if name != "" && value != "" && !IsConditionLabel(name) then Some(Pushed(name, value)) else None
    else None
  }

  /** A next sibling with the given tag and non-empty text. */
  predicate SiblingIs(e: LabelElement, tags: set<string>) {
    e.nextSibling.Some? && e.nextSibling.value.tagName in tags && e.nextSibling.value.textContent != ""
  }

  /** `dt` followed by a `DD` with text; the value is the trimmed `dd` text, which may be blank. */
  function MatchTerm(dt: LabelElement): (r: Option<Specific>)
    ensures r.Some? <==> Trim(dt.textContent) != "" && SiblingIs(dt, {"DD"}) && !IsConditionLabel(Trim(dt.textContent))
    ensures r.Some? ==> r.value == Pushed(Trim(dt.textContent), Trim(dt.nextSibling.value.textContent))
  {
    var name := Trim(dt.textContent);
    if name != "" && SiblingIs(dt, {"DD"}) && !IsConditionLabel(name) then
      Some(Pushed(name, Trim(dt.nextSibling.value.textContent)))
    else None
  }

  /** `label` followed by a `SPAN` or `DIV` with text; the value is its trimmed text. */
  function MatchLabel(l: LabelElement): (r: Option<Specific>)
    ensures r.Some? <==> Trim(l.textContent) != "" && SiblingIs(l, {"SPAN", "DIV"}) && !IsConditionLabel(Trim(l.textContent))
    ensures r.Some? ==> r.value == Pushed(Trim(l.textContent), Trim(l.nextSibling.value.textContent))
  {
    var name := Trim(l.textContent);
    if name != "" && SiblingIs(l, {"SPAN", "DIV"}) && !IsConditionLabel(name) then
      Some(Pushed(name, Trim(l.nextSibling.value.textContent)))
    else None
  }

  /** A `table tr` row with at least two cells: the first two trimmed cells, both non-blank. */
  function MatchRow(cells: seq<string>): (r: Option<Specific>)
    ensures r.Some? <==> |cells| >= 2 && Trim(cells[0]) != "" && Trim(cells[1]) != "" && !IsConditionLabel(Trim(cells[0]))
    ensures r.Some? ==> r.value == Pushed(Trim(cells[0]), Trim(cells[1]))
  {
    if |cells| >= 2 then
      var name, value := Trim(cells[0]), Trim(cells[1]);
      if name != "" && value != "" && !IsConditionLabel(name) then Some(Pushed(name, value)) else None
    else None
  }

  // ---------------------------------------------------------------------------
  // Item specifics: pooling

  /** What one matcher pushes over the elements it visits, in document order. */
  function Matched<T>(xs: seq<T>, m: T -> Option<Specific>): (r: seq<Specific>)
    ensures |r| <= |xs|
  {
    if xs == [] then []
    else
      var last := m(xs[|xs| - 1]);
      Matched(xs[..|xs| - 1], m) + (if last.Some? then [last.value] else [])
  }

  /** What one container contributes: the four matchers in turn. */
  function ContainerPool(c: Container): seq<Specific> {
    Matched(c.items, MatchItem) + Matched(c.terms, MatchTerm) + Matched(c.labels, MatchLabel) + Matched(c.rows, MatchRow)
  }

  function ContainersPool(cs: seq<Container>): seq<Specific> {
    if cs == [] then [] else ContainersPool(cs[..|cs| - 1]) + ContainerPool(cs[|cs| - 1])
  }

  /** Everything pushed for the containers of each selector, selectors in order. */
  function SelectorsPool(doc: Document, selectors: seq<string>): seq<Specific> {
    if selectors == [] then []
    else SelectorsPool(doc, selectors[..|selectors| - 1]) + ContainersPool(doc.queryAll(selectors[|selectors| - 1]))
  }

  /** The pushes of one matcher's `forEach` over the elements it visits. */
  method PushMatches<T>(specs: seq<Specific>, xs: seq<T>, m: T -> Option<Specific>) returns (r: seq<Specific>)
    ensures r == specs + Matched(xs, m)
  {
    r := specs;
    for i := 0 to |xs|
      invariant r == specs + Matched(xs[..i], m)
    {
      assert xs[..i + 1][..i] == xs[..i];
      var found := m(xs[i]);
      if found.Some? {
        r := r + [found.value];
      }
    }
    assert xs[..|xs|] == xs;
  }

  /** The four matchers' `forEach` loops over one container. */
  method PushContainer(specs: seq<Specific>, container: Container) returns (r: seq<Specific>)
    ensures r == specs + ContainerPool(container)
  {
    ghost var a, b, c, d := Matched(container.items, MatchItem), Matched(container.terms, MatchTerm),
      Matched(container.labels, MatchLabel), Matched(container.rows, MatchRow);
    r := PushMatches(specs, container.items, MatchItem);
    r := PushMatches(r, container.terms, MatchTerm);
    r := PushMatches(r, container.labels, MatchLabel);
    r := PushMatches(r, container.rows, MatchRow);
    calc {
      specs + ContainerPool(container);
      specs + (a + b + c + d);
      { AppendAssoc(specs, a + b + c, d); }
      specs + (a + b + c) + d;
      { AppendAssoc(specs, a + b, c); }
      specs + (a + b) + c + d;
      { AppendAssoc(specs, a, b); }
      specs + a + b + c + d;
    }
  }

  /** The `forEach` over the containers that one selector finds. */
  method PushContainers(specs: seq<Specific>, containers: seq<Container>) returns (r: seq<Specific>)
    ensures r == specs + ContainersPool(containers)
  {
    r := specs;
    for c := 0 to |containers|
      invariant r == specs + ContainersPool(containers[..c])
    {
      ghost var done := containers[..c + 1];
      assert done[..c] == containers[..c] && done[c] == containers[c];
      assert ContainersPool(done) == ContainersPool(containers[..c]) + ContainerPool(containers[c]);
      AppendAssoc(specs, ContainersPool(containers[..c]), ContainerPool(containers[c]));
      r := PushContainer(r, containers[c]);
    }
    assert containers[..|containers|] == containers;
  }

  /** The outer `forEach` over the container selectors, in order. */
  method CollectSpecifics(doc: Document, selectors: seq<string>) returns (specs: seq<Specific>)
    ensures specs == SelectorsPool(doc, selectors)
  {
    specs := [];
    for s := 0 to |selectors|
      invariant specs == SelectorsPool(doc, selectors[..s])
    {
      assert selectors[..s + 1][..s] == selectors[..s];
      specs := PushContainers(specs, doc.queryAll(selectors[s]));
    }
    assert selectors[..|selectors|] == selectors;
  }

  /** `p` is what one of the four matchers pushes for some element of container `c`. */
  ghost predicate PushedBy(c: Container, p: Specific) {
    || (exists it :: it in c.items && MatchItem(it) == Some(p))
    || (exists dt :: dt in c.terms && MatchTerm(dt) == Some(p))
    || (exists l :: l in c.labels && MatchLabel(l) == Some(p))
    || (exists row :: row in c.rows && MatchRow(row) == Some(p))
  }

  /** `p` is pushed for some container that one of `selectors` finds on the page. */
  ghost predicate FoundOnPage(doc: Document, selectors: seq<string>, p: Specific) {
    exists sel, c :: sel in selectors && c in doc.queryAll(sel) && PushedBy(c, p)
  }

  /** One matcher's pushes are exactly its matches on the elements it visits. */
  lemma {:induction false} MatchedExactly<T>(xs: seq<T>, m: T -> Option<Specific>)
    ensures forall p :: p in Matched(xs, m) <==> exists x :: x in xs && m(x) == Some(p)
  {
    if xs != [] {
      var init, last := xs[..|xs| - 1], xs[|xs| - 1];
      MatchedExactly(init, m);
      forall p
        ensures p in Matched(xs, m) <==> exists x :: x in xs && m(x) == Some(p)
      {
        if p in Matched(init, m) {
          var x :| x in init && m(x) == Some(p);
          assert x in xs;
        } else if m(last) == Some(p) {
          assert last in xs;
        }
        if exists x :: x in xs && m(x) == Some(p) {
          var x :| x in xs && m(x) == Some(p);
          if x !in init {
            assert xs == init + [last];
          }
        }
      }
    }
  }

  /** A container's contribution is exactly what its four matchers push. */
  lemma ContainerPoolExactly(c: Container)
    ensures forall p :: p in ContainerPool(c) <==> PushedBy(c, p)
  {
    MatchedExactly(c.items, MatchItem);
    MatchedExactly(c.terms, MatchTerm);
    MatchedExactly(c.labels, MatchLabel);
    MatchedExactly(c.rows, MatchRow);
  }

  lemma {:induction false} ContainersPoolMembers(cs: seq<Container>)
    ensures forall p :: p in ContainersPool(cs) <==> exists c :: c in cs && p in ContainerPool(c)
  {
    if cs != [] {
      var init, last := cs[..|cs| - 1], cs[|cs| - 1];
      ContainersPoolMembers(init);
      forall p
        ensures p in ContainersPool(cs) <==> exists c :: c in cs && p in ContainerPool(c)
      {
        if p in ContainersPool(init) {
          var c :| c in init && p in ContainerPool(c);
          assert c in cs;
        } else if p in ContainerPool(last) {
          assert last in cs;
        }
        if exists c :: c in cs && p in ContainerPool(c) {
          var c :| c in cs && p in ContainerPool(c);
          if c !in init {
            assert cs == init + [last];
          }
        }
      }
    }
  }

  lemma {:induction false} SelectorsPoolMembers(doc: Document, selectors: seq<string>)
    ensures forall p :: p in SelectorsPool(doc, selectors) <==>
      exists sel, c :: sel in selectors && c in doc.queryAll(sel) && p in ContainerPool(c)
  {
    if selectors != [] {
      var init, last := selectors[..|selectors| - 1], selectors[|selectors| - 1];
      SelectorsPoolMembers(doc, init);
      ContainersPoolMembers(doc.queryAll(last));
      forall p
        ensures p in SelectorsPool(doc, selectors) <==>
          exists sel, c :: sel in selectors && c in doc.queryAll(sel) && p in ContainerPool(c)
      {
        if p in SelectorsPool(doc, init) {
          var sel, c :| sel in init && c in doc.queryAll(sel) && p in ContainerPool(c);
          assert sel in selectors;
        } else if p in ContainersPool(doc.queryAll(last)) {
          var c :| c in doc.queryAll(last) && p in ContainerPool(c);
          assert last in selectors;
        }
        if exists sel, c :: sel in selectors && c in doc.queryAll(sel) && p in ContainerPool(c) {
          var sel, c :| sel in selectors && c in doc.queryAll(sel) && p in ContainerPool(c);
          if sel !in init {
            assert selectors == init + [last];
            assert p in ContainersPool(doc.queryAll(last));
          }
        }
      }
    }
  }

  /**
   * The pool holds exactly the pairs that a matcher pushes for an element of a
   * container found by one of the selectors: nothing else gets in, and no match
   * is missed.
   */
  lemma SelectorsPoolExactly(doc: Document, selectors: seq<string>)
    ensures forall p :: p in SelectorsPool(doc, selectors) <==> FoundOnPage(doc, selectors, p)
  {
    SelectorsPoolMembers(doc, selectors);
    forall p
      ensures p in SelectorsPool(doc, selectors) <==> FoundOnPage(doc, selectors, p)
    {
      if p in SelectorsPool(doc, selectors) {
        var sel, c :| sel in selectors && c in doc.queryAll(sel) && p in ContainerPool(c);
        ContainerPoolExactly(c);
      }
      if FoundOnPage(doc, selectors, p) {
        var sel, c :| sel in selectors && c in doc.queryAll(sel) && PushedBy(c, p);
        ContainerPoolExactly(c);
      }
    }
  }

  /** The raw label is compared without regard to case: "CONDITION:" is dropped. */
  lemma ConditionLabelDropped()
    ensures MatchItem(LabelsValuesItem(Some("CONDITION:"), Some("Used"))).None?
  {
    var upper := "CONDITION:";
    assert Trim(upper) == upper by {
      assert TrimStart(upper) == upper;
    }
    assert ToLower(upper) == "condition:" by {
      assert forall i :: 0 <= i < |upper| ==> ToLower(upper)[i] == "condition:"[i];
    }
    assert IsConditionLabel(Trim(upper));
  }

  /** The raw label is compared exactly otherwise: "Condition" without its colon is kept. */
  lemma ConditionWithoutColonKept()
    ensures MatchItem(LabelsValuesItem(Some("Condition"), Some("Used"))) == Some(Specific("Condition", "Used"))
  {
    var title, used := "Condition", "Used";
    assert Trim(title) == title by {
      assert TrimStart(title) == title;
    }
    assert Trim(used) == used by {
      assert TrimStart(used) == used;
    }
    assert |ToLower(title)| == 9;
    assert ':' !in title;
  }



  // ---------------------------------------------------------------------------
  // Item specifics: deduplication

  /** The dedup key: the lower-cased label and value run together, with no separator. */
  function Key(p: Specific): string {
    ToLower(p.labelText) + ToLower(p.value)
  }

  /** The position of the first pair in `ps` with key `k`. */
  function KeyPos(ps: seq<Specific>, k: string): (r: Option<nat>)
    ensures r.Some? ==> r.value < |ps| && Key(ps[r.value]) == k
    ensures r.Some? ==> forall j :: 0 <= j < r.value ==> Key(ps[j]) != k
    ensures r.None? ==> forall j :: 0 <= j < |ps| ==> Key(ps[j]) != k
  {
    if ps == [] then None
    else if Key(ps[0]) == k then Some(0)
    else match KeyPos(ps[1..], k)
      case None => None
      case Some(i) => Some(i + 1)
  }

  /** The position of the last pair in `ps` with key `k`. */
  function LastPos(ps: seq<Specific>, k: string): (r: Option<nat>)
    ensures r.Some? ==> r.value < |ps| && Key(ps[r.value]) == k
    ensures r.Some? ==> forall j :: r.value < j < |ps| ==> Key(ps[j]) != k
    ensures r.None? ==> forall j :: 0 <= j < |ps| ==> Key(ps[j]) != k
  {
    if ps == [] then None
    else if Key(ps[|ps| - 1]) == k then Some(|ps| - 1)
    else LastPos(ps[..|ps| - 1], k)
  }

  /**
   * `Array.from(new Map(ps.map(p => [Key(p), p])).values())`, one `set` at a time:
   * setting a key the map already holds replaces the value where it stands, a new
   * key goes at the end.
   */
  function Dedup(ps: seq<Specific>): (r: seq<Specific>)
    ensures |r| <= |ps|
  {
    if ps == [] then []
    else
      var prev := Dedup(ps[..|ps| - 1]);
      var p := ps[|ps| - 1];
      match KeyPos(prev, Key(p))
      case Some(i) => prev[i := p]
      case None => prev + [p]
  }

  /** No two pairs of the deduplicated list share a key. */
  lemma {:induction false} DedupDistinct(ps: seq<Specific>)
    ensures forall i, j :: 0 <= i < j < |Dedup(ps)| ==> Key(Dedup(ps)[i]) != Key(Dedup(ps)[j])
  {
    if ps != [] {
      var q, p := ps[..|ps| - 1], ps[|ps| - 1];
      DedupDistinct(q);
      var prev, r := Dedup(q), Dedup(ps);
      var found := KeyPos(prev, Key(p));
      if found.Some? {
        assert r == prev[found.value := p];
        assert forall i :: 0 <= i < |r| ==> Key(r[i]) == Key(prev[i]);
      } else {
        assert r == prev + [p];
        assert forall i :: 0 <= i < |prev| ==> Key(r[i]) == Key(prev[i]) != Key(r[|prev|]);
      }
    }
  }

  /** Each pair of the deduplicated list is the last pair of `ps` with its key: a later duplicate wins. */
  lemma {:induction false} DedupLastWins(ps: seq<Specific>)
    ensures forall i :: 0 <= i < |Dedup(ps)| ==>
      LastPos(ps, Key(Dedup(ps)[i])).Some? && Dedup(ps)[i] == ps[LastPos(ps, Key(Dedup(ps)[i])).value]
  {
    if ps != [] {
      var n := |ps|;
      var q, p := ps[..n - 1], ps[n - 1];
      DedupLastWins(q);
      DedupDistinct(q);
      var prev, r := Dedup(q), Dedup(ps);
      var found := KeyPos(prev, Key(p));
      assert LastPos(ps, Key(p)) == Some(n - 1);
      forall i | 0 <= i < |prev| && Key(prev[i]) != Key(p)
        ensures LastPos(ps, Key(prev[i])).Some? && prev[i] == ps[LastPos(ps, Key(prev[i])).value]
      {
        assert LastPos(ps, Key(prev[i])) == LastPos(q, Key(prev[i]));
        assert ps[LastPos(q, Key(prev[i])).value] == q[LastPos(q, Key(prev[i])).value];
      }
      if found.Some? {
        var k := found.value;
        assert r == prev[k := p];
        assert forall i :: 0 <= i < |prev| && i != k ==> Key(prev[i]) != Key(prev[k]);
      } else {
        assert r == prev + [p];
      }
    }
  }

  /** Every key of `ps` is kept. */
  lemma {:induction false} DedupComplete(ps: seq<Specific>)
    ensures forall j :: 0 <= j < |ps| ==> KeyPos(Dedup(ps), Key(ps[j])).Some?
  {
    if ps != [] {
      var n := |ps|;
      var q, p := ps[..n - 1], ps[n - 1];
      DedupComplete(q);
      var prev, r := Dedup(q), Dedup(ps);
      var found := KeyPos(prev, Key(p));
      assert r == if found.Some? then prev[found.value := p] else prev + [p];
      forall j | 0 <= j < n
        ensures KeyPos(r, Key(ps[j])).Some?
      {
        var m := if j == n - 1 then (if found.Some? then found.value else |prev|) else KeyPos(prev, Key(q[j])).value;
        assert Key(r[m]) == Key(ps[j]);
      }
    }
  }

  /** Every pair of `d` has a key that occurs in `ps`, and `d` lists them by where that key first occurs. */
  ghost predicate FirstOrdered(ps: seq<Specific>, d: seq<Specific>) {
    forall i, j :: 0 <= i < j < |d| ==>
      && KeyPos(ps, Key(d[i])).Some? && KeyPos(ps, Key(d[j])).Some?
      && KeyPos(ps, Key(d[i])).value < KeyPos(ps, Key(d[j])).value
  }

  /** The deduplicated list is ordered by where each key first occurs in `ps`. */
  lemma {:induction false} DedupFirstOrder(ps: seq<Specific>)
    ensures FirstOrdered(ps, Dedup(ps))
  {
    if ps != [] {
      var q := ps[..|ps| - 1];
      DedupFirstOrder(q);
      PrevKeysKeepFirstPos(ps);
      if KeyPos(Dedup(q), Key(ps[|ps| - 1])).Some? {
        FirstOrderReplaced(ps);
      } else {
        NewKeyIsLast(ps);
        FirstOrderAppended(ps);
      }
    } else {
      assert Dedup(ps) == [];
    }
  }

  /** The step of `DedupFirstOrder` where the last pair replaces a pair already held. */
  lemma FirstOrderReplaced(ps: seq<Specific>)
    requires ps != []
    requires FirstOrdered(ps[..|ps| - 1], Dedup(ps[..|ps| - 1]))
    requires KeyPos(Dedup(ps[..|ps| - 1]), Key(ps[|ps| - 1])).Some?
    requires var q := ps[..|ps| - 1];
      forall i :: 0 <= i < |Dedup(q)| ==>
        KeyPos(q, Key(Dedup(q)[i])).Some? && KeyPos(ps, Key(Dedup(q)[i])) == KeyPos(q, Key(Dedup(q)[i]))
    ensures FirstOrdered(ps, Dedup(ps))
  {
    var q, p := ps[..|ps| - 1], ps[|ps| - 1];
    var prev, r := Dedup(q), Dedup(ps);
    var k := KeyPos(prev, Key(p)).value;
    assert r == prev[k := p];
    forall i, j | 0 <= i < j < |r|
      ensures && KeyPos(ps, Key(r[i])).Some? && KeyPos(ps, Key(r[j])).Some?
              && KeyPos(ps, Key(r[i])).value < KeyPos(ps, Key(r[j])).value
    {
      assert Key(r[i]) == Key(prev[i]) && Key(r[j]) == Key(prev[j]);
      var earlier, later := prev[i], prev[j];  // both terms, so the order of `prev` applies
    }
  }

  /** The step of `DedupFirstOrder` where the last pair brings a new key to the end. */
  lemma FirstOrderAppended(ps: seq<Specific>)
    requires ps != []
    requires FirstOrdered(ps[..|ps| - 1], Dedup(ps[..|ps| - 1]))
    requires KeyPos(Dedup(ps[..|ps| - 1]), Key(ps[|ps| - 1])).None?
    requires KeyPos(ps, Key(ps[|ps| - 1])) == Some(|ps| - 1)
    requires var q := ps[..|ps| - 1];
      forall i :: 0 <= i < |Dedup(q)| ==>
        KeyPos(q, Key(Dedup(q)[i])).Some? && KeyPos(ps, Key(Dedup(q)[i])) == KeyPos(q, Key(Dedup(q)[i]))
    ensures FirstOrdered(ps, Dedup(ps))
  {
    var q, p := ps[..|ps| - 1], ps[|ps| - 1];
    var prev, r := Dedup(q), Dedup(ps);
    assert r == prev + [p];
    forall i, j | 0 <= i < j < |r|
      ensures && KeyPos(ps, Key(r[i])).Some? && KeyPos(ps, Key(r[j])).Some?
              && KeyPos(ps, Key(r[i])).value < KeyPos(ps, Key(r[j])).value
    {
      assert r[i] == prev[i];
      if j < |prev| {
        assert r[j] == prev[j];
        var earlier, later := prev[i], prev[j];  // both terms, so the order of `prev` applies
      } else {
        assert r[j] == p;
      }
    }
  }

  /** The keys the map held before the last pair keep their first position in `ps`. */
  lemma PrevKeysKeepFirstPos(ps: seq<Specific>)
    requires ps != []
    ensures var q := ps[..|ps| - 1];
      forall i :: 0 <= i < |Dedup(q)| ==>
        KeyPos(q, Key(Dedup(q)[i])).Some? && KeyPos(ps, Key(Dedup(q)[i])) == KeyPos(q, Key(Dedup(q)[i]))
  {
    var q := ps[..|ps| - 1];
    var prev := Dedup(q);
    DedupLastWins(q);
    forall i | 0 <= i < |prev|
      ensures KeyPos(q, Key(prev[i])).Some? && KeyPos(ps, Key(prev[i])) == KeyPos(q, Key(prev[i]))
    {
      var l := LastPos(q, Key(prev[i])).value;
      assert Key(q[l]) == Key(prev[i]);
      var f := KeyPos(q, Key(prev[i])).value;
      KeyPosIsFirst(ps, Key(prev[i]), f);
    }
  }

  /** A key the map did not hold before the last pair first occurs at the end of `ps`. */
  lemma NewKeyIsLast(ps: seq<Specific>)
    requires ps != []
    requires KeyPos(Dedup(ps[..|ps| - 1]), Key(ps[|ps| - 1])).None?
    ensures KeyPos(ps, Key(ps[|ps| - 1])) == Some(|ps| - 1)
  {
    var q, p := ps[..|ps| - 1], ps[|ps| - 1];
    var prev := Dedup(q);
    DedupComplete(q);
    forall j | 0 <= j < |q|
      ensures Key(ps[j]) != Key(p)
    {
      assert ps[j] == q[j];
      var m := KeyPos(prev, Key(q[j])).value;
      assert Key(prev[m]) == Key(q[j]);
      assert Key(prev[m]) != Key(p);
    }
    KeyPosIsFirst(ps, Key(p), |ps| - 1);
  }

  /** A position holding key `k` with no earlier `k` is the first position of `k`. */
  lemma KeyPosIsFirst(ps: seq<Specific>, k: string, i: nat)
    requires i < |ps| && Key(ps[i]) == k
    requires forall j :: 0 <= j < i ==> Key(ps[j]) != k
    ensures KeyPos(ps, k) == Some(i)
  {
  }

  /** The key has no separator: label "ab" with value "c" and label "a" with value "bc" collapse into one pair. */
  lemma KeysRunTogether()
    ensures Dedup([Specific("ab", "c"), Specific("a", "bc")]) == [Specific("a", "bc")]
  {
    var x, y := Specific("ab", "c"), Specific("a", "bc");
    assert Key(x) == Key(y) by {
      assert ToLower("ab") + ToLower("c") == "abc";
      assert ToLower("a") + ToLower("bc") == "abc";
    }
    assert [x, y][..1] == [x];
    assert [x][..0] == [];
  }

  // ---------------------------------------------------------------------------
  // The whole page

  /** The item specifics of the page: every container's matches, deduplicated. */
  function SpecificsOf(doc: Document): seq<Specific> {
    Dedup(SelectorsPool(doc, SpecificsContainerSelectors))
  }

  function ListingOf(doc: Document): ParsedListingData {
    ParsedListingData(TitleOf(doc), PriceOf(doc), DescriptionOf(doc), SpecificsOf(doc), ItemNumberOf(doc))
  }

  /** `parseeBayListingHTML` on an already parsed page: the five extractors in the source's order. */
  method ParseListing(doc: Document) returns (data: ParsedListingData)
    ensures data == ListingOf(doc)
  {
    var title := ExtractTitle(doc);
    var price := CleanPrice(RawPrice(doc));
    var description := ExtractDescription(doc);
    var specifics := CollectSpecifics(doc, SpecificsContainerSelectors);
    var unique := Dedup(specifics);
    var itemNumber := ExtractItemNumber(doc);
    data := ParsedListingData(title, price, description, unique, itemNumber);
  }

  /** Deduplication keeps only pairs of the pool, and keeps a pair for every key of the pool. */
  lemma DedupKeepsPoolPairs(ps: seq<Specific>)
    ensures forall i :: 0 <= i < |Dedup(ps)| ==> Dedup(ps)[i] in ps
    ensures forall p :: p in ps ==> KeyPos(Dedup(ps), Key(p)).Some?
  {
    DedupLastWins(ps);
    DedupComplete(ps);
  }

  /**
   * The listing's item specifics are pairs pushed for elements of the page's
   * specifics containers, and every such pair's key is represented.
   */
  lemma SpecificsFromPage(doc: Document)
    ensures forall i :: 0 <= i < |SpecificsOf(doc)| ==> FoundOnPage(doc, SpecificsContainerSelectors, SpecificsOf(doc)[i])
    ensures forall p :: FoundOnPage(doc, SpecificsContainerSelectors, p) ==> KeyPos(SpecificsOf(doc), Key(p)).Some?
  {
    SelectorsPoolExactly(doc, SpecificsContainerSelectors);
    DedupKeepsPoolPairs(SelectorsPool(doc, SpecificsContainerSelectors));
  }

  /** What every extracted listing satisfies, whatever the page. */
  lemma ListingInvariants(doc: Document)
    ensures ListingOf(doc).title != ""
    ensures forall i :: 0 <= i < |ListingOf(doc).price| ==> IsPriceChar(ListingOf(doc).price[i])
    ensures Filter(ListingOf(doc).price, IsDigit) == Filter(RawPrice(doc), IsDigit)
    ensures ListingOf(doc).descriptionHtml != ""
    ensures |ListingOf(doc).descriptionHtml| <= DescriptionLimit + |DescriptionMarker|
    ensures ListingOf(doc).itemNumber == NotFound || (|ListingOf(doc).itemNumber| > 5 && AllDigits(ListingOf(doc).itemNumber))
    ensures var specs := ListingOf(doc).itemSpecifics;
      && (forall i :: 0 <= i < |specs| ==> FoundOnPage(doc, SpecificsContainerSelectors, specs[i]))
      && (forall i, j :: 0 <= i < j < |specs| ==> Key(specs[i]) != Key(specs[j]))
  {
    SpecificsFromPage(doc);
    DedupDistinct(SelectorsPool(doc, SpecificsContainerSelectors));
    CleanPriceKeepsDigits(RawPrice(doc));
  }
}
