/** The inputs the scraper works on, with the HTML parser, the CSS selector
    engine and the RSS parser abstracted away: a parsed element is given by
    its text fragments and by the elements each selector finds beneath it,
    and a feed by its items. */
module Documents {
  import opened Wrappers
  import opened Text
  import opened Iterators

  /** An HTML element (or a whole parsed document): `text` is what
      `element.text()` yields, one string per descendant text node in
      document order, and `select[selector]` is what
      `element.select(selector)` yields, in document order. A selector that
      is not a key matches nothing. */
  datatype Element = Element(text: seq<string>, select: map<string, seq<Element>>)

  function Select(e: Element, selector: string): seq<Element> {
    if selector in e.select then e.select[selector] else []
  }

  /** `e.text().collect::<String>()`: the fragments joined as they are. */
  function InnerText(e: Element): (r: string)
    ensures r == [] <==> forall k :: 0 <= k < |e.text| ==> e.text[k] == []
  {
    Concat(e.text)
  }

  /** The trimmed, joined text of each element. */
  function TrimmedTexts(elements: seq<Element>): (r: seq<string>)
    ensures |r| == |elements|
    ensures forall k :: 0 <= k < |r| ==> r[k] == JoinTrimmed(elements[k].text)
  {
    if elements == [] then [] else [JoinTrimmed(elements[0].text)] + TrimmedTexts(elements[1..])
  }

  /** The `extract` closure of `Scraper::scrap`: of the elements `selector`
      finds beneath `e`, only the first is looked at, and its text fragments
      are trimmed one by one and joined; when nothing matches the result is
      the empty string. */
  function Extract(e: Element, selector: string): (r: string)
    ensures Select(e, selector) == [] ==> r == []
    ensures Select(e, selector) != [] ==> r == JoinTrimmed(Select(e, selector)[0].text)
  {
    Concat(TrimmedTexts(Take(Select(e, selector), 1)))
  }

  /** `selector` matches beneath `e`, and its first match holds some
      non-whitespace text. */
  predicate HasVisibleText(e: Element, selector: string) {
    Select(e, selector) != [] && !AllBlank(Select(e, selector)[0].text)
  }

  /** The extracted text is empty exactly when nothing matches or every text
      fragment of the first match is whitespace. */
  lemma ExtractEmptyIff(e: Element, selector: string)
    ensures Extract(e, selector) == [] <==>
            Select(e, selector) == [] || AllBlank(Select(e, selector)[0].text)
  {
    if Select(e, selector) != [] {
      JoinTrimmedEmptyIff(Select(e, selector)[0].text);
    }
  }

  /** An item of an RSS channel, as `rss::Item` exposes it. */
  datatype Item = Item(title: Option<string>, description: Option<string>)

  /** The outcome of one blocking GET and of reading its body. A successful
      body is given in both interpretations the scraper may apply to it:
      as a parsed HTML document (parsing is tolerant and never fails), and
      as an RSS channel, which is `None` when the bytes are not a well-formed
      feed. */
  datatype Response =
    | HttpFailure
    | Body(document: Element, channel: Option<seq<Item>>)
}
