/** `Scraper` and its `scrap` method (src/sources.rs): one GET to the fixed
    endpoint of the requested source, then that source's own ordering of
    filtering, adjacent deduplication and truncation to `max_page`. */
module Scraping {
  import opened Wrappers
  import opened Errors
  import opened Text
  import opened Catalog
  import opened Documents
  import opened Iterators
  import opened VecDedup

  const HackerNewsUrl := "https://news.ycombinator.com/"
  const ProductHuntUrl := "https://www.producthunt.com/"
  const TechMemeUrl := "https://www.techmeme.com/feed.xml"
  const WsjUrl := "https://feeds.a.dj.com/rss/RSSWSJD.xml"
  const GithubTrendingUrl := "https://github.com/trending"

  /** The endpoint each source is fetched from. */
  function Url(source: NewsSource): string {
    match source
    case HackerNews => HackerNewsUrl
    case ProductHunt => ProductHuntUrl
    case TechMeme => TechMemeUrl
    case WSJ => WsjUrl
    case GithubTrending => GithubTrendingUrl
  }

  const HackerNewsSelector := "a[class=\"storylink\"]"
  const ProductHuntSelector := "div[class^=\"styles_container\"]:nth-child(2) div[class^=\"styles_content\"]"
  const ProductHuntTitleSelector := "h3 a[data-test]"
  const ProductHuntDescriptionSelector := "p a"
  const GithubTrendingSelector := "article[class=\"Box-row\"]"
  const GithubTrendingTitleSelector := "h1"
  const GithubTrendingDescriptionSelector := "p"

  function Min(a: nat, b: nat): nat {
    if a <= b then a else b
  }

  // ---------------------------------------------------------------- HackerNews

  /** Take `max_page` matched story links, then map each to its raw inner
      text, untrimmed and unfiltered, without a description. */
  function FromHackerNews(maxPage: nat, links: seq<Element>): (r: seq<NewsInfo>)
    ensures |r| == Min(maxPage, |links|)
    ensures forall k :: 0 <= k < |r| ==> r[k] == NewsInfo(InnerText(links[k]), None)
  {
    var kept := Take(links, maxPage);
    seq(|kept|, k requires 0 <= k < |kept| => NewsInfo(InnerText(kept[k]), None))
  }

  // --------------------------------------------------------------- ProductHunt

  /** A record the ProductHunt pipeline may produce. */
  predicate WellFormedCard(info: NewsInfo) {
    info.title != [] && info.description.Some? && info.description.value != []
  }

  /** The `filter_map` closure: a card yields a record exactly when the
      first title match and the first description match beneath it both hold
      some non-whitespace text; the record is their trimmed, joined texts. */
  function ProductHuntCard(card: Element): (r: Option<NewsInfo>)
    ensures r.Some? <==>
            HasVisibleText(card, ProductHuntTitleSelector) && HasVisibleText(card, ProductHuntDescriptionSelector)
    ensures r.Some? ==>
              r.value.title == JoinTrimmed(Select(card, ProductHuntTitleSelector)[0].text) &&
              r.value.description == Some(JoinTrimmed(Select(card, ProductHuntDescriptionSelector)[0].text))
    ensures r.Some? ==> WellFormedCard(r.value)
  {
    ExtractEmptyIff(card, ProductHuntTitleSelector);
    ExtractEmptyIff(card, ProductHuntDescriptionSelector);
    var title, description := Extract(card, ProductHuntTitleSelector), Extract(card, ProductHuntDescriptionSelector);
    if title != [] && description != [] then Some(NewsInfo(title, Some(description))) else None
  }

  /** The vector collected from `filter_map` over every matched card: in
      document order, the records of the cards that yield one. */
  function Candidates(cards: seq<Element>): (r: seq<NewsInfo>)
    ensures |r| <= |cards|
    ensures forall k :: 0 <= k < |r| ==> WellFormedCard(r[k])
  {
    var r := FilterMap(cards, ProductHuntCard);
    forall k | 0 <= k < |r| ensures WellFormedCard(r[k]) {
      FilterMapMembership(cards, ProductHuntCard, r[k]);
    }
    r
  }

  /** Filter, then `dedup`, then take `max_page`. */
  function FromProductHunt(maxPage: nat, cards: seq<Element>): (r: seq<NewsInfo>)
    ensures |r| == Min(maxPage, |Dedup(Candidates(cards))|)
    ensures r <= Dedup(Candidates(cards))
    ensures forall k :: 0 <= k < |r| ==> WellFormedCard(r[k])
    ensures NoAdjacentDuplicates(r)
  {
    var deduped := Dedup(Candidates(cards));
    DedupKeepsValues(Candidates(cards));
    DedupHasNoAdjacentDuplicates(Candidates(cards));
    assert forall k :: 0 <= k < |deduped| ==> deduped[k] in Candidates(cards);
    Take(deduped, maxPage)
  }

  /** The ProductHunt arm as the source runs it: the candidates are collected
      into a vector that `dedup` rewrites in place and truncates, and the
      first `max_page` survivors are returned. */
  method ProductHuntNews(maxPage: nat, cards: seq<Element>) returns (news: seq<NewsInfo>)
    ensures news == FromProductHunt(maxPage, cards)
  {
    var collected := Candidates(cards);
    var vec := new NewsInfo[|collected|](k requires 0 <= k < |collected| => collected[k]);
    assert vec[..] == collected;
    var len := DedupInPlace(vec);
    news := Take(vec[..len], maxPage);
  }

  /** Equal cards that follow each other appear once; equal cards with a
      different one between them both appear (before truncation). */
  lemma ProductHuntDedupIsAdjacentOnly(a: NewsInfo, b: NewsInfo)
    requires WellFormedCard(a) && WellFormedCard(b) && a != b
    ensures Dedup([a, a]) == [a]
    ensures Dedup([a, b, a]) == [a, b, a]
  {
    DedupCollapsesRepeat([], a, []);
    assert Dedup([a]) == [a] by { assert [a][..0] == []; }
    DedupOfDistinctNeighbours([a, b, a]);
  }

  // ------------------------------------------------------------------ TechMeme

  /** The `filter_map` closure: an item with a title becomes a record
      without a description. */
  function TitleRecord(item: Item): (r: Option<NewsInfo>)
    ensures r.Some? <==> item.title.Some?
    ensures r.Some? ==> r.value == NewsInfo(item.title.value, None)
  {
    match item.title
    case Some(title) => Some(NewsInfo(title, None))
    case None => None
  }

  /** The titled items, in document order, as records without description. */
  function Titled(items: seq<Item>): (r: seq<NewsInfo>)
    ensures |r| <= |items|
    ensures forall k :: 0 <= k < |r| ==> r[k].description == None
  {
    var r := FilterMap(items, TitleRecord);
    forall k | 0 <= k < |r| ensures r[k].description == None {
      FilterMapMembership(items, TitleRecord, r[k]);
    }
    r
  }

  /** A title appears in the result exactly when some item carries it. */
  lemma TitledMembership(items: seq<Item>, title: string)
    ensures NewsInfo(title, None) in Titled(items) <==>
            exists k :: 0 <= k < |items| && items[k].title == Some(title)
  {
    FilterMapMembership(items, TitleRecord, NewsInfo(title, None));
    assert forall k :: 0 <= k < |items| ==>
      (TitleRecord(items[k]) == Some(NewsInfo(title, None)) <==> items[k].title == Some(title));
  }

  /** When every item has a title, none is skipped. */
  lemma TitledKeepsTitledItems(items: seq<Item>)
    requires forall k :: 0 <= k < |items| ==> items[k].title.Some?
    ensures |Titled(items)| == |items|
    ensures forall k :: 0 <= k < |items| ==> Titled(items)[k] == NewsInfo(items[k].title.value, None)
  {
    FilterMapKeepsAll(items, TitleRecord);
  }

  /** Keep the titled items, then take `max_page`: the result is the first
      `max_page` titled items in document order. */
  function FromTechMeme(maxPage: nat, items: seq<Item>): (r: seq<NewsInfo>)
    ensures |r| == Min(maxPage, |Titled(items)|)
    ensures r <= Titled(items)
    ensures forall k :: 0 <= k < |r| ==> r[k].description == None
    ensures items == [] ==> r == []
  {
    Take(Titled(items), maxPage)
  }

  /** An untitled item is skipped, not an error; an empty title is still a
      title and is kept. */
  lemma TechMemeSkipsUntitled()
    ensures FromTechMeme(10, [Item(Some("A"), None), Item(None, Some("b")), Item(Some("C"), None)])
            == [NewsInfo("A", None), NewsInfo("C", None)]
    ensures FromTechMeme(10, [Item(Some("A"), None), Item(Some(""), None)])
            == [NewsInfo("A", None), NewsInfo("", None)]
  {
    var first := [Item(Some("A"), None), Item(None, Some("b")), Item(Some("C"), None)];
    assert first[1..][1..][1..] == [];
    var second := [Item(Some("A"), None), Item(Some(""), None)];
    assert second[1..][1..] == [];
  }

  // ----------------------------------------------------------------------- WSJ

  /** The `map` with `item.title.unwrap()`; `None` stands for the panic the
      first untitled item causes. */
  function UnwrapTitles(items: seq<Item>): (r: Option<seq<NewsInfo>>)
    ensures r.None? <==> exists k :: 0 <= k < |items| && items[k].title.None?
    ensures r.Some? ==> |r.value| == |items|
    ensures r.Some? ==> forall k :: 0 <= k < |items| ==>
                          r.value[k] == NewsInfo(items[k].title.value, items[k].description)
  {
    if items == [] then Some([])
    else
      match items[0].title
      case None => None
      case Some(title) =>
        match UnwrapTitles(items[1..])
        case None =>
          assert exists k :: 0 <= k < |items[1..]| && items[1..][k].title.None?;
          var j :| 0 <= j < |items[1..]| && items[1..][j].title.None?;
          assert items[j + 1].title.None?;
          None
        case Some(rest) =>
          assert forall k :: 1 <= k < |items| ==> items[k] == items[1..][k - 1];
          Some([NewsInfo(title, items[0].description)] + rest)
  }

  /** Take `max_page`, then unwrap each title: the pipeline panics exactly
      when one of the first `max_page` items has no title, and otherwise
      passes every description through unchanged. */
  function FromWsj(maxPage: nat, items: seq<Item>): (r: Option<seq<NewsInfo>>)
    ensures r.None? <==> exists k :: 0 <= k < Min(maxPage, |items|) && items[k].title.None?
    ensures r.Some? ==> |r.value| == Min(maxPage, |items|)
    ensures r.Some? ==> forall k :: 0 <= k < |r.value| ==>
                          r.value[k] == NewsInfo(items[k].title.value, items[k].description)
  {
    var kept := Take(items, maxPage);
    assert forall k :: 0 <= k < |kept| ==> kept[k] == items[k];
    UnwrapTitles(kept)
  }

  /** Items past the first `max_page` are never inspected. */
  lemma WsjIgnoresItemsBeyondLimit(maxPage: nat, items: seq<Item>, rest: seq<Item>)
    requires maxPage <= |items|
    ensures FromWsj(maxPage, items + rest) == FromWsj(maxPage, items)
  {
    assert Take(items + rest, maxPage) == Take(items, maxPage);
  }

  /** The strictness asymmetry: the same untitled item TechMeme skips makes
      WSJ panic. */
  lemma WsjPanicsWhereTechMemeSkips()
    ensures FromTechMeme(10, [Item(None, Some("b"))]) == []
    ensures FromWsj(10, [Item(None, Some("b"))]) == None
    ensures FromWsj(0, [Item(None, Some("b"))]) == Some([])
  {
    assert [Item(None, Some("b"))][1..] == [];
  }

  // ------------------------------------------------------------ GithubTrending

  /** Take `max_page` repository rows, then map each to its extracted name and
      its extracted description, which is always present though it may be
      empty. */
  function FromGithubTrending(maxPage: nat, rows: seq<Element>): (r: seq<NewsInfo>)
    ensures |r| == Min(maxPage, |rows|)
    ensures forall k :: 0 <= k < |r| ==>
              r[k] == NewsInfo(Extract(rows[k], GithubTrendingTitleSelector),
                               Some(Extract(rows[k], GithubTrendingDescriptionSelector)))
  {
    var kept := Take(rows, maxPage);
    seq(|kept|, k requires 0 <= k < |kept| =>
      NewsInfo(Extract(kept[k], GithubTrendingTitleSelector),
               Some(Extract(kept[k], GithubTrendingDescriptionSelector))))
  }

  // ------------------------------------------------------------------ dispatch

  /** How one call of `scrap` ends: it returns a `Result`, or it panics. */
  datatype Outcome = Returned(result: Result<seq<NewsInfo>>) | Panicked

  /** `Scraper::new(max_page)` builds this value; `get` stands for
      `reqwest::blocking::get` followed by reading the body. */
  datatype Scraper = Scraper(maxPage: nat) {

    /** `Scraper::scrap`: fetch the source's URL once, then run its
        pipeline on the parsed body. */
    function Scrap(source: NewsSource, get: string -> Response): (r: Outcome)
      ensures r == Returned(Err(HttpError)) <==> get(Url(source)).HttpFailure?
      ensures r == Returned(Err(RssError)) <==>
              (source == TechMeme || source == WSJ) && get(Url(source)).Body? && get(Url(source)).channel.None?
      ensures r.Panicked? <==>
              source == WSJ && get(Url(source)).Body? && get(Url(source)).channel.Some? &&
              exists k :: 0 <= k < Min(maxPage, |get(Url(source)).channel.value|) &&
                          get(Url(source)).channel.value[k].title.None?
      ensures r.Returned? ==> !r.result.Err? || !r.result.error.ParseError?
      ensures r.Returned? && r.result.Ok? ==> |r.result.value| <= maxPage
    {
      match get(Url(source))
      case HttpFailure => Returned(Err(HttpError))
      case Body(document, channel) =>
        match source
        case HackerNews =>
          Returned(Ok(FromHackerNews(maxPage, Select(document, HackerNewsSelector))))
        case ProductHunt =>
          Returned(Ok(FromProductHunt(maxPage, Select(document, ProductHuntSelector))))
        case TechMeme =>
          (match channel
           case None => Returned(Err(RssError))
           case Some(items) => Returned(Ok(FromTechMeme(maxPage, items))))
        case WSJ =>
          (match channel
           case None => Returned(Err(RssError))
           case Some(items) =>
             match FromWsj(maxPage, items)
             case None => Panicked
             case Some(news) => Returned(Ok(news)))
        case GithubTrending =>
          Returned(Ok(FromGithubTrending(maxPage, Select(document, GithubTrendingSelector))))
    }
  }

  /** The five endpoints are distinct. */
  lemma UrlInjective(a: NewsSource, b: NewsSource)
    ensures Url(a) == Url(b) ==> a == b
  {
  }

  /** A failing endpoint affects only its own source: every other source
      scrapes the same as when that endpoint answers. */
  lemma FailureIsIsolated(scraper: Scraper, failing: NewsSource, other: NewsSource, get: string -> Response)
    requires failing != other
    ensures scraper.Scrap(failing, u => if u == Url(failing) then HttpFailure else get(u))
            == Returned(Err(HttpError))
    ensures scraper.Scrap(other, u => if u == Url(failing) then HttpFailure else get(u))
            == scraper.Scrap(other, get)
  {
    UrlInjective(failing, other);
    var broken := u => if u == Url(failing) then HttpFailure else get(u);
    assert broken(Url(other)) == get(Url(other));
  }
}
