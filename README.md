# newsroom: the source catalog and the scraping pipelines

A Dafny model of `src/sources.rs` of *newsroom*, a command-line tool that prints
the top items of five news sites. The model covers:

- the **source catalog**: the closed `NewsSource` enumeration, its strict
  `FromStr` parser, its `Display` labels, `NewsSource::all()`, and the
  `NewsInfo` record with its `Display` rendering (module `Catalog`);
- the **extraction pipelines** of `Scraper::scrap`: one GET to the source's
  fixed URL, then the source's own ordering of filtering, adjacent
  deduplication and truncation to `max_page` (module `Scraping`), built from
  `take`/`filter_map`/`map` (module `Iterators`), `Vec::dedup` (module
  `VecDedup`, with the in-place algorithm on an array), Rust's `str::trim`
  and string concatenation (module `Text`), and the `extract` closure over
  abstract parsed elements (module `Documents`);
- the crate's three-way error type and `Result` alias (module `Errors`).

The network is a parameter `get: string -> Response` of `Scraper.Scrap`: a
response is a transport failure or a body, and a body is given both as the
parsed HTML document (an element whose `select` map says which elements each
CSS selector finds) and as the parsed RSS channel (`None` when the feed is
malformed). A panic of `Option::unwrap` is the `Panicked` outcome, apart from the
`Result` the function otherwise returns.

Behaviour of the code that the model keeps as written:

- `max_page` is a `usize`, so 0 is accepted and every pipeline then returns no
  records.
- Titles are not always non-empty: HackerNews, TechMeme, WSJ and
  GithubTrending keep empty titles; only ProductHunt filters on emptiness.
- TechMeme skips only items whose title is *absent*; an item whose title is
  the empty string is kept (`TechMemeSkipsUntitled`).
- WSJ panics on the first untitled item among the first `max_page`, where
  TechMeme skips it. The model keeps this asymmetry (`FromWsj`,
  `WsjPanicsWhereTechMemeSkips`).

## Model

| member | source | states |
|---|---|---|
| Catalog.FromStr | src/sources.rs:21-33 | succeeds exactly on the token of some source, the parsed source's token is the input, and every other input fails with `ParseError` carrying that input |
| Catalog.FromStrToken | src/sources.rs:21-33 | parsing the token of any source gives back that source |
| Catalog.TokenInjective | src/sources.rs:21-33 | distinct sources have distinct tokens |
| Catalog.FromStrIsStrict | src/sources.rs:21-33 | case variants, padded tokens and the empty string are rejected |
| Catalog.Label | src/sources.rs:36-48 | every label is non-empty, made of upper-case letters and spaces only, and is rejected by the parser |
| Catalog.LabelsDistinctAndNotTokens | src/sources.rs:36-48 | display labels tell sources apart and never parse as a token |
| Catalog.All | src/sources.rs:51-59 | five sources, pairwise distinct, in the order HackerNews, ProductHunt, TechMeme, WSJ, GithubTrending |
| Catalog.AllIsComplete | src/sources.rs:51-59 | every source is in `all()` |
| Catalog.Render | src/sources.rs:68-76 | the text starts with the title, has exactly the title's length when there is no description, and otherwise continues with " - " and the description |
| Catalog.RenderIsNotInjective | src/sources.rs:68-76 | two different records can render alike, and an empty description still prints the separator |
| Text.TrimStart | src/sources.rs:99 | the result is a suffix of the input, only whitespace was removed, and it does not start with whitespace |
| Text.TrimEnd | src/sources.rs:99 | the result is a prefix of the input, only whitespace was removed, and it does not end with whitespace |
| Text.Trim | src/sources.rs:99 | the result is a slice of the input with only leading and trailing whitespace removed, and neither starts nor ends with whitespace |
| Text.TrimEmptyIff | src/sources.rs:99 | trimming gives the empty string exactly when the input is all whitespace |
| Text.TrimIdempotent | src/sources.rs:99 | trimming a trimmed string changes nothing |
| Text.Concat | src/sources.rs:114 | the concatenation is empty exactly when every fragment is empty |
| Text.JoinTrimmed | src/sources.rs:99 | the joined trimmed text is no longer than the untrimmed concatenation |
| Text.JoinTrimmedEmptyIff | src/sources.rs:99 | the joined trimmed text is empty exactly when every fragment is whitespace only |
| Documents.InnerText | src/sources.rs:114 | an element's raw text is empty exactly when all its text fragments are empty |
| Documents.TrimmedTexts | src/sources.rs:99 | one trimmed, joined text per element, in order |
| Documents.Extract | src/sources.rs:94-101 | empty when the selector matches nothing, otherwise the trimmed, joined text of the first match only |
| Documents.ExtractEmptyIff | src/sources.rs:94-101 | the extracted text is empty exactly when nothing matches or the first match holds only whitespace |
| Iterators.Take | src/sources.rs:112 | the result is a prefix of the input of length min(n, length) |
| Iterators.FilterMap | src/sources.rs:132-146 | the result is no longer than the input |
| Iterators.FilterMapAppend | src/sources.rs:132-146 | filtering distributes over concatenation, so input order is kept |
| Iterators.FilterMapMembership | src/sources.rs:156-162 | a value is in the result exactly when the closure yields it for some element |
| Iterators.FilterMapKeepsAll | src/sources.rs:156-162 | when the closure keeps every element, the result has one value per element, in order |
| VecDedup.Dedup | src/sources.rs:148 | no longer than the input, empty exactly when the input is, and keeps the input's first and last elements |
| VecDedup.DedupIsRunHeads | src/sources.rs:148 | the result is exactly the input elements that differ from their immediate predecessor in the input |
| VecDedup.DedupHasNoAdjacentDuplicates | src/sources.rs:148 | the result has no two equal neighbours |
| VecDedup.DedupKeepsValues | src/sources.rs:148 | the result holds exactly the values of the input |
| VecDedup.DedupOfDistinctNeighbours | src/sources.rs:148 | an input without equal neighbours is unchanged |
| VecDedup.DedupIdempotent | src/sources.rs:148 | deduplicating twice equals deduplicating once |
| VecDedup.DedupPrefix | src/sources.rs:148 | deduplicating a prefix gives a prefix of the result |
| VecDedup.DedupAppend | src/sources.rs:148 | pieces whose meeting elements differ deduplicate separately |
| VecDedup.DedupCollapsesRepeat | src/sources.rs:148 | two consecutive equal elements collapse into one |
| VecDedup.DedupSeparatedSurvive | src/sources.rs:148 | equal elements with a different one between them all survive, still in that pattern |
| VecDedup.DedupInPlace | src/sources.rs:148 | rewrites the array in place so that its first `len` cells are the deduplicated contents |
| Scraping.FromHackerNews | src/sources.rs:109-117 | min(max_page, matches) records, in document order, each the untrimmed raw text of its link with no description |
| Scraping.ProductHuntCard | src/sources.rs:132-145 | a card yields a record exactly when its first title match and its first description match each hold some non-whitespace text; the record's title and `Some` description are those matches' trimmed, joined texts |
| Scraping.Candidates | src/sources.rs:129-146 | every collected record has a non-empty title and a `Some` non-empty description |
| Scraping.FromProductHunt | src/sources.rs:129-150 | a prefix of the deduplicated candidates of length min(max_page, their count), well-formed and free of equal neighbours, so truncation comes after filtering and dedup |
| Scraping.ProductHuntNews | src/sources.rs:129-150 | collecting into an array, deduplicating it in place and taking `max_page` gives the pipeline's result |
| Scraping.ProductHuntDedupIsAdjacentOnly | src/sources.rs:148 | two equal consecutive records give one; equal records around a different one all stay |
| Scraping.Titled | src/sources.rs:153-162 | at most one record per item, none with a description |
| Scraping.TitledMembership | src/sources.rs:156-162 | a title is in the result exactly when some item carries it |
| Scraping.TitledKeepsTitledItems | src/sources.rs:156-162 | with every item titled, the records are the items' titles in order |
| Scraping.FromTechMeme | src/sources.rs:152-164 | the first min(max_page, titled count) titled records, without descriptions; an empty feed gives no records |
| Scraping.TechMemeSkipsUntitled | src/sources.rs:156-164 | an untitled item is skipped without failure while an empty title is kept |
| Scraping.UnwrapTitles | src/sources.rs:170-173 | panics exactly when some item has no title; otherwise one record per item with its title and its description unchanged |
| Scraping.FromWsj | src/sources.rs:166-174 | panics exactly when one of the first max_page items is untitled; otherwise min(max_page, items) records with descriptions passed through |
| Scraping.WsjIgnoresItemsBeyondLimit | src/sources.rs:168-169 | items after the first max_page never change the outcome |
| Scraping.WsjPanicsWhereTechMemeSkips | src/sources.rs:156-174 | the item TechMeme skips makes WSJ panic, unless it lies beyond the limit |
| Scraping.FromGithubTrending | src/sources.rs:185-193 | min(max_page, rows) records in order, each the extracted name with an always-present, possibly empty, extracted description |
| Scraping.Scraper.Scrap | src/sources.rs:93-196 | fails with `HttpError` exactly when the fetch fails, with `RssError` exactly for a feed source whose feed is malformed, panics exactly in the WSJ case above, never with `ParseError`, and never returns more than max_page records |
| Scraping.UrlInjective | src/sources.rs:78-82 | the five endpoints are distinct |
| Scraping.FailureIsIsolated | src/sources.rs:103-106 | a failing endpoint makes its own source fail and leaves every other source's result unchanged |

## Left out

- Network I/O: `reqwest::blocking::get`, `.text()` and `.bytes()` are the parameter `get`; a failure to read or decode the body is folded into `HttpFailure`.
- HTML parsing and CSS selector matching (`Html::parse_document`, `Selector::parse`, `select`): an element's text fragments and per-selector matches are inputs; the selector strings are kept as constants but not interpreted.
- RSS parsing (`Channel::read_from`, `into_items`): the channel is an input, `None` when malformed; only an item's title and description are modelled.
- Error payloads: the `reqwest`, `io` and `rss` error values are not modelled, except the input carried by `ParseError`; the `io::ErrorKind::InvalidInput` kind is not.
- The panic message of `unwrap` and the unwinding it causes: a panic is only the `Panicked` outcome.
- Text encoding: strings are sequences of Unicode scalar values; UTF-8 and lossy decoding are not modelled. Whitespace is the Unicode White_Space set used by `char::is_whitespace`.
- Laziness of the iterator chains: they are modelled as whole-sequence functions; where evaluation order is observable (the WSJ panic), `take` is applied before the unwrapping map, as in the code.
- VecDedup.DedupInPlace: the vector is an array plus the returned length; what `truncate` drops past that length and the vector's capacity are not modelled.
- src/main.rs: argument parsing (default `max_page` 10), the parallel fan-out over sources and the numbered console output are not part of this model.
- src/lib.rs: module wiring and re-exports; only the `Result` alias is modelled.
