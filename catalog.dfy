/** The source catalog of src/sources.rs: the closed `NewsSource`
    enumeration, its `FromStr` and `Display` implementations, `all()`, and
    the `NewsInfo` record with its `Display` rendering. */
module Catalog {
  import opened Wrappers
  import opened Errors

  datatype NewsSource = HackerNews | ProductHunt | TechMeme | WSJ | GithubTrending

  /** The token each source is parsed from (the arms of `from_str`). */
  function Token(source: NewsSource): string {
    match source
    case HackerNews => "hackernews"
    case ProductHunt => "producthunt"
    case TechMeme => "techmeme"
    case WSJ => "wsj"
    case GithubTrending => "github-trending"
  }

  /** `NewsSource::from_str`: an exact, case-sensitive match of the whole
      input against the five tokens; anything else is a `ParseError` that
      carries the input. */
  function FromStr(s: string): (r: Result<NewsSource>)
    ensures r.Ok? <==> exists source :: Token(source) == s
    ensures r.Ok? ==> Token(r.value) == s
    ensures r.Err? ==> r.error == ParseError(s)
  {
    match s
    case "hackernews" => assert Token(HackerNews) == s; Ok(HackerNews)
    case "producthunt" => assert Token(ProductHunt) == s; Ok(ProductHunt)
    case "techmeme" => assert Token(TechMeme) == s; Ok(TechMeme)
    case "wsj" => assert Token(WSJ) == s; Ok(WSJ)
    case "github-trending" => assert Token(GithubTrending) == s; Ok(GithubTrending)
    case _ => Err(ParseError(s))
  }

  /** Parsing a source's own token gives back that source, so tokens and
      sources are in one-to-one correspondence. */
  lemma FromStrToken(source: NewsSource)
    ensures FromStr(Token(source)) == Ok(source)
  {
  }

  /** Every accepted token is the token of exactly the source it yields. */
  lemma TokenInjective(a: NewsSource, b: NewsSource)
    ensures Token(a) == Token(b) ==> a == b
  {
  }

  /** No normalisation: a case variant or a padded token is rejected. */
  lemma FromStrIsStrict()
    ensures FromStr("HackerNews") == Err(ParseError("HackerNews"))
    ensures FromStr("WSJ") == Err(ParseError("WSJ"))
    ensures FromStr(" wsj") == Err(ParseError(" wsj"))
    ensures FromStr("github-trending\n") == Err(ParseError("github-trending\n"))
    ensures FromStr("") == Err(ParseError(""))
  {
  }

  /** `Display for NewsSource`: the heading printed above each source. */
  function Label(source: NewsSource): (r: string)
    ensures r != []
    ensures forall k :: 0 <= k < |r| ==> 'A' <= r[k] <= 'Z' || r[k] == ' '
    ensures FromStr(r) == Err(ParseError(r))
  {
    match source
    case HackerNews => "HACKER NEWS"
    case ProductHunt => "PRODUCT HUNT"
    case TechMeme => "TECHMEME"
    case WSJ => "WALL STREET JOURNAL"
    case GithubTrending => "GITHUB TRENDING"
  }

  /** Labels tell sources apart, and a label is never a parse token: the
      printed heading does not parse back. */
  lemma LabelsDistinctAndNotTokens(a: NewsSource, b: NewsSource)
    ensures Label(a) == Label(b) ==> a == b
    ensures FromStr(Label(a)) == Err(ParseError(Label(a)))
  {
  }

  /** `NewsSource::all()`: each source exactly once, in declaration order. */
  function All(): (r: seq<NewsSource>)
    ensures |r| == 5
    ensures r[0] == HackerNews && r[1] == ProductHunt && r[2] == TechMeme
    ensures r[3] == WSJ && r[4] == GithubTrending
    ensures forall i, j :: 0 <= i < j < |r| ==> r[i] != r[j]
  {
    [HackerNews, ProductHunt, TechMeme, WSJ, GithubTrending]
  }

  /** No source is missing from `all()`, so running every source covers the
      whole catalog. */
  lemma AllIsComplete(source: NewsSource)
    ensures source in All()
  {
  }

  /** One scraped record; equality is structural on both fields, as the
      derived `PartialEq` is. */
  datatype NewsInfo = NewsInfo(title: string, description: Option<string>)

  /** `Display for NewsInfo`: the title, followed by " - " and the
      description when there is one. */
  function Render(info: NewsInfo): (r: string)
    ensures |info.title| <= |r| && r[..|info.title|] == info.title
    ensures info.description.None? <==> |r| == |info.title|
    ensures info.description.Some? ==> r[|info.title|..] == " - " + info.description.value
  {
    match info.description
    case Some(description) => info.title + " - " + description
    case None => info.title
  }

  /** Rendering loses information: a title that itself contains " - " prints
      like a titled record with a description, and an empty description
      still prints the separator. */
  lemma RenderIsNotInjective()
    ensures Render(NewsInfo("a - b", None)) == Render(NewsInfo("a", Some("b")))
    ensures Render(NewsInfo("a", Some(""))) == "a - "
  {
  }
}
