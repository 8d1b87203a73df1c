/**
  The article extraction policy of the crawl callback `CryptoNewsSpider.parse_item`.
  Evaluating CSS selectors against the fetched HTML is outside the model: a
  `Response` carries what each selector returned. The permissive date parser
  (`dateutil.parser.parse(...).isoformat()`) is a partial function passed in.
 */
module Spider {
  import opened Wrappers
  import opened PyText

  /** The selector results `parse_item` reads from one fetched page. */
  datatype Response = Response(
    url: string,                          // response.url
    h1Text: Option<string>,               // first text node of an h1, or None
    timeDatetime: Option<string>,         // datetime attribute of the first time element that has one
    articlePublishedTime: Option<string>, // content of meta property="article:published_time"
    pubdate: Option<string>,              // content of meta name="pubdate"
    dateMeta: Option<string>,             // content of meta name="date"
    paragraphs: seq<string>)              // every text node of a p inside an article

  /** The dict the callback yields. `date` is `None` or a string, exactly as computed. */
  datatype Article = Article(url: string, title: string, date: Option<string>, content: string)

  /** Parses a date string and renders it as ISO-8601, or fails (`None`) where Python raises. */
  type DateParser = string -> Option<string>

  /** Python's `a or b` on values that are `None` or a `str`. */
  function Or(a: Option<string>, b: Option<string>): Option<string> {
    if Truthy(a) then a else b
  }

  /** The four date candidates in the order the callback tries them. */
  function DateCandidates(resp: Response): seq<Option<string>> {
    [resp.timeDatetime, resp.articlePublishedTime, resp.pubdate, resp.dateMeta]
  }

  /** The date expression of `parse_item`: a left-associated chain of `or`. */
  function DateCandidate(resp: Response): Option<string> {
    Or(Or(Or(resp.timeDatetime, resp.articlePublishedTime), resp.pubdate), resp.dateMeta)
  }

  /** `k` is the first truthy entry of `cs`. */
  ghost predicate FirstTruthyAt(cs: seq<Option<string>>, k: int) {
    0 <= k < |cs| && Truthy(cs[k]) && forall j :: 0 <= j < k ==> !Truthy(cs[j])
  }

  /**
    A fallback chain over an ordered list of extraction rules: the first truthy
    result, or, when none is truthy, the last result (which is what Python's
    `or` evaluates to).
   */
  function FirstTruthy(cs: seq<Option<string>>): (r: Option<string>)
    requires |cs| > 0
    ensures forall k :: FirstTruthyAt(cs, k) ==> r == cs[k]
    ensures (forall k :: 0 <= k < |cs| ==> !Truthy(cs[k])) ==> r == cs[|cs| - 1]
    ensures Truthy(r) <==> exists k :: 0 <= k < |cs| && Truthy(cs[k])
  {
    if |cs| == 1 || Truthy(cs[0]) then cs[0]
    else
      var r := FirstTruthy(cs[1..]);
      assert forall k :: FirstTruthyAt(cs, k) ==> FirstTruthyAt(cs[1..], k - 1);
      assert forall k :: 0 < k < |cs| ==> cs[1..][k - 1] == cs[k];
      r
  }

  /** The `or` chain of `parse_item` is the four-rule fallback chain, tried in order. */
  lemma DateCandidateIsFallbackChain(resp: Response)
    ensures DateCandidate(resp) == FirstTruthy(DateCandidates(resp))
  {
    var cs := DateCandidates(resp);
    assert cs[1..] == [cs[1], cs[2], cs[3]];
    assert cs[1..][1..] == [cs[2], cs[3]];
    assert cs[1..][1..][1..] == [cs[3]];
  }

  /**
    Short-circuiting: once the `k`-th rule yields a truthy value, the rules after
    it are never consulted, so changing their results changes nothing.
   */
  lemma {:induction false} LaterRulesIgnored(cs1: seq<Option<string>>, cs2: seq<Option<string>>, k: nat)
    requires k < |cs1| && k < |cs2| && Truthy(cs1[k])
    requires cs1[..k + 1] == cs2[..k + 1]
    ensures FirstTruthy(cs1) == FirstTruthy(cs2)
  {
    assert cs1[0] == cs1[..k + 1][0] && cs2[0] == cs2[..k + 1][0];
    if k > 0 && !Truthy(cs1[0]) {
      assert cs1[1..][..k] == cs1[..k + 1][1..];
      assert cs2[1..][..k] == cs2[..k + 1][1..];
      assert cs1[1..][k - 1] == cs1[k];
      LaterRulesIgnored(cs1[1..], cs2[1..], k - 1);
    }
  }

  /**
    The best-effort normalisation step: a truthy date is replaced by the parser's
    ISO rendering when it parses, and is kept as the raw string when the parser
    fails (the exception is swallowed). A falsy date is left as it is.
   */
  function NormaliseDate(date: Option<string>, parse: DateParser): Option<string> {
    if Truthy(date) then
      match parse(date.value)
      case Some(iso) => Some(iso)
      case None => date
    else date
  }

  /** `' '.join(paragraphs).strip()` */
  function Content(paragraphs: seq<string>): (r: string)
    ensures Stripped(r)
    ensures IsStripOf(r, JoinSpace(paragraphs))
    ensures r != "" <==> exists k :: 0 <= k < |paragraphs| && HasNonSpace(paragraphs[k])
  {
    var joined := JoinSpace(paragraphs);
    StripEmptyIff(joined);
    JoinSpaceHasNonSpace(paragraphs);
    Strip(joined)
  }

  /** `parse_item`: at most one article per response. */
  function ParseItem(resp: Response, parse: DateParser): Option<Article> {
    var title := resp.h1Text;
    var date := NormaliseDate(DateCandidate(resp), parse);
    var content := Content(resp.paragraphs);
    if Truthy(title) && content != "" then
      Some(Article(resp.url, title.value, date, content))
    else
      None
  }

  /**
    The accept/reject gate: an article is emitted exactly when the page has a
    non-empty h1 text and some paragraph holds a non-whitespace character.
    The title has no fallback, and the date plays no part in the decision.
   */
  lemma ParseItemEmitsIff(resp: Response, parse: DateParser)
    ensures ParseItem(resp, parse).Some? <==>
      && resp.h1Text.Some? && resp.h1Text.value != ""
      && exists k :: 0 <= k < |resp.paragraphs| && HasNonSpace(resp.paragraphs[k])
  {
  }

  /** An emitted article carries the response URL, the h1 text untrimmed, and the stripped joined paragraphs. */
  lemma ParseItemFields(resp: Response, parse: DateParser)
    requires ParseItem(resp, parse).Some?
    ensures ParseItem(resp, parse).value.url == resp.url
    ensures Some(ParseItem(resp, parse).value.title) == resp.h1Text
    ensures IsStripOf(ParseItem(resp, parse).value.content, JoinSpace(resp.paragraphs))
    ensures ParseItem(resp, parse).value.content != ""
  {
  }

  /**
    The date of an emitted article: when the `k`-th candidate is the first truthy
    one, it is the parser's output if parsing succeeds and that raw candidate
    otherwise; when no candidate is truthy it is the last candidate unchanged.
   */
  lemma ParseItemDate(resp: Response, parse: DateParser)
    requires ParseItem(resp, parse).Some?
    ensures forall k :: FirstTruthyAt(DateCandidates(resp), k) ==>
      var raw := DateCandidates(resp)[k];
      ParseItem(resp, parse).value.date == (if parse(raw.value).Some? then parse(raw.value) else raw)
    ensures (forall k :: 0 <= k < 4 ==> !Truthy(DateCandidates(resp)[k])) ==>
      ParseItem(resp, parse).value.date == resp.dateMeta
  {
    DateCandidateIsFallbackChain(resp);
  }

  /** A page without any date candidate is emitted exactly when it would be with one: a missing date never blocks. */
  lemma MissingDateNeverBlocks(resp: Response, parse1: DateParser, parse2: DateParser)
    ensures ParseItem(resp, parse1).Some? <==>
      ParseItem(resp.(timeDatetime := None, articlePublishedTime := None, pubdate := None, dateMeta := None), parse2).Some?
  {
  }

  lemma ExampleContent()
    ensures Content(["A.", "B.", "C."]) == "A. B. C."
  {
    var ps := ["A.", "B.", "C."];
    assert ps[1..] == ["B.", "C."] && ps[1..][1..] == ["C."];
    assert JoinSpace(ps) == "A. B. C.";
    StripOfStripped("A. B. C.");
  }

  /**
    Worked example: a page with heading "BTC Rallies", no time element, an
    `article:published_time` of "2024-01-05T10:00:00Z" and paragraphs "A.", "B.",
    "C.", with a parser that renders that date as "2024-01-05T10:00:00+00:00".
   */
  lemma ExampleArticle(parse: DateParser)
    requires parse("2024-01-05T10:00:00Z") == Some("2024-01-05T10:00:00+00:00")
    ensures ParseItem(
      Response("https://a.example/post-1", Some("BTC Rallies"), None, Some("2024-01-05T10:00:00Z"), None, None, ["A.", "B.", "C."]),
      parse)
      == Some(Article("https://a.example/post-1", "BTC Rallies", Some("2024-01-05T10:00:00+00:00"), "A. B. C."))
  {
    ExampleContent();
  }

  /** Worked example: a date the parser rejects is kept verbatim, not dropped. */
  lemma ExampleUnparsableDateKept(parse: DateParser)
    requires parse("last Tuesday") == None
    ensures ParseItem(
      Response("https://a.example/post-2", Some("Title"), Some("last Tuesday"), None, None, None, ["Body."]),
      parse)
      == Some(Article("https://a.example/post-2", "Title", Some("last Tuesday"), "Body."))
  {
    assert Content(["Body."]) == "Body." by {
      assert JoinSpace(["Body."]) == "Body.";
      StripOfStripped("Body.");
    }
    var resp := Response("https://a.example/post-2", Some("Title"), Some("last Tuesday"), None, None, None, ["Body."]);
    assert DateCandidate(resp) == Some("last Tuesday");
  }
}
