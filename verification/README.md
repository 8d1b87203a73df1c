# Crypto news scraper: extraction policy and persistence step

A Dafny model of the two pieces of sequential logic in the Crypto-News-Scraper
Scrapy project:

- **Article extraction** (`CryptoNewsSpider.parse_item`). Each fetched page
  yields at most one article dict. The title is the first `h1` text node. The
  date is the first truthy one of four date candidates. A truthy date goes
  through a best-effort date parser. The content is the `article p` text nodes
  joined with single spaces and stripped. A dict is yielded only when both the
  title and the content are truthy. The fixed allow-list and seed list of the
  spider are modelled as constants too.
- **Persistence** (`PostgresPipeline.process_item`). Each item is written with
  `INSERT ... ON CONFLICT (url) DO NOTHING`. Success commits and returns the
  item. A database error rolls back and raises `DropItem`. The identity
  pipeline `CryptoNewsPipeline` is modelled as well.

Files:

- `wrappers.dfy`: module `Wrappers`, holding `Option` (Python's `None` or a value).
- `pytext.dfy`: module `PyText`, the Python string semantics the spider relies on.
  It covers truthiness, `str.isspace`, `' '.join`, `str.strip`, and `str.split(' ')`
  as the inverse of the join.
- `spider.dfy`: module `Spider`, covering `parse_item`.
- `seeds.dfy`: module `SeedConfig`, covering `allowed_domains`, `start_urls` and the
  host rule of the offsite filter.
- `pipelines.dfy`: module `Pipelines`, covering both item pipelines.

Modelling choices:

- A page is a `Spider.Response`. It holds what each CSS selector returned: an
  optional `h1` text, four optional date candidates, and the paragraph texts.
- The date parser (`dateutil.parser.parse(...).isoformat()`) is a parameter
  `string -> Option<string>`. `None` stands for "raises".
- Python's `a or b or c or d` yields the last operand when none is truthy. So
  when no candidate is truthy, the date is the `meta name="date"` value itself,
  which is `None` or `""`.
- The database table is a `url`-keyed map plus the list of rows whose url is
  NULL, inside a `Session`. A `Session` holds the committed table and the table
  as seen by the open transaction. The table definition is not in the
  repository, so whether a NULL url is accepted is left to the database's
  answer. Whether the
  statement and the commit succeed is a per-call input, `DbOutcome`, which
  stands in for psycopg2.

- A date that fails to parse keeps its raw string and is not discarded
  (`crypto_spider.py:88-91`). `Spider.ParseItemDate` and
  `Spider.ExampleUnparsableDateKept` state this.
- A url that is already stored is not an error: the call commits and returns the
  item (`pipelines.py:39-40`). `Pipelines.DuplicateIgnored` states this.

## Model

| member | source | states |
|---|---|---|
| PyText.Strip | crypto_news/spiders/crypto_spider.py:93 | the stripped content is a slice of the joined text, only whitespace is cut off on either side, and neither end of the result is whitespace |
| PyText.StripUnique | crypto_news/spiders/crypto_spider.py:93 | at most one string meets that description, so `Strip` is exactly `str.strip()` |
| PyText.StripEmptyIff | crypto_news/spiders/crypto_spider.py:93-95 | the stripped text is empty exactly when the input has no non-whitespace character |
| PyText.StripOfStripped | crypto_news/spiders/crypto_spider.py:93 | stripping a string that has no whitespace at either end returns it unchanged |
| PyText.JoinSpaceAppend | crypto_news/spiders/crypto_spider.py:93 | `' '.join` of one more paragraph is the previous join, one space, then that paragraph |
| PyText.JoinSpaceLength | crypto_news/spiders/crypto_spider.py:93 | the length of the joined text is the paragraphs' total length plus one per separator |
| PyText.JoinSpaceHasNonSpace | crypto_news/spiders/crypto_spider.py:93 | the joined text has a non-whitespace character exactly when some paragraph has one |
| PyText.SplitJoinRoundTrip | crypto_news/spiders/crypto_spider.py:93 | when no paragraph contains a space, splitting the joined text on single spaces gives back the paragraphs |
| Spider.FirstTruthy | crypto_news/spiders/crypto_spider.py:79-84 | a fallback chain returns the first truthy candidate; when there is none, it returns the last candidate; its result is truthy exactly when some candidate is |
| Spider.DateCandidateIsFallbackChain | crypto_news/spiders/crypto_spider.py:79-84 | the `or` expression is the fallback chain over time datetime, article:published_time, pubdate and date, in that order |
| Spider.LaterRulesIgnored | crypto_news/spiders/crypto_spider.py:79-84 | once a candidate is truthy, changing the candidates after it does not change the chosen date |
| Spider.Content | crypto_news/spiders/crypto_spider.py:92-93 | the content is the stripped single-space join of the paragraphs; it never starts or ends with whitespace; it is non-empty exactly when some paragraph has a non-whitespace character |
| Spider.ParseItemEmitsIff | crypto_news/spiders/crypto_spider.py:78-95 | an article is emitted exactly when the h1 text is present and non-empty and some paragraph has a non-whitespace character; the title has no fallback |
| Spider.ParseItemFields | crypto_news/spiders/crypto_spider.py:95-101 | an emitted article has the response URL, the h1 text untrimmed, and the non-empty stripped joined content |
| Spider.ParseItemDate | crypto_news/spiders/crypto_spider.py:79-91 | the date is the parser's output for the first truthy candidate, or that raw candidate when parsing fails; with no truthy candidate it is the last candidate unchanged |
| Spider.MissingDateNeverBlocks | crypto_news/spiders/crypto_spider.py:95 | whether an article is emitted depends neither on the date candidates nor on the parser |
| Spider.ExampleArticle | crypto_news/spiders/crypto_spider.py:77-101 | a page with heading "BTC Rallies", only an article:published_time date, and paragraphs "A.", "B.", "C." gives content "A. B. C." and the parsed date |
| Spider.ExampleUnparsableDateKept | crypto_news/spiders/crypto_spider.py:87-91 | a date the parser rejects is stored verbatim |
| SeedConfig.SeedsMatchDomainsPairwise | crypto_news/spiders/crypto_spider.py:8-70 | there are 29 seeds and 29 domains, and the host of the i-th seed is the i-th allowed domain or a dot-subdomain of it |
| SeedConfig.SeedsAllowed | crypto_news/spiders/crypto_spider.py:8-70 | every seed URL's host matches some allowed domain under the offsite host rule |
| Pipelines.PassThrough | crypto_news/pipelines.py:14-15 | `CryptoNewsPipeline.process_item` returns its item unchanged |
| Pipelines.PassThroughTransparent | crypto_news/pipelines.py:14-15 | putting the identity pipeline in front of the database pipeline changes neither the table nor the outcome |
| Pipelines.RowOf | crypto_news/pipelines.py:33-38 | the inserted row holds the item's url, title, date and content, with NULL for a missing key |
| Pipelines.InsertIfAbsent | crypto_news/pipelines.py:30-32 | the insert adds the row when its url is new and otherwise leaves the table as it was; other rows keep their values; a NULL url never conflicts (NULLs distinct, the PostgreSQL default), so its row is always added |
| Pipelines.Commit | crypto_news/pipelines.py:39 | after a commit, the committed table is what the transaction saw, and no change is pending |
| Pipelines.Rollback | crypto_news/pipelines.py:42 | after a rollback, the committed table is unchanged, and no change is pending |
| Pipelines.ProcessItem | crypto_news/pipelines.py:27-43 | each call ends its transaction; the item is returned unchanged exactly when the statement and the commit succeed; a dropped item leaves the committed table unchanged and carries the prefixed database error; existing rows are never changed; the only keyed row that can be added is the item's own, and a NULL-url row is added only for an accepted item without a url |
| Pipelines.InsertNewRow | crypto_news/pipelines.py:29-40 | a new url adds exactly one row, holding that item's url, title, date and content |
| Pipelines.DuplicateIgnored | crypto_news/pipelines.py:29-40 | a url already stored keeps its row (first write wins), and the call still returns the item |
| Pipelines.ReplayIdempotent | crypto_news/pipelines.py:29-39 | processing the same item again leaves the table as one successful call left it, exactly when the item has a url or the second call fails; a NULL-url item accepted twice is stored twice |
| Pipelines.OtherRowsUntouched | crypto_news/pipelines.py:29-43 | rows for every other url are neither added, removed nor changed, whatever the database answers |
| Pipelines.ErrorRollsBack | crypto_news/pipelines.py:41-43 | on a database error the session is left as it was, and the item is dropped with "Error inserting item into database: " plus the error |
| Pipelines.NullUrlDecidedByDatabase | crypto_news/pipelines.py:29-43 | the pipeline does not check the url: an item without a url that the database rejects is dropped with the database's own text and nothing changes; one it accepts adds a NULL-url row and is returned |
| Pipelines.StoredRowsSurvive | crypto_news/pipelines.py:29-39 | over any run of items, no stored row is ever overwritten or lost, and the NULL-url rows only grow at the end |
| Pipelines.FirstAcceptedWins | crypto_news/pipelines.py:29-39 | over any run of items, the row stored for a new url is the one from the first accepted item with that url |
| Pipelines.StoreArticle | crypto_news/pipelines.py:29-40 | an extracted article stored for the first time becomes the row (url, title, date or NULL, content), and the item is returned |

## Left out

- Crawl frontier, link following, request deduplication and the offsite middleware are Scrapy's `CrawlSpider`, `LinkExtractor` and dupefilter code. That code is not part of this model. Only the host rule (equal to an allowed domain, or ending in "." plus it) is modelled, to state the seed invariant.
- CSS selector evaluation and HTML parsing are not modelled. A `Response` carries the selector results as plain values.
- The internals of `dateutil.parser.parse` and `isoformat` are not modelled. The parser is an arbitrary partial function given as a parameter.
- psycopg2 connection setup, credentials, cursor handling and `close_spider` are resource plumbing with no stated behaviour, so they are not modelled.
- Concurrent fetches and concurrent pipeline calls are not modelled. Calls are processed one at a time, in arrival order.
- `crypto_news/items.py` only declares four fields and is not used by the spider. Its field names are the fields of `Spider.Article` and `Pipelines.Row`.
- Pipelines.ProcessItem: item values are `str` or `None`. Other Python values an item could carry (numbers, lists) are not modelled.
- Pipelines.ProcessItem: `connection.rollback()` is assumed never to raise. In the code it runs inside the `except` block (`pipelines.py:42`), so if it raised (for example after the connection was lost), that psycopg2 error would leave `process_item` in place of `DropItem`. The model does not cover this.
- Pipelines.ProcessItem: a failed commit is assumed to have changed nothing. A commit that reports failure after the server applied it (the connection drops before the acknowledgement) would leave the row stored, while the model keeps the committed table unchanged.
- Pipelines.ProcessItem: bound strings are assumed to be free of NUL characters and encodable in the connection's client encoding. Otherwise psycopg2 raises a `ValueError` or `UnicodeEncodeError` while binding the parameters. Neither is a `psycopg2.Error`, so `except` at `pipelines.py:41` does not catch it: there is no rollback and no `DropItem`, and the exception escapes `process_item`. The model has no outcome for this path.
- Pipelines.InsertIfAbsent: the table definition is not in the repository. The model assumes every column stores the bound text as given; a typed column such as a `timestamp` `date` would store the converted value instead. It also assumes the url's unique index treats NULLs as distinct, which is PostgreSQL's default. Under `UNIQUE NULLS NOT DISTINCT` (PostgreSQL 15 and later), `ON CONFLICT (url) DO NOTHING` would skip a second NULL-url row instead of adding it.
- SeedConfig.HostOf: only `https://` URLs are parsed, up to the first `/`. Ports, user info, `?`/`#` delimiters and other schemes are not modelled, because no seed uses them.
