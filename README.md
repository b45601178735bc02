# kp_crawler in Dafny

kp_crawler collects news articles from the online feed of kp.ru and serves a
random selection of them as one HTML page. It has three parts, and this
project models each of them:

- **The spider** opens the listing in a browser. It makes one detail request
  per article summary on the page and keeps pressing the "show more" button
  until 1000 requests have gone out or there is nothing more to show. Each
  partial item gets a cleaned title, a description and an absolute source
  url. The detail page then fills in the body text, the authors, the keywords,
  the publication date and the header photo url.
- **The item pipelines** come next. The photo stage downloads the header
  photo, converts it to RGB when its mode is RGBA or P, re-encodes it as
  JPEG at the configured quality and stores it as base64. A non-200 status stores
  the empty string. A network, decoding or encoding error propagates out of
  `process_item`, and the item is dropped. The storage stage
  inserts every finished item into the `articles` collection.
- **The service** renders a sample of stored articles as a page: a fixed
  header, one `<div class="article">` block per article and a fixed footer.
  Values go into the markup without escaping.

Modules:

- `Wrappers`: `Option`, `Result`.
- `Text`: Python's `str.isspace`, `strip`, `split()` and `" ".join`, and the
  whitespace normaliser that `clean_title` applies.
- `Items`: the item record. A field that was never assigned is `Unset`.
  `NewsItem` is the mutable item that the spider and the photo stage update in
  place.
- `Spider`: title cleaning; the listing traversal, with the specification
  function `Run` and the imperative `Parse`; the detail extraction.
- `Pipelines`: the photo stage and the storage stage.
- `Service`: the `NewsArticle` record and the page rendering.

Several calls are inputs of the model rather than part of it:

- The browser is a function `page: nat -> Scan` that gives the document current
  after each number of clicks.
- lxml's text content and `response.urljoin` are functions in `Extractors`.
  The XPath results of a detail page are the fields of `DetailPage`.
- The HTTP GET, PIL's decoder and encoder, and base64 are functions (`get`,
  `Codec`).
- The sample that MongoDB's `$sample` returns is an arbitrary sequence of
  articles.

## Model

| member | source | states |
|---|---|---|
| Text.IsSpace | hw3/kp_crawler/kp_crawler/spiders/kp_spider.py:103-104 | the reference definition of `str.isspace()`, the whitespace that `strip()` and `split()` use: U+0009-000D, U+001C-0020, U+0085, U+00A0, U+1680, U+2000-200A, U+2028, U+2029, U+202F, U+205F and U+3000 |
| Text.LStrip | hw3/kp_crawler/kp_crawler/spiders/kp_spider.py:103 | every character removed is whitespace, and the result is empty or starts with a non-space |
| Text.LStripSuffix | hw3/kp_crawler/kp_crawler/spiders/kp_spider.py:103 | `lstrip()` keeps a suffix of its input: it only removes characters from the front |
| Text.RStrip | hw3/kp_crawler/kp_crawler/spiders/kp_spider.py:103 | the result is a prefix of the input, every character removed is whitespace, and the result is empty or ends with a non-space |
| Text.Strip | hw3/kp_crawler/kp_crawler/spiders/kp_spider.py:103 | `str.strip()`: the result is no longer than the input and neither starts nor ends with whitespace |
| Text.Split | hw3/kp_crawler/kp_crawler/spiders/kp_spider.py:104 | `str.split()` with no argument yields only non-empty words free of whitespace |
| Text.Join | hw3/kp_crawler/kp_crawler/spiders/kp_spider.py:104 | the reference definition of `sep.join(ws)`, used here and for the body text at line 82 and the keyword and author lists of the service: the words with `sep` between each pair of neighbours, "" for no words |
| Text.Normalise | hw3/kp_crawler/kp_crawler/spiders/kp_spider.py:104 | `" ".join(s.split())` is always normalised: no leading or trailing whitespace, no whitespace other than the plain space, and never two spaces in a row |
| Text.SplitStrip | hw3/kp_crawler/kp_crawler/spiders/kp_spider.py:103-104 | stripping first does not change the words that `split()` finds |
| Text.JoinWordsNormalised | hw3/kp_crawler/kp_crawler/spiders/kp_spider.py:104 | joining whitespace-free words with one space gives a string with no leading or trailing whitespace, no whitespace other than single spaces and no two adjacent spaces |
| Text.SplitJoin | hw3/kp_crawler/kp_crawler/spiders/kp_spider.py:104 | splitting a one-space join of words gives back exactly those words |
| Text.JoinSplitNormalised | hw3/kp_crawler/kp_crawler/spiders/kp_spider.py:104 | a normalised string is its own split-and-join |
| Text.NormaliseKeepsWords | hw3/kp_crawler/kp_crawler/spiders/kp_spider.py:104 | normalising keeps the same words in the same order |
| Text.NormaliseIdempotent | hw3/kp_crawler/kp_crawler/spiders/kp_spider.py:104 | normalising twice gives the same as normalising once |
| Text.NormaliseFixedPoints | hw3/kp_crawler/kp_crawler/spiders/kp_spider.py:104 | a string is left unchanged by normalising if and only if it is already normalised |
| Items.NewsItem.constructor | hw3/kp_crawler/kp_crawler/items.py:3-15 | a new `KpNewsItem` has none of its nine fields assigned |
| Spider.CleanTitle | hw3/kp_crawler/kp_crawler/spiders/kp_spider.py:99-105 | a missing or empty anchor gives ""; every cleaned title is normalised |
| Spider.CleanTitleKeepsWords | hw3/kp_crawler/kp_crawler/spiders/kp_spider.py:102-104 | for a present, non-empty anchor, the words of the cleaned title are exactly the words of the anchor's text content, in order |
| Spider.Run | hw3/kp_crawler/kp_crawler/spiders/kp_spider.py:38-75 | the reference definition of the traversal: each document's nodes are emitted until the counter reaches 1000; then the traversal follows the button to the refreshed document, or stops |
| Spider.RunBound | hw3/kp_crawler/kp_crawler/spiders/kp_spider.py:38-63 | the traversal never emits more than 1000 requests, and it stops because of the cap exactly when it has emitted 1000 |
| Spider.RunLast | hw3/kp_crawler/kp_crawler/spiders/kp_spider.py:64-75 | below the cap, a document without the button ends the traversal with `NoShowMore`, and one whose click brings no article node back ends it with `SelectorTimeout`; either way that document is the last one emitted |
| Spider.RunStep | hw3/kp_crawler/kp_crawler/spiders/kp_spider.py:38-75 | below the cap, a document whose click brings new nodes is emitted whole, and the traversal goes on from the refreshed document with the counter advanced by its node count |
| Spider.RunRescans | hw3/kp_crawler/kp_crawler/spiders/kp_spider.py:38-75 | below the cap, every pass emits the whole current document again; the traversal ends at the first document without the button, or when a click brings no article node back |
| Spider.RunReachesCap | hw3/kp_crawler/kp_crawler/spiders/kp_spider.py:41-63 | when the cap falls inside a pass, exactly the first `Cap - count` nodes of the passes from document `j` on are emitted (the first 1000 when the traversal starts from document 0 with no requests), and the traversal stops in the middle of that pass |
| Spider.ListingItem | hw3/kp_crawler/kp_crawler/spiders/kp_spider.py:42-47 | the reference definition of the partial item of one summary node: cleaned title, description and joined source url, nothing else assigned |
| Spider.NewListingItem | hw3/kp_crawler/kp_crawler/spiders/kp_spider.py:42-47 | a fresh item whose title, description and source url are taken from the summary node and all other fields unassigned |
| Spider.EmitNodes | hw3/kp_crawler/kp_crawler/spiders/kp_spider.py:41-60 | the inner loop emits one request per node of the document, in document order, and stops at the moment the counter reaches 1000; each request carries a distinct fresh item whose `source_url` is the request url |
| Spider.Pass | hw3/kp_crawler/kp_crawler/spiders/kp_spider.py:38-75 | one pass of the outer loop: the requests so far are kept, new ones carry fresh items; when the pass ends the traversal, the nodes emitted and the stop reason are exactly those of `Run`; otherwise the next document is the refreshed one and the rest of the traversal is still `Run`'s |
| Spider.Parse | hw3/kp_crawler/kp_crawler/spiders/kp_spider.py:34-77 | `articles_count` equals the number of requests emitted and is at most 1000; the requests, and the way the traversal ends, are those of `Run`; every item is new and carries the fields of its node, with `source_url` equal to the request url |
| Spider.Keywords | hw3/kp_crawler/kp_crawler/spiders/kp_spider.py:88 | the reference definition of the keyword links matched under all key-field containers, container by container in document order |
| Spider.Datetimes | hw3/kp_crawler/kp_crawler/spiders/kp_spider.py:89 | the reference definition of the date spans matched under all key-field containers, container by container in document order |
| Spider.First | hw3/kp_crawler/kp_crawler/spiders/kp_spider.py:89 | the reference definition of `SelectorList.get()`: `None` when nothing matched, the first match otherwise |
| Spider.FirstDatetime | hw3/kp_crawler/kp_crawler/spiders/kp_spider.py:86-89 | the date read from the key-field containers is `None` exactly when no container has a date span; otherwise it is the first span of the first container that has one |
| Spider.Detailed | hw3/kp_crawler/kp_crawler/spiders/kp_spider.py:82-92 | the body text is the paragraphs joined with one space and the authors are all author spans; keywords and datetime are assigned only when a key-field container exists; the photo url is `None` exactly when no non-empty image src was found; no other field changes |
| Spider.ParseArticle | hw3/kp_crawler/kp_crawler/spiders/kp_spider.py:79-94 | updates the item in place to `Detailed` of its old contents and yields that same item |
| Pipelines.JpegMode | hw3/kp_crawler/kp_crawler/pipelines.py:56-57 | `RGBA` and `P` become `RGB`, every other mode is kept, and the result is never `RGBA` or `P` |
| Pipelines.JpegModeIdempotent | hw3/kp_crawler/kp_crawler/pipelines.py:56-57 | converting an already converted mode changes nothing |
| Pipelines.HasPhotoUrl | hw3/kp_crawler/kp_crawler/pipelines.py:72 | the test `if item["header_photo_url"]`: the field is assigned and holds a non-empty url |
| Pipelines.PhotoDownloaderPipeline.FromCrawler | hw3/kp_crawler/kp_crawler/pipelines.py:47-50 | the quality is the `RESULT_IMAGE_QUALITY` setting, or 35 when it is absent |
| Pipelines.PhotoDownloaderPipeline.CompressImage | hw3/kp_crawler/kp_crawler/pipelines.py:52-59 | an image that cannot be identified raises `UnidentifiedImageError`; otherwise it is converted (RGBA and P become RGB) and saved as JPEG at the configured quality, and the JPEG bytes are the result; a save that fails raises `OSError`, and only then is `OSError` raised |
| Pipelines.PhotoDownloaderPipeline.DownloadPhotoToBase64 | hw3/kp_crawler/kp_crawler/pipelines.py:61-69 | a malformed url raises `InvalidUrlClientError`, and only a malformed url does; a failed connection raises; a non-200 status gives ""; a 200 response gives the base64 of the compressed body, or raises what `compress_image` raises; a non-empty payload implies status 200 |
| Pipelines.PhotoDownloaderPipeline.PhotoStage | hw3/kp_crawler/kp_crawler/pipelines.py:71-80 | an unassigned photo url raises `KeyError`; a falsy one returns the item unchanged; a malformed url clears the url and leaves the payload as it was; any other download error propagates; otherwise `header_photo_base64` is set to the download result ("" for a non-200 status); only the two photo fields ever change |
| Pipelines.PhotoDownloaderPipeline.ProcessItem | hw3/kp_crawler/kp_crawler/pipelines.py:71-80 | updates the item in place to `PhotoStage` of its old contents and returns the item; when the stage raises, the item is untouched |
| Pipelines.PayloadShownIff | hw3/kp_crawler/kp_crawler/pipelines.py:61-80 | for an item with a truthy photo url and no payload yet, the stage leaves a truthy payload if and only if the GET answered 200, the body was identified as an image, the JPEG save succeeded and the encoding is non-empty |
| Pipelines.NoImageNoDownload | hw3/kp_crawler/kp_crawler/spiders/kp_spider.py:91-92 | an article whose detail page has no image src passes the photo stage unchanged |
| Pipelines.MongoPipeline.constructor | hw3/kp_crawler/kp_crawler/pipelines.py:19-22 | the pipeline works on the `articles` collection as it stands, holding whatever documents earlier runs stored |
| Pipelines.MongoPipeline.ProcessItem | hw3/kp_crawler/kp_crawler/pipelines.py:38-40 | exactly one document, equal to the item's contents, is appended to the collection; the item is returned unchanged |
| Service.Truthy | hw3/kp_crawler/fastapi_service_news.py:108 | the reference definition of the test `if article.header_photo_base64`: Python truthiness of an optional string, false for `None` and for "" |
| Service.PyStr | hw3/kp_crawler/fastapi_service_news.py:111 | the reference definition of how an f-string renders an optional string: `None` becomes the text "None", a string stands as it is |
| Service.Interpolate | hw3/kp_crawler/fastapi_service_news.py:96-112 | an f-string's output starts with its first literal piece |
| Service.InterpolateAt | hw3/kp_crawler/fastapi_service_news.py:96-112 | every interpolated value appears as it is, between the rendering of the pieces before it and the rendering of the pieces after it |
| Service.ArticleValueVerbatim | hw3/kp_crawler/fastapi_service_news.py:98-105 | title, description, text, datetime and source url (twice) stand unescaped in an article's block, and keywords and authors stand there as their `", "`-join |
| Service.PhotoFragmentIff | hw3/kp_crawler/fastapi_service_news.py:108-113 | a block ends right after its source link exactly when the article's payload is falsy; otherwise the image and photo link come between the link and the closing `</div>` |
| Service.ArticleBlock | hw3/kp_crawler/fastapi_service_news.py:95-113 | one article's block begins with its text fields, metadata and source link and ends with `</div>` |
| Service.Blocks | hw3/kp_crawler/fastapi_service_news.py:95-113 | the blocks of a run of articles are empty exactly when there are no articles |
| Service.BlocksAppend | hw3/kp_crawler/fastapi_service_news.py:95-113 | the blocks of two runs of articles are the blocks of the first followed by those of the second |
| Service.AppendBlocks | hw3/kp_crawler/fastapi_service_news.py:95-113 | the appending loop adds exactly the blocks of the articles, in order, to the markup built so far |
| Service.Page | hw3/kp_crawler/fastapi_service_news.py:48-118 | the page always opens with the fixed header |
| Service.PageInOrder | hw3/kp_crawler/fastapi_service_news.py:48-118 | the page is the header, then the blocks of the articles before `k`, the block of article `k`, the blocks after it, then the footer |
| Service.GetRandomArticlesInHtml | hw3/kp_crawler/fastapi_service_news.py:36-120 | raises NOT_FOUND with "There is no any articles" exactly when the sample is empty; otherwise the page that the appending loop builds is the header, one block per article in sample order, and the footer |
| Service.CursorTruthy | hw3/kp_crawler/fastapi_service_news.py:42 | the reference definition of the test `not results` on the awaited command cursor: a cursor defines neither `__bool__` nor `__len__`, so every cursor is true |
| Service.GetRandomArticlesAsWritten | hw3/kp_crawler/fastapi_service_news.py:41-47 | as written, the emptiness test looks at the cursor, so no sample is ever rejected |
| Service.EmptySampleNotRejectedAsWritten | hw3/kp_crawler/fastapi_service_news.py:41-47 | as written, an empty sample is answered with the page that has no blocks |

## Left out

- Browser automation is not modelled: `query_selector`, `click`, `wait_for_selector`, `wait_for_timeout`, `page.content` and `page.close`. The traversal reads a function from click count to `Scan`. A wait that times out is modelled as a refreshed document with no article nodes; it ends the traversal (`SelectorTimeout`).
- XPath, lxml's `html.fromstring` and `text_content`, and `response.urljoin` are foreign parsers. Their results are inputs. A `fromstring` that raises on odd markup is not modelled.
- `start_requests`, errback logging, Scrapy's scheduling and concurrency of detail requests, and `CLOSESPIDER_ITEMCOUNT` belong to the framework. The order in which the pipelines run comes from a settings file that is not part of this model.
- The aiohttp session, PIL's `Image.open`, `convert` and JPEG encoder, and `base64.b64encode` are foreign calls, modelled as functions in `get` and `Codec`. The `optimize=True` flag is folded into `saveJpeg`. Which modes PIL's JPEG writer rejects, and when a truncated body is detected, are decided by `saveJpeg`; the model only fixes that such a failure raises `OSError`. Every network failure other than a malformed url is one `ClientError`.
- MongoDB is not modelled: `MongoPipeline.from_crawler`, `open_spider`, `close_spider`, `get_mongo_db`, and the `_id` that `insert_one` adds. The collection is a sequence of item contents.
- pydantic's validation of stored documents into `NewsArticle`, FastAPI routing, the `size` parameter, and the randomness of `$sample` are left out. The sample is any sequence of articles.
- Service.GetRandomArticlesInHtml tests emptiness on the sampled articles themselves. The code tests the cursor object instead; see Findings.
- HTML escaping is not added: the service inserts values verbatim, and the model does the same.

## Findings

| source | as written | input that shows it | evidently intended | confidence | as-written member | corrected member |
|---|---|---|---|---|---|---|
| hw3/kp_crawler/fastapi_service_news.py:41-47 | `if not results` tests the command cursor returned by `aggregate`, which defines neither `__bool__` nor `__len__`, so it is always true | a collection with no documents: the sample is empty, and the endpoint returns status 200 with the page that has no article blocks | raise NOT_FOUND when the sample holds no articles | not executed | Service.EmptySampleNotRejectedAsWritten | Service.GetRandomArticlesInHtml |
