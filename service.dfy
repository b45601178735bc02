/**
 * The serving endpoint (fastapi_service_news.py): the `NewsArticle` record and
 * `get_random_articles_in_html`, which renders a random sample of stored
 * articles as one HTML page. Values are written into the markup as they are,
 * without escaping. The store's `$sample` is an input: any sequence of articles.
 */
module Service {
  import opened Wrappers
  import opened Text

  /** `NewsArticle`: the shape in which a stored document is rendered. */
  datatype NewsArticle = NewsArticle(
    title: string,
    description: string,
    article_text: string,
    publication_datetime: string,
    header_photo_url: Option<string>,
    header_photo_base64: Option<string>,
    keywords: seq<string>,
    authors: seq<string>,
    source_url: string)

  /** The HTTP error the endpoint raises. */
  datatype HttpError = NotFound(detail: string)

  const NoArticles: string := "There is no any articles"

  /** Python truthiness of a `str | None`. */
  predicate Truthy(o: Option<string>) {
    o.Some? && o.value != ""
  }

  /** How an f-string renders a `str | None`. */
  function PyStr(o: Option<string>): string {
    if o.None? then "None" else o.value
  }

  /**
   * An f-string: the literal pieces with the interpolated values between them,
   * `lits[0] + vals[0] + lits[1] + ... + lits[n]`, nothing escaped.
   */
  function Interpolate(lits: seq<string>, vals: seq<string>): (r: string)
    requires |lits| == |vals| + 1
    ensures |r| >= |lits[0]| && r[..|lits[0]|] == lits[0]
    decreases |vals|
  {
    if vals == [] then lits[0]
    else lits[0] + (vals[0] + Interpolate(lits[1..], vals[1..]))
  }

  /** Value `i` stands unaltered between the text rendered from the pieces before it and the text after it. */
  lemma {:induction false} InterpolateAt(lits: seq<string>, vals: seq<string>, i: nat)
    requires |lits| == |vals| + 1 && i < |vals|
    ensures Interpolate(lits, vals)
         == Interpolate(lits[..i + 1], vals[..i]) + (vals[i] + Interpolate(lits[i + 1..], vals[i + 1..]))
    decreases i
  {
    if i > 0 {
      InterpolateAt(lits[1..], vals[1..], i - 1);
      assert lits[1..][..i] == lits[1..i + 1] && vals[1..][..i - 1] == vals[1..i];
      assert lits[..i + 1][1..] == lits[1..i + 1] && vals[..i][1..] == vals[1..i];
      assert lits[1..][i..] == lits[i + 1..] && vals[1..][i..] == vals[i + 1..];
      var before := Interpolate(lits[1..i + 1], vals[1..i]);
      var after := vals[i] + Interpolate(lits[i + 1..], vals[i + 1..]);
      AppendAssoc(vals[0], before, after);
      AppendAssoc(lits[0], vals[0] + before, after);
    }
  }

  /** The lines of the fixed markup before the first article. */
  const PageHeaderLines: seq<string> := [
    "",
    "        <html>",
    "        <head>",
    "            <meta charset=\"utf-8\"/>",
    "            <title>Новости онлайн</title>",
    "            <style>",
    "                body {",
    "                    font-family: Arial, sans-serif;",
    "                    margin: 20px;",
    "                }",
    "                .article {",
    "                    border: 1px solid #ccc;",
    "                    margin-bottom: 20px;",
    "                    padding: 10px;",
    "                }",
    "                .title {",
    "                    font-size: 18px;",
    "                    font-weight: bold;",
    "                }",
    "                .description {",
    "                    font-weight: 600;",
    "                    color: #555;",
    "                }",
    "                .article_text {",
    "                    margin: 10px 0;",
    "                }",
    "                .datetime, .keywords, .authors, .source_url {",
    "                    margin: 5px 0;",
    "                    color: #444;",
    "                }",
    "                .source_url a {",
    "                    color: #0066cc;",
    "                    text-decoration: none;",
    "                }",
    "                .source_url a:hover {",
    "                    text-decoration: underline;",
    "                }",
    "                img {",
    "                    max-width: 300px;",
    "                    display: block;",
    "                    margin-top: 10px;",
    "                }",
    "            </style>",
    "        </head>",
    "        <body>",
    "            <h1>Сводка новостей</h1>",
    "        "
  ]

  /** The fixed markup before the first article: its lines, each but the last ended by a newline. */
  const PageHeader: string := Join("\n", PageHeaderLines)

  /** The fixed markup after the last article. */
  const PageFooter: string :=
    "\n        </body>\n        </html>\n        "

  /** The literal pieces of an article's block, around its eight values. */
  const ArticleLiterals: seq<string> := [
    "\n            <div class=\"article\">\n                <div class=\"title\">",
    "</div>\n                <div class=\"description\">",
    "</div>\n                <div class=\"article_text\">",
    "</div>\n                <div class=\"datetime\"><b>Дата публикации:</b> ",
    "</div>\n                <div class=\"keywords\"><b>Ключевые слова:</b> ",
    "</div>\n                <div class=\"authors\"><b>Авторы:</b> ",
    "</div>\n                <div class=\"source_url\"><b>Ссылка на источник:</b> \n                    <a href=\"",
    "\" target=\"_blank\">",
    "</a>\n                </div>\n            "
  ]

  /** The values of an article's block, in order: keywords and authors joined with ", ", the source url twice. */
  function ArticleValues(a: NewsArticle): (vals: seq<string>)
    ensures |vals| + 1 == |ArticleLiterals|
  {
    [a.title, a.description, a.article_text, a.publication_datetime,
     Join(", ", a.keywords), Join(", ", a.authors), a.source_url, a.source_url]
  }

  /** The literal pieces of the photo fragment, around the payload and the photo url. */
  const PhotoLiterals: seq<string> := [
    "\n                <img src=\"data:image/jpeg;base64,",
    "\" alt=\"header photo\"/>\n                <div class=\"source_url\"><a href=\"",
    "\">Ссылка на фото</a></div>\n                "
  ]

  function PhotoValues(a: NewsArticle): (vals: seq<string>)
    ensures |vals| + 1 == |PhotoLiterals|
  {
    [PyStr(a.header_photo_base64), PyStr(a.header_photo_url)]
  }

  const BlockEnd: string := "</div>"

  /** The text fields, metadata lines and source link of one article. */
  function ArticleMain(a: NewsArticle): string {
    Interpolate(ArticleLiterals, ArticleValues(a))
  }

  /** The inline image and the link to the photo. */
  function PhotoFragment(a: NewsArticle): string {
    Interpolate(PhotoLiterals, PhotoValues(a))
  }

  /** One `<div class="article">` block: the article's main part first, `</div>` last. */
  function ArticleBlock(a: NewsArticle): (r: string)
    ensures ArticleMain(a) <= r
    ensures |BlockEnd| <= |r| && r[|r| - |BlockEnd|..] == BlockEnd
  {
    var photo := if Truthy(a.header_photo_base64) then PhotoFragment(a) else "";
    Ends(ArticleMain(a), photo, BlockEnd);
    ArticleMain(a) + (photo + BlockEnd)
  }

  /** The blocks of the articles, in order; no articles, no markup. */
  function Blocks(articles: seq<NewsArticle>): (r: string)
    ensures r == "" <==> articles == []
  {
    if articles == [] then "" else ArticleBlock(articles[0]) + Blocks(articles[1..])
  }

  /** The page rendered for a sample: it always opens with the fixed header. */
  function Page(articles: seq<NewsArticle>): (r: string)
    ensures PageHeader <= r
  {
    PageHeader + (Blocks(articles) + PageFooter)
  }

  lemma {:induction false} BlocksAppend(xs: seq<NewsArticle>, ys: seq<NewsArticle>)
    ensures Blocks(xs + ys) == Blocks(xs) + Blocks(ys)
  {
    if xs == [] {
      assert xs + ys == ys;
    } else {
      assert (xs + ys)[0] == xs[0] && (xs + ys)[1..] == xs[1..] + ys;
      BlocksAppend(xs[1..], ys);
      AppendAssoc(ArticleBlock(xs[0]), Blocks(xs[1..]), Blocks(ys));
    }
  }

  /** The page is the header, the blocks of the articles before `k`, the block of article `k`, the later blocks and the footer. */
  lemma PageInOrder(articles: seq<NewsArticle>, k: nat)
    requires k < |articles|
    ensures Page(articles)
         == PageHeader + (Blocks(articles[..k]) + (ArticleBlock(articles[k]) + (Blocks(articles[k + 1..]) + PageFooter)))
  {
    assert articles == articles[..k] + articles[k..];
    BlocksAppend(articles[..k], articles[k..]);
    assert articles[k..][1..] == articles[k + 1..];
    var rest := Blocks(articles[k + 1..]);
    AppendAssoc(Blocks(articles[..k]), ArticleBlock(articles[k]) + rest, PageFooter);
    AppendAssoc(ArticleBlock(articles[k]), rest, PageFooter);
  }

  /** The image and photo link close an article's block exactly when its payload is truthy; without it the block closes right after the source link. */
  lemma PhotoFragmentIff(a: NewsArticle)
    ensures ArticleBlock(a) == ArticleMain(a) + BlockEnd <==> !Truthy(a.header_photo_base64)
    ensures Truthy(a.header_photo_base64) ==> ArticleBlock(a) == ArticleMain(a) + (PhotoFragment(a) + BlockEnd)
  {
    if Truthy(a.header_photo_base64) {
      assert |PhotoLiterals[0]| > 0;
      assert |PhotoFragment(a) + BlockEnd| > |BlockEnd|;
    }
  }

  /** Each of an article's values stands in its block exactly as stored, after the pieces that precede it. */
  lemma ArticleValueVerbatim(a: NewsArticle, i: nat)
    requires i < |ArticleValues(a)|
    ensures ArticleMain(a)
         == Interpolate(ArticleLiterals[..i + 1], ArticleValues(a)[..i])
            + (ArticleValues(a)[i] + Interpolate(ArticleLiterals[i + 1..], ArticleValues(a)[i + 1..]))
  {
    InterpolateAt(ArticleLiterals, ArticleValues(a), i);
  }

  lemma BlocksSnoc(articles: seq<NewsArticle>, i: nat)
    requires i < |articles|
    ensures Blocks(articles[..i + 1]) == Blocks(articles[..i]) + ArticleBlock(articles[i])
  {
    assert articles[..i + 1] == articles[..i] + [articles[i]];
    BlocksAppend(articles[..i], [articles[i]]);
    assert Blocks([articles[i]]) == ArticleBlock(articles[i]) + "";
  }

  /** The three appends of one loop pass add exactly the article's block. */
  lemma BlockAppended(done: string, a: NewsArticle)
    ensures (if Truthy(a.header_photo_base64) then (done + ArticleMain(a)) + PhotoFragment(a) else done + ArticleMain(a)) + BlockEnd
         == done + ArticleBlock(a)
  {
    var tail := if Truthy(a.header_photo_base64) then PhotoFragment(a) else "";
    AppendAssoc(done, ArticleMain(a), tail + BlockEnd);
    if Truthy(a.header_photo_base64) {
      AppendAssoc(done + ArticleMain(a), PhotoFragment(a), BlockEnd);
    } else {
      assert tail + BlockEnd == BlockEnd;
    }
  }

  /** The page for an empty sample: the header and the footer with nothing between them. */
  lemma PageOfNothing()
    ensures Page([]) == PageHeader + PageFooter
  {
    assert Blocks([]) == "";
    var footer := PageFooter;
    assert "" + footer == footer;
  }

  /** The loop of `get_random_articles_in_html`: appends the block of each article, in order. */
  method AppendBlocks(html0: string, articles: seq<NewsArticle>) returns (html: string)
    ensures html == html0 + Blocks(articles)
  {
    html := html0;
    for i := 0 to |articles|
      invariant html == html0 + Blocks(articles[..i])
    {
      var article := articles[i];
      ghost var done := html;
      html := html + ArticleMain(article);
      if Truthy(article.header_photo_base64) {
        html := html + PhotoFragment(article);
      }
      html := html + BlockEnd;
      BlockAppended(done, article);
      BlocksSnoc(articles, i);
      AppendAssoc(html0, Blocks(articles[..i]), ArticleBlock(article));
    }
    Whole(articles, |articles|);
  }

  /**
   * `get_random_articles_in_html` with an emptiness test on the sampled
   * articles: an empty sample raises NOT_FOUND, otherwise the page is built
   * by appending one block per article.
   */
  method GetRandomArticlesInHtml(sample: seq<NewsArticle>) returns (r: Result<string, HttpError>)
    ensures r.Failure? <==> sample == []
    ensures r.Failure? ==> r.error == NotFound(NoArticles)
    ensures r.Success? ==> r.value == Page(sample)
  {
    if sample == [] {
      return Failure(NotFound(NoArticles));
    }
    var articles := sample;
    var html := AppendBlocks(PageHeader, articles);
    html := html + PageFooter;
    AppendAssoc(PageHeader, Blocks(articles), PageFooter);
    return Success(html);
  }

  // ---------------------------------------------------------------------
  // The emptiness test as written

  /** What `await collection.aggregate(...)` returns: a command cursor over the sampled documents. */
  datatype Cursor = Cursor(documents: seq<NewsArticle>)

  /** A command cursor defines neither `__bool__` nor `__len__`, so Python counts every cursor as true. */
  predicate CursorTruthy(c: Cursor) {
    true
  }

  /** The endpoint as written: `if not results` tests the cursor, not the articles it yields. */
  function GetRandomArticlesAsWritten(results: Cursor): (r: Result<string, HttpError>)
    ensures r.Success? && r.value == Page(results.documents)
  {
    if !CursorTruthy(results) then Failure(NotFound(NoArticles)) else Success(Page(results.documents))
  }

  /** As written, an empty sample is answered with the page without blocks instead of NOT_FOUND. */
  lemma EmptySampleNotRejectedAsWritten()
    ensures GetRandomArticlesAsWritten(Cursor([])) == Success(PageHeader + PageFooter)
  {
    PageOfNothing();
  }
}
