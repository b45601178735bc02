/**
 * The spider (kp_crawler/spiders/kp_spider.py): title cleaning, the listing
 * traversal that pages through the site with its "show more" button, and the
 * detail-page extraction that fills in the rest of an item.
 *
 * Browser calls and HTML parsing are oracles: the traversal sees the listing
 * as a sequence of scans, one per rendered document, and the extraction sees
 * the strings that the XPath queries return.
 */
module Spider {
  import opened Wrappers
  import opened Text
  import opened Items

  /** The traversal stops emitting detail requests once this many were emitted. */
  const Cap: nat := 1000

  // ---------------------------------------------------------------------
  // Title cleaning

  /**
   * `clean_title`: a missing or empty anchor gives "", otherwise the anchor's
   * text content (the `textContent` oracle stands for lxml) is stripped and its
   * whitespace runs collapsed to single spaces.
   */
  function CleanTitle(raw: Option<string>, textContent: string -> string): (r: string)
    ensures (raw == None || raw == Some("")) ==> r == ""
    ensures Normalised(r)
  {
    if raw == None || raw.value == "" then ""
    else Normalise(Strip(textContent(raw.value)))
  }

  /** The words of a cleaned title are exactly those of the anchor's text content, in order. */
  lemma CleanTitleKeepsWords(raw: Option<string>, textContent: string -> string)
    requires raw.Some? && raw.value != ""
    ensures Split(CleanTitle(raw, textContent)) == Split(textContent(raw.value))
  {
    var text := textContent(raw.value);
    assert CleanTitle(raw, textContent) == Normalise(Strip(text));
    NormaliseKeepsWords(Strip(text));
    SplitStrip(text);
  }

  // ---------------------------------------------------------------------
  // Listing traversal

  /** What the XPath queries return for one article summary node. */
  datatype ArticleNode = ArticleNode(
    titleMarkup: Option<string>,   // the title anchor's markup, `.get()`
    description: Option<string>,   // the description anchor's text, `.get()`
    href: Option<string>)          // the title anchor's href, `.get()`

  /**
   * One rendered document of the listing: the article nodes it holds, and
   * whether the "show more" button is on the page while that document is current.
   */
  datatype Scan = Scan(nodes: seq<ArticleNode>, showMore: bool)

  /** How the traversal ends. `SelectorTimeout`: after a click no article node reappeared, so the wait raised. */
  datatype Stop = CapReached | NoShowMore | SelectorTimeout

  /** The nodes the traversal emitted requests for, in order, and how it ended. */
  datatype Trace = Trace(visited: seq<ArticleNode>, stop: Stop)

  /** The browser's oracle links each document to the next; a document reached by a click holds at least one node. */
  predicate Refreshed(page: nat -> Scan, j: nat) {
    j > 0 ==> page(j).nodes != []
  }

  /** Document `i` has the button, and the click brings a document with article nodes. */
  predicate Continues(page: nat -> Scan, i: nat) {
    page(i).showMore && page(i + 1).nodes != []
  }

  /**
   * The traversal from document `j` on, with `count` requests already emitted:
   * every node of the current document is emitted until the cap is reached;
   * then, if the button is there, the next document replaces the current one.
   */
  function Run(page: nat -> Scan, j: nat, count: nat): Trace
    requires count < Cap && Refreshed(page, j)
    decreases Cap - count, if j == 0 then 1 else 0
  {
    var nodes := page(j).nodes;
    if count + |nodes| >= Cap then Trace(nodes[..Cap - count], CapReached)
    else if !page(j).showMore then Trace(nodes, NoShowMore)
    else if page(j + 1).nodes == [] then Trace(nodes, SelectorTimeout)
    else
      var rest := Run(page, j + 1, count + |nodes|);
      Trace(nodes + rest.visited, rest.stop)
  }

  /** The nodes of documents `j` to `j + n - 1`, one whole document after another. */
  function Flatten(page: nat -> Scan, j: nat, n: nat): seq<ArticleNode>
    decreases n
  {
    if n == 0 then [] else page(j).nodes + Flatten(page, j + 1, n - 1)
  }

  /** Never more than `Cap` requests; the cap is the reason to stop exactly when it is reached. */
  lemma {:induction false} RunBound(page: nat -> Scan, j: nat, count: nat)
    requires count < Cap && Refreshed(page, j)
    ensures count + |Run(page, j, count).visited| <= Cap
    ensures Run(page, j, count).stop == CapReached <==> count + |Run(page, j, count).visited| == Cap
    decreases Cap - count, if j == 0 then 1 else 0
  {
    var nodes := page(j).nodes;
    if count + |nodes| < Cap && page(j).showMore && page(j + 1).nodes != [] {
      RunBound(page, j + 1, count + |nodes|);
    }
  }

  lemma FlattenStep(page: nat -> Scan, j: nat, n: nat)
    ensures Flatten(page, j, n + 1) == page(j).nodes + Flatten(page, j + 1, n)
  {
  }

  /** Below the cap, a document without the button, or whose click brings nothing back, ends the traversal. */
  lemma RunLast(page: nat -> Scan, j: nat, count: nat)
    requires count < Cap && Refreshed(page, j)
    requires !page(j).showMore || page(j + 1).nodes == []
    requires count + |page(j).nodes| < Cap
    ensures Run(page, j, count) == Trace(page(j).nodes, if page(j).showMore then SelectorTimeout else NoShowMore)
  {
  }

  /** Below the cap, a document whose click brings new nodes is emitted whole, and the traversal goes on from the next one. */
  lemma RunStep(page: nat -> Scan, j: nat, count: nat)
    requires count < Cap && Refreshed(page, j)
    requires Continues(page, j)
    requires count + |page(j).nodes| < Cap
    ensures var rest := Run(page, j + 1, count + |page(j).nodes|);
            Run(page, j, count) == Trace(page(j).nodes + rest.visited, rest.stop)
  {
  }

  /**
   * Below the cap, every pass emits the whole current document again, earlier
   * nodes included; the traversal ends at the first document without the button,
   * or when the click brings no article node back.
   */
  lemma {:induction false} RunRescans(page: nat -> Scan, j: nat, count: nat, k: nat)
    requires count < Cap && Refreshed(page, j)
    requires forall i :: j <= i < j + k ==> Continues(page, i)
    requires !page(j + k).showMore || page(j + k + 1).nodes == []
    requires count + |Flatten(page, j, k + 1)| < Cap
    ensures Run(page, j, count)
         == Trace(Flatten(page, j, k + 1), if page(j + k).showMore then SelectorTimeout else NoShowMore)
    decreases k
  {
    var nodes := page(j).nodes;
    FlattenStep(page, j, k);
    if k == 0 {
      assert Flatten(page, j + 1, 0) == [];
      AppendEmpty(nodes);
      RunLast(page, j, count);
    } else {
      assert Continues(page, j);
      RunStep(page, j, count);
      RunRescans(page, j + 1, count + |nodes|, k - 1);
    }
  }

  /** When the cap falls within pass `k`, the traversal emits the first `Cap - count` nodes of the passes so far. */
  lemma {:induction false} RunReachesCap(page: nat -> Scan, j: nat, count: nat, k: nat)
    requires count < Cap && Refreshed(page, j)
    requires forall i :: j <= i < j + k ==> Continues(page, i)
    requires count + |Flatten(page, j, k)| < Cap <= count + |Flatten(page, j, k + 1)|
    ensures Run(page, j, count) == Trace(Flatten(page, j, k + 1)[..Cap - count], CapReached)
    decreases k
  {
    var nodes := page(j).nodes;
    FlattenStep(page, j, k);
    if k == 0 {
      assert Flatten(page, j + 1, 0) == [];
      AppendEmpty(nodes);
    } else {
      FlattenStep(page, j, k - 1);
      assert Continues(page, j);
      RunStep(page, j, count);
      RunReachesCap(page, j + 1, count + |nodes|, k - 1);
      PrefixOfAppend(nodes, Flatten(page, j + 1, k), Cap - count);
    }
  }

  /** The oracles the listing needs: lxml's text content and `response.urljoin` against the listing's url. */
  datatype Extractors = Extractors(textContent: string -> string, urljoin: Option<string> -> string)

  /** The partial item built from one summary node. */
  function ListingItem(node: ArticleNode, ex: Extractors): ItemDict {
    EmptyItem.(title := Set(CleanTitle(node.titleMarkup, ex.textContent)),
               description := Set(node.description),
               source_url := Set(ex.urljoin(node.href)))
  }

  /** One iteration of the inner loop of `parse`: a fresh item filled from a summary node. */
  method NewListingItem(node: ArticleNode, ex: Extractors) returns (item: NewsItem)
    ensures fresh(item) && item.Value() == ListingItem(node, ex)
  {
    item := new NewsItem();
    item.title := Set(CleanTitle(node.titleMarkup, ex.textContent));
    item.description := Set(node.description);
    item.source_url := Set(ex.urljoin(node.href));
  }

  /** A detail-page request, with the partial item in its meta. */
  datatype Request = Request(url: string, item: NewsItem)

  /** The partial items built from a run of summary nodes, one per node, in order. */
  function Listing(nodes: seq<ArticleNode>, ex: Extractors): (items: seq<ItemDict>)
    ensures |items| == |nodes|
  {
    seq(|nodes|, i requires 0 <= i < |nodes| => ListingItem(nodes[i], ex))
  }

  lemma ListingSnoc(nodes: seq<ArticleNode>, n: ArticleNode, ex: Extractors)
    ensures Listing(nodes + [n], ex) == Listing(nodes, ex) + [ListingItem(n, ex)]
  {
  }

  /**
   * Request `i` carries a distinct item whose contents are `items[i]`, and its
   * url is the item's `source_url`.
   */
  ghost predicate Carries(requests: seq<Request>, items: seq<ItemDict>)
    reads set i | 0 <= i < |requests| :: requests[i].item
  {
    && |requests| == |items|
    && (forall i :: 0 <= i < |requests| ==>
          requests[i].item.Value() == items[i] && requests[i].item.source_url == Set(requests[i].url))
    && (forall i, i' :: 0 <= i < i' < |requests| ==> requests[i].item != requests[i'].item)
  }

  lemma CarriesAppend(requests: seq<Request>, items: seq<ItemDict>, r: Request, it: ItemDict)
    requires Carries(requests, items)
    requires forall i :: 0 <= i < |requests| ==> requests[i].item != r.item
    requires r.item.Value() == it && r.item.source_url == Set(r.url)
    ensures Carries(requests + [r], items + [it])
  {
  }

  /**
   * The inner `for` of `parse`: one request per node of the current document,
   * stopping as soon as the counter reaches the cap.
   */
  method EmitNodes(articles: seq<ArticleNode>, ex: Extractors, requests0: seq<Request>,
                   ghost emitted0: seq<ArticleNode>, count0: nat)
    returns (requests: seq<Request>, articlesCount: nat, ghost emitted: seq<ArticleNode>)
    requires count0 == |requests0| < Cap
    requires Carries(requests0, Listing(emitted0, ex))
    ensures count0 <= articlesCount && (articles != [] ==> count0 < articlesCount)
    ensures count0 + |articles| < Cap ==> articlesCount == count0 + |articles| && emitted == emitted0 + articles
    ensures count0 + |articles| >= Cap ==> articlesCount == Cap && emitted == emitted0 + articles[..Cap - count0]
    ensures |requests| == articlesCount && requests[..count0] == requests0
    ensures forall i :: count0 <= i < |requests| ==> fresh(requests[i].item)
    ensures Carries(requests, Listing(emitted, ex))
  {
    requests, articlesCount, emitted := requests0, count0, emitted0;
    var k := 0;
    while k < |articles|
      invariant 0 <= k <= |articles|
      invariant articlesCount == count0 + k == |requests| < Cap
      invariant emitted == emitted0 + articles[..k]
      invariant requests[..count0] == requests0
      invariant forall i :: count0 <= i < |requests| ==> fresh(requests[i].item)
      invariant Carries(requests, Listing(emitted, ex))
    {
      var article := articles[k];
      var item := NewListingItem(article, ex);
      var request := Request(item.source_url.value, item);
      CarriesAppend(requests, Listing(emitted, ex), request, ListingItem(article, ex));
      ListingSnoc(emitted, article, ex);
      TakeOfAppend(requests, [request], count0);
      TakeSnoc(articles, k);
      AppendAssoc(emitted0, articles[..k], [article]);
      requests := requests + [request];
      emitted := emitted + [article];
      articlesCount := articlesCount + 1;
      k := k + 1;
      if articlesCount >= Cap {
        return;
      }
    }
    Whole(articles, k);
  }

  /**
   * Document `j` of the listing, as the browser renders it. The methods below
   * read the documents through this function rather than by applying `page`
   * directly; this keeps their proof obligations small.
   */
  function Document(page: nat -> Scan, j: nat): Scan {
    page(j)
  }

  /** The emitted nodes so far followed by what the traversal emits from document `j` on make up the whole traversal. */
  ghost predicate OnTrack(page: nat -> Scan, j: nat, count: nat, emitted: seq<ArticleNode>) {
    && count < Cap && Refreshed(page, j)
    && var rest := Run(page, j, count);
       Run(page, 0, 0).visited == emitted + rest.visited && Run(page, 0, 0).stop == rest.stop
  }

  /** Before the first pass nothing is emitted and the traversal starts at the first document. */
  lemma TrackStart(page: nat -> Scan)
    ensures OnTrack(page, 0, 0, [])
  {
    var rest := Run(page, 0, 0);
    assert [] + rest.visited == rest.visited;
  }

  /** A pass that reaches the cap ends the traversal after the first `Cap - count` nodes of the document. */
  lemma TrackCapped(page: nat -> Scan, j: nat, count: nat, emitted: seq<ArticleNode>)
    requires OnTrack(page, j, count, emitted)
    requires count + |Document(page, j).nodes| >= Cap
    ensures Run(page, 0, 0) == Trace(emitted + Document(page, j).nodes[..Cap - count], CapReached)
  {
  }

  /** A pass below the cap that ends without the button, or after a click that brings nothing back, ends the traversal. */
  lemma TrackLast(page: nat -> Scan, j: nat, count: nat, emitted: seq<ArticleNode>)
    requires OnTrack(page, j, count, emitted)
    requires count + |Document(page, j).nodes| < Cap && !Continues(page, j)
    ensures Run(page, 0, 0) == Trace(emitted + Document(page, j).nodes, if Document(page, j).showMore then SelectorTimeout else NoShowMore)
  {
    RunLast(page, j, count);
  }

  /** A pass below the cap followed by a successful click leaves the traversal on track at the next document. */
  lemma TrackNext(page: nat -> Scan, j: nat, count: nat, emitted: seq<ArticleNode>, count': nat, emitted': seq<ArticleNode>)
    requires OnTrack(page, j, count, emitted)
    requires count' == count + |Document(page, j).nodes| < Cap && Continues(page, j)
    requires emitted' == emitted + Document(page, j).nodes
    ensures OnTrack(page, j + 1, count', emitted')
  {
    RunStep(page, j, count);
    var rest := Run(page, j + 1, count');
    AppendAssoc(emitted, page(j).nodes, rest.visited);
  }

  /** How one pass of the outer loop of `parse` ends: with the document the click rendered, or with the reason to stop. */
  datatype Outcome = Next(response: Scan) | Stopped(stop: Stop)

  /**
   * One pass of the outer loop of `parse`: a request for each node of the
   * current document up to the cap, then the click on "show more" when the
   * button is there.
   */
  method Pass(page: nat -> Scan, ex: Extractors, j: nat, response: Scan,
              requests0: seq<Request>, ghost emitted0: seq<ArticleNode>, count0: nat)
    returns (requests: seq<Request>, articlesCount: nat, ghost emitted: seq<ArticleNode>, outcome: Outcome)
    requires response == Document(page, j) && count0 == |requests0|
    requires OnTrack(page, j, count0, emitted0) && Carries(requests0, Listing(emitted0, ex))
    ensures count0 <= articlesCount == |requests| <= Cap
    ensures forall i :: 0 <= i < count0 ==> requests[i] == requests0[i]
    ensures forall i :: count0 <= i < |requests| ==> fresh(requests[i].item)
    ensures Carries(requests, Listing(emitted, ex))
    ensures outcome.Stopped? ==> Run(page, 0, 0).visited == emitted && Run(page, 0, 0).stop == outcome.stop
    ensures outcome.Next? ==> && outcome.response == Document(page, j + 1)
                              && OnTrack(page, j + 1, articlesCount, emitted)
                              && (j == 0 || count0 < articlesCount)
  {
    var articles := response.nodes;
    requests, articlesCount, emitted := EmitNodes(articles, ex, requests0, emitted0, count0);
    assert requests[..count0] == requests0;
    if articlesCount >= Cap {
      TrackCapped(page, j, count0, emitted0);
      outcome := Stopped(CapReached);
      return;
    }
    if !response.showMore {
      TrackLast(page, j, count0, emitted0);
      outcome := Stopped(NoShowMore);
      return;
    }
    // click "show more", wait for the article nodes, re-read the rendered document
    var refreshed := Document(page, j + 1);
    if refreshed.nodes == [] {
      TrackLast(page, j, count0, emitted0);
      outcome := Stopped(SelectorTimeout);
      return;
    }
    TrackNext(page, j, count0, emitted0, articlesCount, emitted);
    outcome := Next(refreshed);
  }

  /**
   * `parse`: the traversal loop. Each emitted request carries a new item; the
   * requests and their items follow `Run` from the first document, and the
   * counter is the number of requests emitted.
   */
  method Parse(page: nat -> Scan, ex: Extractors) returns (requests: seq<Request>, articlesCount: nat, stop: Stop)
    ensures articlesCount == |requests| <= Cap
    ensures |requests| == |Run(page, 0, 0).visited| && stop == Run(page, 0, 0).stop
    ensures forall i :: 0 <= i < |requests| ==> fresh(requests[i].item)
    ensures Carries(requests, Listing(Run(page, 0, 0).visited, ex))
  {
    requests, articlesCount := [], 0;
    var j: nat := 0;
    var response := Document(page, 0);
    ghost var emitted: seq<ArticleNode> := [];
    stop := CapReached;
    TrackStart(page);
    while articlesCount < Cap
      invariant articlesCount == |requests| == |emitted|
      invariant response == Document(page, j) && OnTrack(page, j, articlesCount, emitted)
      invariant forall i :: 0 <= i < |requests| ==> fresh(requests[i].item)
      invariant Carries(requests, Listing(emitted, ex))
      decreases Cap - articlesCount, if j == 0 then 1 else 0
    {
      var outcome;
      requests, articlesCount, emitted, outcome := Pass(page, ex, j, response, requests, emitted, articlesCount);
      if outcome.Stopped? {
        stop := outcome.stop;
        break;
      }
      j, response := j + 1, outcome.response;
    }
  }

  // ---------------------------------------------------------------------
  // Detail extraction

  /** One key-field container of a detail page: its keyword links and its date spans. */
  datatype KeyFields = KeyFields(keywords: seq<string>, datetimes: seq<string>)

  /** What the XPath queries return on a detail page. */
  datatype DetailPage = DetailPage(
    paragraphTexts: seq<string>,   // the text nodes of the body paragraphs, `.getall()`
    authors: seq<string>,          // the author spans' texts, `.getall()`
    keyFields: seq<KeyFields>,     // the key-field containers
    imageSrc: Option<string>)      // the header image's src, `.get()`

  /** The keywords of all containers, in document order. */
  function Keywords(containers: seq<KeyFields>): seq<string> {
    if containers == [] then [] else containers[0].keywords + Keywords(containers[1..])
  }

  /** The date strings of all containers, in document order. */
  function Datetimes(containers: seq<KeyFields>): seq<string> {
    if containers == [] then [] else containers[0].datetimes + Datetimes(containers[1..])
  }

  /** `SelectorList.get()`: the first match, or `None`. */
  function First(matches: seq<string>): (r: Option<string>)
    ensures r == None <==> matches == []
    ensures r.Some? ==> r.value == matches[0]
  {
    if matches == [] then None else Some(matches[0])
  }

  /**
   * `.get()` on the date spans of all containers finds nothing exactly when no
   * container has one; otherwise it is the first span of the first container
   * that has one.
   */
  lemma {:induction false} FirstDatetime(containers: seq<KeyFields>, k: nat)
    requires k <= |containers|
    requires forall i :: 0 <= i < k ==> containers[i].datetimes == []
    ensures k == |containers| ==> First(Datetimes(containers)) == None
    ensures k < |containers| && containers[k].datetimes != [] ==>
              First(Datetimes(containers)) == Some(containers[k].datetimes[0])
    decreases k
  {
    if containers != [] && k > 0 {
      FirstDatetime(containers[1..], k - 1);
      assert Datetimes(containers) == [] + Datetimes(containers[1..]);
    }
  }

  /**
   * What `parse_article` does to an item: body text and authors always, keywords
   * and datetime only when a key-field container exists, and the photo url,
   * which is `None` exactly when no non-empty image src was found.
   */
  function Detailed(item: ItemDict, page: DetailPage): (r: ItemDict)
    ensures r.article_text == Set(Join(" ", page.paragraphTexts)) && r.authors == Set(page.authors)
    ensures page.keyFields != [] ==>
              r.keywords == Set(Keywords(page.keyFields))
              && r.publication_datetime == Set(First(Datetimes(page.keyFields)))
    ensures page.keyFields == [] ==> r.keywords == item.keywords && r.publication_datetime == item.publication_datetime
    ensures r.header_photo_url == Set(None) <==> (page.imageSrc == None || page.imageSrc == Some(""))
    ensures r.header_photo_url != Set(None) ==> r.header_photo_url == Set(page.imageSrc)
    ensures r.title == item.title && r.description == item.description && r.source_url == item.source_url
    ensures r.header_photo_base64 == item.header_photo_base64
  {
    var text := item.(article_text := Set(Join(" ", page.paragraphTexts)), authors := Set(page.authors));
    var keyed :=
      if page.keyFields != [] then
        text.(keywords := Set(Keywords(page.keyFields)), publication_datetime := Set(First(Datetimes(page.keyFields))))
      else text;
    var image := page.imageSrc;
    keyed.(header_photo_url := Set(if image.Some? && image.value != "" then image else None))
  }

  /** `parse_article`: fills the item in place, field by field, and yields it. */
  method ParseArticle(item: NewsItem, page: DetailPage) returns (yielded: NewsItem)
    modifies item
    ensures yielded == item && item.Value() == Detailed(old(item.Value()), page)
  {
    item.article_text := Set(Join(" ", page.paragraphTexts));
    item.authors := Set(page.authors);
    var keyFields := page.keyFields;
    if keyFields != [] {
      item.keywords := Set(Keywords(keyFields));
      item.publication_datetime := Set(First(Datetimes(keyFields)));
    }
    var image := page.imageSrc;
    item.header_photo_url := Set(if image.Some? && image.value != "" then image else None);
    yielded := item;
  }
}
