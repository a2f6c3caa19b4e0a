/**
 * The Laravel store API's harvest, `POST /api/scrape`: the blog index is
 * fetched, its last pagination link followed, at most five articles read off
 * that page selector by selector, and each one written with
 * `Article::updateOrCreate` keyed by its `url`.
 */
module LaravelApi {
  import opened Options
  import opened Text
  import opened Records
  import opened Listing
  import opened Table

  /**
   * One node matched by an article selector, as the controller reads it: the
   * `text()` of its first `h1, h2, h3, .title, .post-title` descendant and of its
   * first `.content, .post-content, p` descendant, and the `href` of its first
   * link; `None` when there is no such descendant (or the link has no `href`).
   */
  datatype CrawlerNode = CrawlerNode(titleText: Option<string>, contentText: Option<string>, href: Option<string>)

  /**
   * A fetched listing page: the `href` of each `.pagination a, .page-numbers a`
   * link in document order (`None` for a link without one), and for each
   * selector the page matches, its nodes in document order.
   */
  datatype ListingPage = ListingPage(paginationHrefs: seq<Option<string>>, matches: map<string, seq<CrawlerNode>>)

  /** The blog index the harvest starts from. */
  const BlogsUrl: string := "https://beyondchats.com/blogs/"

  /** The character `rtrim`/`ltrim` strip when joining the base and a relative link. */
  const Slash: set<char> := {'/'}

  /** PHP truthiness of a string or `null`: `null`, `""` and `"0"` are false. */
  predicate Truthy(s: Option<string>) {
    s.Some? && s.value != "" && s.value != "0"
  }

  /** `extractText`: the text of the first matching descendant, trimmed, or `null` when there is none. */
  function ExtractText(text: Option<string>): (r: Option<string>)
    ensures r.None? <==> text.None?
    ensures r.Some? ==> r.value == PhpTrim(text.value)
  {
    match text
    case None => None
    case Some(t) => Some(PhpTrim(t))
  }

  /** The extracted text is already trimmed: no end is a character PHP's `trim` strips, and trimming again changes nothing. */
  lemma ExtractTextTrimmed(text: Option<string>)
    ensures var r := ExtractText(text);
      r.Some? ==>
        |r.value| <= |text.value| && PhpTrim(r.value) == r.value &&
        (r.value != "" ==> r.value[0] !in PhpTrimChars && r.value[|r.value| - 1] !in PhpTrimChars)
  {
    if text.Some? {
      var r := Trim(text.value, PhpTrimChars);
      assert r != "" ==> r[0] !in PhpTrimChars && r[|r| - 1] !in PhpTrimChars;
      TrimIdempotent(text.value, PhpTrimChars);
    }
  }

  /**
   * `rtrim($base, '/') . '/' . ltrim($path, '/')`: the base without its trailing
   * slashes, one slash, and the path without its leading slashes.
   */
  function JoinUrl(base: string, path: string): (r: string)
    ensures var i := |TrimEnd(base, Slash)|; var j := |path| - |TrimStart(path, Slash)|;
      && 0 <= i <= |base| && 0 <= j <= |path|
      && r == base[..i] + "/" + path[j..]
      && (forall k :: i <= k < |base| ==> base[k] == '/')
      && (forall k :: 0 <= k < j ==> path[k] == '/')
      && (i == 0 || base[i - 1] != '/')
      && (j == |path| || path[j] != '/')
  {
    var kept := TrimEnd(base, Slash);
    var rest := TrimStart(path, Slash);
    JoinTrimmed(base, path, Slash, '/', kept, rest);
    kept + "/" + rest
  }

  /**
   * `getLastPageUrl`: with no pagination link, the base URL; otherwise the
   * `href` of the last one, joined to the base when it is truthy and does not
   * start with `http`, and returned as it is (possibly `null` or `"0"`) otherwise.
   */
  function LastPageUrl(hrefs: seq<Option<string>>, base: string): (r: Option<string>)
    ensures hrefs == [] ==> r == Some(base)
    ensures hrefs != [] && Truthy(hrefs[|hrefs| - 1]) && !("http" <= hrefs[|hrefs| - 1].value) ==>
      r == Some(JoinUrl(base, hrefs[|hrefs| - 1].value))
    ensures hrefs != [] && !(Truthy(hrefs[|hrefs| - 1]) && !("http" <= hrefs[|hrefs| - 1].value)) ==>
      r == hrefs[|hrefs| - 1]
  {
    if hrefs == [] then Some(base)
    else
      var href := hrefs[|hrefs| - 1];
      if Truthy(href) && !("http" <= href.value) then Some(JoinUrl(base, href.value))
      else href
  }

  /** Only the last pagination link matters: links before it change nothing. */
  lemma LastPageUrlUsesLastLink(earlier: seq<Option<string>>, last: Option<string>, base: string)
    ensures LastPageUrl(earlier + [last], base) == LastPageUrl([last], base)
  {
    assert (earlier + [last])[|earlier + [last]| - 1] == last;
  }

  /** The next fetch is skipped, and the route answers "not found", exactly when the last link's `href` is falsy. */
  lemma LastPageUrlFalsy(hrefs: seq<Option<string>>, base: string)
    requires Truthy(Some(base))
    ensures !Truthy(LastPageUrl(hrefs, base)) <==> hrefs != [] && !Truthy(hrefs[|hrefs| - 1])
  {
    if hrefs != [] {
      var href := hrefs[|hrefs| - 1];
      if Truthy(href) && !("http" <= href.value) {
        var r := JoinUrl(base, href.value);
        assert r[|TrimEnd(base, Slash)|] == '/';
      }
    }
  }

  /**
   * The attributes a node yields: only when both extracted texts are truthy
   * (so a title or content of `"0"` is skipped); the content is kept whole, the
   * link as it is, `is_updated` false and `published_at` now.
   */
  function ItemOf(n: CrawlerNode, now: Timestamp): (r: Option<ItemAttributes>)
    ensures r.Some? <==> Truthy(ExtractText(n.titleText)) && Truthy(ExtractText(n.contentText))
    ensures r.Some? ==> r.value.title == PhpTrim(n.titleText.value) && r.value.content == PhpTrim(n.contentText.value)
    ensures r.Some? ==> r.value.url == n.href && r.value.publishedAt == now && !r.value.isUpdated
  {
    var title := ExtractText(n.titleText);
    var content := ExtractText(n.contentText);
    if Truthy(title) && Truthy(content) then
      Some(ItemAttributes(title.value, content.value, n.href, now, false))
    else None
  }

  /** What each of a selector's nodes yields, in document order. */
  function NodeYields(nodes: seq<CrawlerNode>, now: Timestamp): (r: seq<Option<ItemAttributes>>)
    ensures |r| == |nodes|
  {
    seq(|nodes|, m requires 0 <= m < |nodes| => ItemOf(nodes[m], now))
  }

  /** What every node of every selector in `sels` yields: selector order first, then document order. */
  function PageYields(page: ListingPage, sels: seq<string>, now: Timestamp): (r: seq<seq<Option<ItemAttributes>>>)
    ensures |r| == |sels|
  {
    seq(|sels|, k requires 0 <= k < |sels| => NodeYields(Matches(page.matches, sels[k]), now))
  }

  /** What `extractArticles` returns: the first five articles in selector order, then document order. */
  function Harvested(page: ListingPage, now: Timestamp): (r: seq<ItemAttributes>)
    ensures |r| <= MaxArticles
  {
    Take(Collected(PageYields(page, ArticleSelectors, now)), MaxArticles)
  }

  /**
   * At most five articles, each with a non-empty trimmed title and content and
   * yielded by a node one of the article selectors matches.
   */
  lemma HarvestedShape(page: ListingPage, now: Timestamp)
    ensures |Harvested(page, now)| <= MaxArticles
    ensures Harvested(page, now) <= Collected(PageYields(page, ArticleSelectors, now))
    ensures forall a :: a in Harvested(page, now) ==>
      a.title != "" && a.content != "" && !a.isUpdated && a.publishedAt == now &&
      exists k, n :: 0 <= k < |ArticleSelectors| && n in Matches(page.matches, ArticleSelectors[k]) && ItemOf(n, now) == Some(a)
  {
    var gs := PageYields(page, ArticleSelectors, now);
    CollectedMembers(gs);
    forall a | a in Harvested(page, now)
      ensures a.title != "" && a.content != "" && !a.isUpdated && a.publishedAt == now &&
        exists k, n :: 0 <= k < |ArticleSelectors| && n in Matches(page.matches, ArticleSelectors[k]) && ItemOf(n, now) == Some(a)
    {
      assert a in Collected(gs);
      var k :| 0 <= k < |gs| && Some(a) in gs[k];
      var nodes := Matches(page.matches, ArticleSelectors[k]);
      var m :| 0 <= m < |gs[k]| && gs[k][m] == Some(a);
      assert nodes[m] in nodes && ItemOf(nodes[m], now) == Some(a);
    }
  }

  /** Every node whose two extracted texts are truthy contributes its article before the cut to five. */
  lemma HarvestIsComplete(page: ListingPage, sels: seq<string>, k: nat, n: CrawlerNode, now: Timestamp)
    requires k < |sels| && n in Matches(page.matches, sels[k])
    requires Truthy(ExtractText(n.titleText)) && Truthy(ExtractText(n.contentText))
    ensures ItemOf(n, now).Some? && ItemOf(n, now).value in Collected(PageYields(page, sels, now))
  {
    var gs := PageYields(page, sels, now);
    var nodes := Matches(page.matches, sels[k]);
    var m :| 0 <= m < |nodes| && nodes[m] == n;
    var a := ItemOf(n, now).value;
    assert gs[k][m] == Some(a);
    CollectedHas(gs, k, a);
  }

  /** A node whose title or content is the string `"0"` contributes nothing (PHP truthiness). */
  lemma ZeroTextSkipped(n: CrawlerNode, now: Timestamp)
    requires n.titleText == Some("0") || n.contentText == Some("0")
    ensures ItemOf(n, now).None?
  {
    var zero := "0";
    assert zero[0] !in PhpTrimChars;
    assert TrimStart(zero, PhpTrimChars) == zero;
    assert TrimEnd(zero, PhpTrimChars) == zero;
  }

  /**
   * The `each` callback over one selector's nodes: a node seen once five
   * articles are collected is skipped, any other adds its article when it
   * yields one.
   */
  method EachNode(articles0: seq<ItemAttributes>, ghost done: seq<ItemAttributes>, nodes: seq<CrawlerNode>, now: Timestamp)
    returns (articles: seq<ItemAttributes>)
    requires articles0 == Take(done, MaxArticles)
    ensures articles == Take(done + Somes(NodeYields(nodes, now)), MaxArticles)
  {
    ghost var ys := NodeYields(nodes, now);
    articles := articles0;
    assert ys[..0] == [] && done + [] == done;
    for j := 0 to |nodes|
      invariant articles == Take(done + Somes(ys[..j]), MaxArticles)
    {
      if |articles| >= MaxArticles {
        WalkSkip(done, ys, j, MaxArticles);
        continue;
      }
      var title := ExtractText(nodes[j].titleText);
      var content := ExtractText(nodes[j].contentText);
      var url := nodes[j].href;
      WalkStep(done, ys, j, MaxArticles);
      assert ys[j] == ItemOf(nodes[j], now);
      if Truthy(title) && Truthy(content) {
        articles := articles + [ItemAttributes(title.value, content.value, url, now, false)];
      }
    }
    assert ys[..|nodes|] == ys;
  }

  /** `extractArticles`: selectors in priority order, stopping after the one that brings the count to five. */
  method ExtractArticles(page: ListingPage, now: Timestamp) returns (articles: seq<ItemAttributes>)
    ensures articles == Harvested(page, now)
  {
    var sels := ArticleSelectors;
    ghost var gs := PageYields(page, sels, now);
    var collected := [];
    var i := 0;
    assert gs[..0] == [];
    while i < |sels|
      invariant 0 <= i <= |sels|
      invariant collected == Take(Collected(gs[..i]), MaxArticles)
    {
      var nodes := Matches(page.matches, sels[i]);
      CollectedStep(gs, i);
      if |nodes| > 0 {
        collected := EachNode(collected, Collected(gs[..i]), nodes, now);
        if |collected| >= MaxArticles {
          CollectedSaturated(gs, i, MaxArticles);
          break;
        }
      } else {
        assert gs[i] == [];
        assert Collected(gs[..i + 1]) == Collected(gs[..i]);
      }
      i := i + 1;
    }
    assert gs[..|gs|] == gs;
    articles := Take(collected, MaxArticles);
  }

  /** The table after `updateOrCreate` on each article in order, and whether every write went through. */
  datatype Upserts = Upserts(rows: seq<Row>, nextId: nat, complete: bool)

  /**
   * The writes of the harvest, in order; `accepts` says whether the store takes
   * a write, and the first refused one throws, so none after it is attempted.
   */
  function UpsertAll(rows: seq<Row>, nextId: nat, items: seq<ItemAttributes>, accepts: (seq<Row>, ItemAttributes) -> bool, now: Timestamp): (r: Upserts)
    ensures |rows| <= |r.rows| <= |rows| + |items| && r.nextId == nextId + (|r.rows| - |rows|)
    decreases |items|
  {
    if items == [] then Upserts(rows, nextId, true)
    else
      var s := UpsertAll(rows, nextId, items[..|items| - 1], accepts, now);
      var item := items[|items| - 1];
      if !s.complete then s
      else if !accepts(s.rows, item) then s.(complete := false)
      else
        var r := UpsertedRows(s.rows, s.nextId, item, now);
        Upserts(r, if |r| == |s.rows| then s.nextId else s.nextId + 1, true)
  }

  /**
   * The harvest never loses a row or changes a row's `url`, adds at most one
   * row per article, and when every write goes through, every article's `url`
   * has a row.
   */
  lemma {:induction false} UpsertAllStoresEveryUrl(rows: seq<Row>, nextId: nat, items: seq<ItemAttributes>, accepts: (seq<Row>, ItemAttributes) -> bool, now: Timestamp)
    ensures var s := UpsertAll(rows, nextId, items, accepts, now);
      |rows| <= |s.rows| <= |rows| + |items| &&
      (forall i :: 0 <= i < |rows| ==> s.rows[i].url == rows[i].url) &&
      (s.complete ==> forall k :: 0 <= k < |items| ==> exists i :: 0 <= i < |s.rows| && s.rows[i].url == items[k].url)
  {
    if items != [] {
      var init := items[..|items| - 1];
      var item := items[|items| - 1];
      UpsertAllStoresEveryUrl(rows, nextId, init, accepts, now);
      var s := UpsertAll(rows, nextId, init, accepts, now);
      var t := UpsertAll(rows, nextId, items, accepts, now);
      assert items == init + [item];
      UpsertStoresEveryUrlStep(rows, init, item, s, t, accepts(s.rows, item), now);
    }
  }

  /** The step of `UpsertAllStoresEveryUrl`: from the writes of `init` to those of `init + [item]`. */
  lemma UpsertStoresEveryUrlStep(rows: seq<Row>, init: seq<ItemAttributes>, item: ItemAttributes, s: Upserts, t: Upserts,
                                 accepted: bool, now: Timestamp)
    requires |rows| <= |s.rows| <= |rows| + |init| && forall i :: 0 <= i < |rows| ==> s.rows[i].url == rows[i].url
    requires s.complete ==> forall k :: 0 <= k < |init| ==> exists i :: 0 <= i < |s.rows| && s.rows[i].url == init[k].url
    requires t == if !s.complete then s else if !accepted then s.(complete := false)
      else var r := UpsertedRows(s.rows, s.nextId, item, now);
        Upserts(r, if |r| == |s.rows| then s.nextId else s.nextId + 1, true)
    ensures |rows| <= |t.rows| <= |rows| + |init + [item]|
    ensures forall i :: 0 <= i < |rows| ==> t.rows[i].url == rows[i].url
    ensures t.complete ==> forall k :: 0 <= k < |init + [item]| ==> exists i :: 0 <= i < |t.rows| && t.rows[i].url == (init + [item])[k].url
  {
    if s.complete && accepted {
      UpsertStoresItem(s.rows, s.nextId, item, now);
      UrlsStayStored(rows, s.rows, t.rows, init, item);
    }
  }

  /** One more write that keeps every `url` in place and stores the item's keeps every earlier `url` stored. */
  lemma UrlsStayStored(rows: seq<Row>, before: seq<Row>, after: seq<Row>, init: seq<ItemAttributes>, item: ItemAttributes)
    requires |rows| <= |before| <= |after|
    requires forall i :: 0 <= i < |rows| ==> before[i].url == rows[i].url
    requires forall i :: 0 <= i < |before| ==> after[i].url == before[i].url
    requires forall k :: 0 <= k < |init| ==> exists i :: 0 <= i < |before| && before[i].url == init[k].url
    requires exists i :: 0 <= i < |after| && after[i].url == item.url
    ensures forall i :: 0 <= i < |rows| ==> after[i].url == rows[i].url
    ensures forall k :: 0 <= k < |init + [item]| ==> exists i :: 0 <= i < |after| && after[i].url == (init + [item])[k].url
  {
    forall k | 0 <= k < |init + [item]|
      ensures exists i :: 0 <= i < |after| && after[i].url == (init + [item])[k].url
    {
      if k < |init| {
        var i :| 0 <= i < |before| && before[i].url == init[k].url;
        assert after[i].url == (init + [item])[k].url;
      }
    }
  }

  /** The route's answer: how many articles were harvested, "no articles found", or a server error. */
  datatype ScrapeResponse = Scraped(count: nat) | NotFound | ServerError

  /** The answer and the table after the route. */
  datatype Outcome = Outcome(response: ScrapeResponse, rows: seq<Row>, nextId: nat)

  /**
   * `scrapeAndStore`. The route makes two GETs: `fetchIndex` answers the first
   * (the blog index) and `fetchLast` the second (the last listing page), each
   * with the page or `None` when the request throws, so the two may answer
   * differently even for the same url. A throw anywhere answers a server error,
   * keeping the writes made before it.
   */
  function ScrapeOutcome(rows: seq<Row>, nextId: nat, fetchIndex: string -> Option<ListingPage>,
                         fetchLast: string -> Option<ListingPage>,
                         accepts: (seq<Row>, ItemAttributes) -> bool, now: Timestamp): (o: Outcome)
    ensures |rows| <= |o.rows| <= |rows| + MaxArticles && o.nextId == nextId + (|o.rows| - |rows|)
  {
    match fetchIndex(BlogsUrl)
    case None => Outcome(ServerError, rows, nextId)
    case Some(index) =>
      var last := LastPageUrl(index.paginationHrefs, BlogsUrl);
      if !Truthy(last) then Outcome(NotFound, rows, nextId)
      else
        match fetchLast(last.value)
        case None => Outcome(ServerError, rows, nextId)
        case Some(page) =>
          var items := Harvested(page, now);
          var s := UpsertAll(rows, nextId, items, accepts, now);
          Outcome(if s.complete then Scraped(|items|) else ServerError, s.rows, s.nextId)
  }

  /** The articles read off the last listing page, when both GETs answered and the last link is truthy. */
  function LastPageArticles(fetchIndex: string -> Option<ListingPage>, fetchLast: string -> Option<ListingPage>,
                            now: Timestamp): (r: Option<seq<ItemAttributes>>)
    ensures r.Some? ==> |r.value| <= MaxArticles
  {
    match fetchIndex(BlogsUrl)
    case None => None
    case Some(index) =>
      var last := LastPageUrl(index.paginationHrefs, BlogsUrl);
      if !Truthy(last) then None
      else
        match fetchLast(last.value)
        case None => None
        case Some(page) => HarvestedShape(page, now); Some(Harvested(page, now))
  }

  /**
   * "Not found" exactly when the index has pagination links and the last one's
   * `href` is falsy, and then nothing is written. A successful answer counts
   * every article harvested from the last page (at most five), whether each was
   * created or updated, and the table is the one their upserts leave.
   */
  lemma ScrapeOutcomeResponses(rows: seq<Row>, nextId: nat, fetchIndex: string -> Option<ListingPage>,
                               fetchLast: string -> Option<ListingPage>,
                               accepts: (seq<Row>, ItemAttributes) -> bool, now: Timestamp)
    ensures var o := ScrapeOutcome(rows, nextId, fetchIndex, fetchLast, accepts, now);
      (o.response == NotFound <==>
        fetchIndex(BlogsUrl).Some? && var hrefs := fetchIndex(BlogsUrl).value.paginationHrefs;
        hrefs != [] && !Truthy(hrefs[|hrefs| - 1])) &&
      (o.response.NotFound? ==> o.rows == rows && o.nextId == nextId) &&
      (o.response.Scraped? ==> o.response.count <= MaxArticles)
    ensures var o := ScrapeOutcome(rows, nextId, fetchIndex, fetchLast, accepts, now);
      var items := LastPageArticles(fetchIndex, fetchLast, now);
      o.response.Scraped? ==>
        items.Some? && o.response.count == |items.value| &&
        var s := UpsertAll(rows, nextId, items.value, accepts, now);
        s.complete && o.rows == s.rows && o.nextId == s.nextId
  {
    var bu := BlogsUrl;
    assert bu[0] == 'h';
    assert Truthy(Some(BlogsUrl));
    match fetchIndex(BlogsUrl)
    case None =>
    case Some(index) =>
      LastPageUrlFalsy(index.paginationHrefs, BlogsUrl);
  }

  /** When the store takes every write, the harvest's writes all go through. */
  lemma {:induction false} UpsertAllAccepted(rows: seq<Row>, nextId: nat, items: seq<ItemAttributes>,
                                             accepts: (seq<Row>, ItemAttributes) -> bool, now: Timestamp)
    requires forall t, a :: accepts(t, a)
    ensures UpsertAll(rows, nextId, items, accepts, now).complete
  {
    if items != [] {
      UpsertAllAccepted(rows, nextId, items[..|items| - 1], accepts, now);
    }
  }

  /** When every article's `url` already has a row, the harvest only overwrites: no row is added and no id is used. */
  lemma {:induction false} UpsertAllExistingUrls(rows: seq<Row>, nextId: nat, items: seq<ItemAttributes>,
                                                 accepts: (seq<Row>, ItemAttributes) -> bool, now: Timestamp)
    requires forall k :: 0 <= k < |items| ==> exists i :: 0 <= i < |rows| && rows[i].url == items[k].url
    ensures var s := UpsertAll(rows, nextId, items, accepts, now);
      |s.rows| == |rows| && s.nextId == nextId
  {
    if items != [] {
      var init := items[..|items| - 1];
      var item := items[|items| - 1];
      assert forall k :: 0 <= k < |init| ==> init[k] == items[k];
      UpsertAllExistingUrls(rows, nextId, init, accepts, now);
      UpsertAllStoresEveryUrl(rows, nextId, init, accepts, now);
      var s := UpsertAll(rows, nextId, init, accepts, now);
      if s.complete && accepts(s.rows, item) {
        var i :| 0 <= i < |rows| && rows[i].url == item.url;
        assert s.rows[i].url == item.url;
        assert FirstWithUrl(s.rows, item.url).Some?;
      }
    }
  }

  /**
   * Scraping a last page whose articles are all stored already answers with
   * the count of every article, though no row is added: the route reports
   * articles seen, not articles created.
   */
  lemma ScrapeOfStoredArticlesAddsNoRow(rows: seq<Row>, nextId: nat, fetchIndex: string -> Option<ListingPage>,
                                        fetchLast: string -> Option<ListingPage>,
                                        accepts: (seq<Row>, ItemAttributes) -> bool, now: Timestamp)
    requires forall t, a :: accepts(t, a)
    requires var items := LastPageArticles(fetchIndex, fetchLast, now);
      items.Some? && forall k :: 0 <= k < |items.value| ==> exists i :: 0 <= i < |rows| && rows[i].url == items.value[k].url
    ensures var o := ScrapeOutcome(rows, nextId, fetchIndex, fetchLast, accepts, now);
      o.response == Scraped(|LastPageArticles(fetchIndex, fetchLast, now).value|) &&
      |o.rows| == |rows| && o.nextId == nextId
  {
    var items := LastPageArticles(fetchIndex, fetchLast, now).value;
    UpsertAllAccepted(rows, nextId, items, accepts, now);
    UpsertAllExistingUrls(rows, nextId, items, accepts, now);
  }

  /** `POST /api/scrape` on the Laravel API. */
  method ScrapeAndStore(table: ArticleTable, fetchIndex: string -> Option<ListingPage>,
                        fetchLast: string -> Option<ListingPage>,
                        accepts: (seq<Row>, ItemAttributes) -> bool, now: Timestamp)
    returns (response: ScrapeResponse)
    requires table.Valid()
    modifies table
    ensures table.Valid()
    ensures var o := ScrapeOutcome(old(table.rows), old(table.nextId), fetchIndex, fetchLast, accepts, now);
      response == o.response && table.rows == o.rows && table.nextId == o.nextId
  {
    var index := fetchIndex(BlogsUrl);
    if index.None? {
      return ServerError;
    }
    var lastPageUrl := LastPageUrl(index.value.paginationHrefs, BlogsUrl);
    if !Truthy(lastPageUrl) {
      return NotFound;
    }
    var page := fetchLast(lastPageUrl.value);
    if page.None? {
      return ServerError;
    }
    var articles := ExtractArticles(page.value, now);
    ScrapeOutcomeOfPage(old(table.rows), old(table.nextId), fetchIndex, fetchLast, accepts, now,
                        index.value, lastPageUrl, page.value);
    for i := 0 to |articles|
      invariant table.Valid()
      invariant var s := UpsertAll(old(table.rows), old(table.nextId), articles[..i], accepts, now);
        s.complete && table.rows == s.rows && table.nextId == s.nextId
    {
      UpsertAllStep(old(table.rows), old(table.nextId), articles, i, accepts, now);
      if !accepts(table.rows, articles[i]) {
        UpsertAllStopsAfterRefusal(old(table.rows), old(table.nextId), articles, i + 1, accepts, now);
        return ServerError;
      }
      table.UpdateOrCreate(articles[i], now);
    }
    assert articles[..|articles|] == articles;
    response := Scraped(|articles|);
  }

  /** Once both GETs have answered, the outcome is that of the harvest's writes. */
  lemma ScrapeOutcomeOfPage(rows: seq<Row>, nextId: nat, fetchIndex: string -> Option<ListingPage>,
                            fetchLast: string -> Option<ListingPage>,
                            accepts: (seq<Row>, ItemAttributes) -> bool, now: Timestamp,
                            index: ListingPage, last: Option<string>, page: ListingPage)
    requires fetchIndex(BlogsUrl) == Some(index) && last == LastPageUrl(index.paginationHrefs, BlogsUrl)
    requires Truthy(last) && fetchLast(last.value) == Some(page)
    ensures var items := Harvested(page, now);
      var s := UpsertAll(rows, nextId, items, accepts, now);
      ScrapeOutcome(rows, nextId, fetchIndex, fetchLast, accepts, now) ==
        Outcome(if s.complete then Scraped(|items|) else ServerError, s.rows, s.nextId)
  {
  }

  /** One more article written: refused, it ends the writes; accepted, it is upserted into the table so far. */
  lemma UpsertAllStep(rows: seq<Row>, nextId: nat, items: seq<ItemAttributes>, i: nat,
                      accepts: (seq<Row>, ItemAttributes) -> bool, now: Timestamp)
    requires i < |items|
    ensures var s := UpsertAll(rows, nextId, items[..i], accepts, now);
      var t := UpsertAll(rows, nextId, items[..i + 1], accepts, now);
      s.complete ==>
        (!accepts(s.rows, items[i]) ==> t == s.(complete := false)) &&
        (accepts(s.rows, items[i]) ==>
          var r := UpsertedRows(s.rows, s.nextId, items[i], now);
          t == Upserts(r, if |r| == |s.rows| then s.nextId else s.nextId + 1, true))
  {
    assert items[..i + 1][..i] == items[..i];
  }

  /** Once a write is refused, the later articles leave the outcome as it is. */
  lemma {:induction false} UpsertAllStopsAfterRefusal(rows: seq<Row>, nextId: nat, items: seq<ItemAttributes>, j: nat,
                                                       accepts: (seq<Row>, ItemAttributes) -> bool, now: Timestamp)
    requires j <= |items| && !UpsertAll(rows, nextId, items[..j], accepts, now).complete
    ensures UpsertAll(rows, nextId, items, accepts, now) == UpsertAll(rows, nextId, items[..j], accepts, now)
  {
    if j < |items| {
      var init := items[..|items| - 1];
      assert init[..j] == items[..j];
      UpsertAllStopsAfterRefusal(rows, nextId, init, j, accepts, now);
    } else {
      assert items[..j] == items;
    }
  }
}
