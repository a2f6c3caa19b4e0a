/**
 * The Node store API's `/api/scrape` route: the blog listing is harvested
 * selector by selector until five articles are collected, the site origin is
 * prefixed to every link that does not start with `http`, two fixed sample
 * articles stand in when nothing is harvested, and each article is inserted on
 * its own, a failed insert being skipped.
 */
module NodeApi {
  import opened Options
  import opened Text
  import opened Records
  import opened Listing
  import opened Table

  /**
   * One element matched by an article selector, as the route reads it: the text
   * of its first `h1, h2, h3, .title` descendant and of its first `.content, p`
   * descendant (empty when there is none), and the `href` of its first link
   * (`None` when it has no link or the link no `href`).
   */
  datatype BlogElement = BlogElement(titleText: string, contentText: string, href: Option<string>)

  /** A listing page: for each selector it matches, its elements in document order. */
  type BlogPage = map<string, seq<BlogElement>>

  /** The origin prefixed to relative links. */
  const SiteOrigin: string := "https://beyondchats.com"

  /** How much of an element's content text is stored. */
  const MaxStoredContent: nat := 500

  /** `url ? (url.startsWith('http') ? url : origin + url) : null`: an empty `href` is falsy too. */
  function NormalizeUrl(href: Option<string>): (r: Option<string>)
    ensures r.None? <==> href.None? || href.value == ""
    ensures r.Some? ==> "http" <= r.value
    ensures r.Some? && "http" <= href.value ==> r.value == href.value
    ensures r.Some? && !("http" <= href.value) ==> r.value == SiteOrigin + href.value
  {
    match href
    case None => None
    case Some(url) =>
      if url == "" then None
      else if "http" <= url then Some(url)
      else Some(SiteOrigin + url)
  }

  /** Normalising a normalised link changes nothing more. */
  lemma NormalizeUrlIdempotent(href: Option<string>)
    ensures NormalizeUrl(NormalizeUrl(href)) == NormalizeUrl(href)
  {
  }

  /**
   * The article an element yields: only when its trimmed title and content are
   * both non-empty; it keeps the trimmed title, the first 500 characters of the
   * trimmed content and the normalised link, is stamped `now`, is not updated
   * and has no references.
   */
  function ItemOf(e: BlogElement, now: Timestamp): (r: Option<NewArticle>)
    ensures r.Some? <==> JsTrim(e.titleText) != "" && JsTrim(e.contentText) != ""
    ensures r.Some? ==> r.value.title == JsTrim(e.titleText) && r.value.content <= JsTrim(e.contentText)
    ensures r.Some? ==> |r.value.content| == if |JsTrim(e.contentText)| < MaxStoredContent then |JsTrim(e.contentText)| else MaxStoredContent
    ensures r.Some? ==> r.value.url == NormalizeUrl(e.href) && r.value.publishedAt == now
    ensures r.Some? ==> !r.value.isUpdated && r.value.references == []
  {
    var title := JsTrim(e.titleText);
    var content := JsTrim(e.contentText);
    if title != "" && content != "" then
      Some(NewArticle(title, Take(content, MaxStoredContent), NormalizeUrl(e.href), now, false, []))
    else None
  }

  /** What each of a selector's elements yields, in document order. */
  function ElementYields(elements: seq<BlogElement>, now: Timestamp): (r: seq<Option<NewArticle>>)
    ensures |r| == |elements|
  {
    seq(|elements|, m requires 0 <= m < |elements| => ItemOf(elements[m], now))
  }

  /** What every element of every selector in `sels` yields: selector order first, then document order. */
  function PageYields(page: BlogPage, sels: seq<string>, now: Timestamp): (r: seq<seq<Option<NewArticle>>>)
    ensures |r| == |sels|
  {
    seq(|sels|, k requires 0 <= k < |sels| => ElementYields(Matches(page, sels[k]), now))
  }

  /** What the harvest collects: the first five articles in selector order, then document order. */
  function Harvested(page: BlogPage, now: Timestamp): (r: seq<NewArticle>)
    ensures |r| <= MaxArticles
  {
    Take(Collected(PageYields(page, ArticleSelectors, now)), MaxArticles)
  }

  /** What every harvested article satisfies. */
  predicate WellFormed(a: NewArticle) {
    a.title != "" && a.content != "" && |a.content| <= MaxStoredContent && !a.isUpdated && a.references == []
  }

  /**
   * At most five articles, the first ones in selector-then-document order, each
   * well formed and yielded by an element that one of the article selectors matches.
   */
  lemma HarvestedShape(page: BlogPage, now: Timestamp)
    ensures |Harvested(page, now)| <= MaxArticles
    ensures Harvested(page, now) <= Collected(PageYields(page, ArticleSelectors, now))
    ensures forall a :: a in Harvested(page, now) ==>
      WellFormed(a) && exists k, e :: 0 <= k < |ArticleSelectors| && e in Matches(page, ArticleSelectors[k]) && ItemOf(e, now) == Some(a)
  {
    var gs := PageYields(page, ArticleSelectors, now);
    CollectedMembers(gs);
    forall a | a in Harvested(page, now)
      ensures WellFormed(a) && exists k, e :: 0 <= k < |ArticleSelectors| && e in Matches(page, ArticleSelectors[k]) && ItemOf(e, now) == Some(a)
    {
      assert a in Collected(gs);
      var k :| 0 <= k < |gs| && Some(a) in gs[k];
      var elements := Matches(page, ArticleSelectors[k]);
      var m :| 0 <= m < |gs[k]| && gs[k][m] == Some(a);
      var e := elements[m];
      assert e in elements && ItemOf(e, now) == Some(a);
    }
  }

  /** Every element with a non-empty trimmed title and content contributes its article before the cut to five. */
  lemma HarvestIsComplete(page: BlogPage, sels: seq<string>, k: nat, e: BlogElement, now: Timestamp)
    requires k < |sels| && e in Matches(page, sels[k]) && JsTrim(e.titleText) != "" && JsTrim(e.contentText) != ""
    ensures ItemOf(e, now).Some? && ItemOf(e, now).value in Collected(PageYields(page, sels, now))
  {
    var gs := PageYields(page, sels, now);
    var elements := Matches(page, sels[k]);
    var m :| 0 <= m < |elements| && elements[m] == e;
    var a := ItemOf(e, now).value;
    assert gs[k][m] == Some(a);
    CollectedHas(gs, k, a);
  }

  /**
   * No de-duplication: an element matched by two different selectors yields its
   * article twice among the articles the selectors give.
   */
  lemma HarvestKeepsDuplicates(page: BlogPage, sels: seq<string>, i: nat, j: nat, e: BlogElement, now: Timestamp)
    requires i < j < |sels| && e in Matches(page, sels[i]) && e in Matches(page, sels[j]) && ItemOf(e, now).Some?
    ensures multiset(Collected(PageYields(page, sels, now)))[ItemOf(e, now).value] >= 2
  {
    var gs := PageYields(page, sels, now);
    var mi :| 0 <= mi < |Matches(page, sels[i])| && Matches(page, sels[i])[mi] == e;
    var mj :| 0 <= mj < |Matches(page, sels[j])| && Matches(page, sels[j])[mj] == e;
    assert gs[i][mi] == ItemOf(e, now) && gs[j][mj] == ItemOf(e, now);
    CollectedKeepsDuplicates(gs, i, j, ItemOf(e, now).value);
  }

  /**
   * The callback run on each element one selector matches: once five articles
   * are collected it stops the walk, otherwise an element with a non-empty
   * trimmed title and content adds its article.
   */
  method CollectArticles(articles0: seq<NewArticle>, ghost done: seq<NewArticle>, elements: seq<BlogElement>, now: Timestamp)
    returns (articles: seq<NewArticle>)
    requires articles0 == Take(done, MaxArticles)
    ensures articles == Take(done + Somes(ElementYields(elements, now)), MaxArticles)
  {
    ghost var ys := ElementYields(elements, now);
    articles := articles0;
    var j := 0;
    assert ys[..0] == [] && done + [] == done;
    while j < |elements|
      invariant 0 <= j <= |elements|
      invariant articles == Take(done + Somes(ys[..j]), MaxArticles)
    {
      if |articles| >= MaxArticles {
        WalkSaturated(done, ys, j, MaxArticles);
        return;
      }
      var title := JsTrim(elements[j].titleText);
      var content := JsTrim(elements[j].contentText);
      var url := elements[j].href;
      WalkStep(done, ys, j, MaxArticles);
      assert ys[j] == ItemOf(elements[j], now);
      if title != "" && content != "" {
        articles := articles + [NewArticle(title, Take(content, MaxStoredContent), NormalizeUrl(url), now, false, [])];
      }
      j := j + 1;
    }
    assert ys[..j] == ys;
  }

  /** The in-page harvest: selectors in priority order, elements in document order, stopping at five. */
  method HarvestArticles(page: BlogPage, now: Timestamp) returns (articles: seq<NewArticle>)
    ensures articles == Harvested(page, now)
  {
    var sels := ArticleSelectors;
    ghost var gs := PageYields(page, sels, now);
    articles := [];
    var i := 0;
    assert gs[..0] == [];
    while i < |sels|
      invariant 0 <= i <= |sels|
      invariant articles == Take(Collected(gs[..i]), MaxArticles)
    {
      articles := CollectArticles(articles, Collected(gs[..i]), Matches(page, sels[i]), now);
      CollectedStep(gs, i);
      if |articles| >= MaxArticles {
        CollectedSaturated(gs, i, MaxArticles);
        return;
      }
      i := i + 1;
    }
    assert gs[..i] == gs;
  }

  /** The two articles stored when the harvest finds nothing. */
  function Samples(now: Timestamp): (r: seq<NewArticle>)
    ensures |r| == 2 && r[0].url != r[1].url
    ensures forall k :: 0 <= k < |r| ==> WellFormed(r[k]) && r[k].url.Some? && r[k].publishedAt == now
  {
    [ NewArticle("Getting Started with BeyondChats",
        "Learn how to use BeyondChats platform "
        + "for better customer engagement "
        + "and support.",
        Some("https://beyondchats.com/blog/getting-started"), now, false, []),
      NewArticle("Advanced Chat Features",
        "Explore advanced features of BeyondChats "
        + "including automation "
        + "and analytics.",
        Some("https://beyondchats.com/blog/advanced-features"), now, false, []) ]
  }

  /** The articles to store: the harvest, or exactly the two samples when it is empty. */
  function ToStore(harvested: seq<NewArticle>, now: Timestamp): (r: seq<NewArticle>)
    ensures harvested != [] ==> r == harvested
    ensures harvested == [] ==> |r| == 2 && r == Samples(now)
    ensures 0 < |r| <= if |harvested| < 2 then 2 else |harvested|
  {
    if harvested == [] then Samples(now) else harvested
  }

  /** The table after inserting `items` in order, and how many inserts succeeded; `accepts` says whether the store takes an insert. */
  datatype Stored = Stored(rows: seq<Row>, nextId: nat, count: nat)

  function InsertAll(rows: seq<Row>, nextId: nat, items: seq<NewArticle>, accepts: (seq<Row>, NewArticle) -> bool, now: Timestamp): (r: Stored)
    ensures |rows| <= |r.rows| && r.nextId == nextId + (|r.rows| - |rows|)
    ensures forall k :: |rows| <= k < |r.rows| ==> r.rows[k].id == nextId + (k - |rows|) && r.rows[k].createdAt == now
    decreases |items|
  {
    if items == [] then Stored(rows, nextId, 0)
    else
      var s := InsertAll(rows, nextId, items[..|items| - 1], accepts, now);
      var item := items[|items| - 1];
      if accepts(s.rows, item) then Stored(s.rows + [InsertedRow(item, s.nextId, now)], s.nextId + 1, s.count + 1)
      else s
  }

  /**
   * The count is the number of successful inserts: one new row each, appended
   * after the old rows, at most one per article, and one per article when the
   * store accepts every insert.
   */
  lemma {:induction false} InsertAllCounts(rows: seq<Row>, nextId: nat, items: seq<NewArticle>, accepts: (seq<Row>, NewArticle) -> bool, now: Timestamp)
    ensures var s := InsertAll(rows, nextId, items, accepts, now);
      s.count <= |items| && |s.rows| == |rows| + s.count && rows <= s.rows && s.nextId == nextId + s.count &&
      ((forall r, a :: accepts(r, a)) ==> s.count == |items|)
  {
    if items != [] {
      InsertAllCounts(rows, nextId, items[..|items| - 1], accepts, now);
    }
  }

  /**
   * A failed insert does not end the loop: inserting `xs + ys` is inserting `xs`,
   * then inserting `ys` into the table that leaves, and the counts add up.
   */
  lemma {:induction false} InsertAllConcat(rows: seq<Row>, nextId: nat, xs: seq<NewArticle>, ys: seq<NewArticle>,
                                           accepts: (seq<Row>, NewArticle) -> bool, now: Timestamp)
    ensures var s := InsertAll(rows, nextId, xs, accepts, now);
      var t := InsertAll(s.rows, s.nextId, ys, accepts, now);
      InsertAll(rows, nextId, xs + ys, accepts, now) == Stored(t.rows, t.nextId, s.count + t.count)
  {
    if ys == [] {
      assert xs + ys == xs;
    } else {
      var zs := xs + ys;
      assert zs[..|zs| - 1] == xs + ys[..|ys| - 1];
      assert zs[|zs| - 1] == ys[|ys| - 1];
      InsertAllConcat(rows, nextId, xs, ys[..|ys| - 1], accepts, now);
    }
  }

  /** A refused insert is skipped: the articles after it are still inserted, as if it had not been there. */
  lemma InsertAllSkipsRefused(rows: seq<Row>, nextId: nat, xs: seq<NewArticle>, a: NewArticle, ys: seq<NewArticle>,
                              accepts: (seq<Row>, NewArticle) -> bool, now: Timestamp)
    requires !accepts(InsertAll(rows, nextId, xs, accepts, now).rows, a)
    ensures InsertAll(rows, nextId, xs + [a] + ys, accepts, now) == InsertAll(rows, nextId, xs + ys, accepts, now)
  {
    InsertAllConcat(rows, nextId, xs + [a], ys, accepts, now);
    InsertAllConcat(rows, nextId, xs, ys, accepts, now);
    assert (xs + [a])[..|xs + [a]| - 1] == xs;
  }

  /** The insert loop: each article inserted on its own, a failed insert skipped, successes counted. */
  method InsertEach(table: ArticleTable, articles: seq<NewArticle>, now: Timestamp, accepts: (seq<Row>, NewArticle) -> bool)
    returns (count: nat)
    requires table.Valid()
    modifies table
    ensures table.Valid()
    ensures var s := InsertAll(old(table.rows), old(table.nextId), articles, accepts, now);
      count == s.count && table.rows == s.rows && table.nextId == s.nextId
  {
    count := 0;
    for i := 0 to |articles|
      invariant table.Valid()
      invariant var s := InsertAll(old(table.rows), old(table.nextId), articles[..i], accepts, now);
        count == s.count && table.rows == s.rows && table.nextId == s.nextId
    {
      assert articles[..i + 1][..i] == articles[..i];
      if accepts(table.rows, articles[i]) {
        var id := table.Insert(articles[i], now);
        count := count + 1;
      }
    }
    assert articles[..|articles|] == articles;
  }

  /** The route's answer: the number of articles inserted, or a server error. */
  datatype ScrapeResponse = Scraped(count: nat) | ServerError

  /**
   * `POST /api/scrape`. `page` is the listing page, or `None` when the browser
   * failed to load it; `accepts` says whether an insert goes through.
   */
  method ScrapeRoute(table: ArticleTable, page: Option<BlogPage>, now: Timestamp, accepts: (seq<Row>, NewArticle) -> bool)
    returns (response: ScrapeResponse)
    requires table.Valid()
    modifies table
    ensures table.Valid()
    ensures page.None? ==> response == ServerError && table.rows == old(table.rows) && table.nextId == old(table.nextId)
    ensures page.Some? ==>
      var s := InsertAll(old(table.rows), old(table.nextId), ToStore(Harvested(page.value, now), now), accepts, now);
      response == Scraped(s.count) && table.rows == s.rows && table.nextId == s.nextId
  {
    if page.None? {
      return ServerError;
    }
    var articles := HarvestArticles(page.value, now);
    if |articles| == 0 {
      articles := articles + Samples(now);
    }
    assert articles == ToStore(Harvested(page.value, now), now);
    var count := InsertEach(table, articles, now, accepts);
    response := Scraped(count);
  }
}
