/**
 * The rewriting run: fetch the latest unprocessed article, search for its title,
 * scrape the hits, generate a rewrite from them and publish it. Every external
 * system is an oracle; the processor records each call it makes, so that what a
 * run may and may not do is a statement about that record.
 */
module Processor {
  import opened Options
  import opened Text
  import opened Records
  import opened Search
  import opened Extract
  import opened Publish
  import opened Rewrite

  /** One call to the outside world. */
  datatype Call =
    | FetchLatest
    | LaunchBrowser
    | OpenSearch(query: string)
    | CloseBrowser
    | FetchPage(url: string)
    | Complete(article: Row, refs: seq<RefDoc>)
    | PublishUpdate(id: nat, payload: Payload)

  /**
   * What the outside world answers: the latest-article endpoint (`None` for a
   * null body or a failed request), the result anchors of a search page (`None`
   * when loading or reading it raised), a fetched page (`None` on any error), the
   * completion service's answer to the prompt `Prompt(article, refs)` built from an
   * article and its references (`None` on error or missing text), and whether the
   * store accepted a publish.
   */
  datatype Oracles = Oracles(
    latest: Option<Row>,
    searchPage: string -> Option<seq<Anchor>>,
    fetchPage: string -> Option<Page>,
    complete: (Row, seq<RefDoc>) -> Option<string>,
    publishAccepted: (nat, Payload) -> bool)

  /** How a run ends: one of the four stages that found nothing, or the publish call and its answer. */
  datatype Outcome = NoArticle | NoSearchResults | NoReferences | GenerationFailed | Published | PublishFailed {

    /** The run stopped at a stage that found nothing, before publishing. */
    predicate Aborted() {
      !(Published? || PublishFailed?)
    }
  }

  datatype Run = Run(calls: seq<Call>, outcome: Outcome)

  /** The search step's calls: the browser is launched, the page is opened, and the browser is closed. */
  function SearchCalls(query: string): seq<Call> {
    [LaunchBrowser, OpenSearch(query), CloseBrowser]
  }

  /** One page fetch per search hit, in order. */
  function FetchCalls(results: seq<SearchHit>): (r: seq<Call>)
    ensures |r| == |results|
    ensures forall k :: 0 <= k < |r| ==> r[k] == FetchPage(results[k].url)
  {
    if results == [] then [] else FetchCalls(results[..|results| - 1]) + [FetchPage(results[|results| - 1].url)]
  }

  /** A scraped document counts as a reference when it exists and its content is not empty. */
  predicate Usable(doc: Option<RefDoc>) {
    doc.Some? && doc.value.content != ""
  }

  /** The usable documents of the hits, in hit order. */
  function References(results: seq<SearchHit>, fetch: string -> Option<Page>): seq<RefDoc> {
    if results == [] then []
    else
      var doc := Scrape(results[|results| - 1].url, fetch(results[|results| - 1].url));
      References(results[..|results| - 1], fetch) + if Usable(doc) then [doc.value] else []
  }

  /** The run `r`, preceded by the calls `calls`. */
  function After(calls: seq<Call>, r: Run): Run {
    Run(calls + r.calls, r.outcome)
  }

  /** What a complete run does and how it ends, given the oracles. */
  function RunOf(o: Oracles): Run {
    match o.latest
    case None => Run([FetchLatest], NoArticle)
    case Some(article) => After([FetchLatest], RunSearch(o, article))
  }

  /** The run from the search on, for the fetched article. */
  function RunSearch(o: Oracles, article: Row): Run {
    var results := SearchResults(o.searchPage(article.title));
    if results == [] then Run(SearchCalls(article.title), NoSearchResults)
    else After(SearchCalls(article.title) + FetchCalls(results), RunGenerate(o, article, References(results, o.fetchPage)))
  }

  /** The run after the scrape calls, which produced the references `refs`. */
  function RunGenerate(o: Oracles, article: Row, refs: seq<RefDoc>): Run {
    if refs == [] then Run([], NoReferences)
    else
      After([Complete(article, refs)], RunPublish(o, article, refs, Generated(o.complete(article, refs))))
  }

  /** The run after the completion call, which produced `generated`. */
  function RunPublish(o: Oracles, article: Row, refs: seq<RefDoc>, generated: Option<string>): Run {
    if generated.None? || generated.value == "" then Run([], GenerationFailed)
    else
      var payload := PublishPayload(ContentWithReferences(generated.value, refs), refs);
      Run([PublishUpdate(article.id, payload)],
          if o.publishAccepted(article.id, payload) then Published else PublishFailed)
  }

  /** References keep hit order: those of a concatenation are those of each part. */
  lemma {:induction false} ReferencesConcat(xs: seq<SearchHit>, ys: seq<SearchHit>, fetch: string -> Option<Page>)
    ensures References(xs + ys, fetch) == References(xs, fetch) + References(ys, fetch)
  {
    if ys == [] {
      assert xs + ys == xs;
    } else {
      var zs := xs + ys;
      assert zs[..|zs| - 1] == xs + ys[..|ys| - 1];
      ReferencesConcat(xs, ys[..|ys| - 1], fetch);
    }
  }

  /**
   * No more references than hits; each has non-empty content of at most 3000
   * characters and is the document scraped from one of the hits.
   */
  lemma {:induction false} ReferencesShape(results: seq<SearchHit>, fetch: string -> Option<Page>)
    ensures |References(results, fetch)| <= |results|
    ensures forall d :: d in References(results, fetch) ==>
      d.content != "" && |d.content| <= MaxContentLength &&
      exists h :: h in results && Scrape(h.url, fetch(h.url)) == Some(d)
  {
    if results != [] {
      var init := results[..|results| - 1];
      ReferencesShape(init, fetch);
      assert results == init + [results[|results| - 1]];
    }
  }

  /**
   * Nothing usable is dropped: the document of every hit whose scrape is usable
   * is among the references, so when every hit is usable there is one reference
   * per hit.
   */
  lemma {:induction false} ReferencesKeepsUsable(results: seq<SearchHit>, fetch: string -> Option<Page>)
    ensures forall k :: 0 <= k < |results| && Usable(Scrape(results[k].url, fetch(results[k].url))) ==>
      Scrape(results[k].url, fetch(results[k].url)).value in References(results, fetch)
    ensures (forall k :: 0 <= k < |results| ==> Usable(Scrape(results[k].url, fetch(results[k].url)))) ==>
      |References(results, fetch)| == |results|
  {
    if results != [] {
      var init := results[..|results| - 1];
      forall k | 0 <= k < |init|
        ensures init[k] == results[k]
      {
      }
      ReferencesKeepsUsable(init, fetch);
    }
  }

  /** No article: the run stops after the first call. */
  lemma RunWithoutArticle(o: Oracles)
    requires o.latest.None?
    ensures RunOf(o) == Run([FetchLatest], NoArticle)
  {
  }

  /** No call of `calls` is a publish. */
  predicate NoPublish(calls: seq<Call>) {
    forall k :: 0 <= k < |calls| ==> !calls[k].PublishUpdate?
  }

  /** A call that only the search step makes. */
  predicate BrowserCall(c: Call) {
    c.LaunchBrowser? || c.OpenSearch? || c.CloseBrowser?
  }

  /** No call of `calls` touches the browser. */
  predicate NoBrowser(calls: seq<Call>) {
    forall k :: 0 <= k < |calls| ==> !BrowserCall(calls[k])
  }

  lemma NoPublishConcat(xs: seq<Call>, ys: seq<Call>)
    requires NoPublish(xs) && NoPublish(ys)
    ensures NoPublish(xs + ys)
  {
    forall k | 0 <= k < |xs + ys| ensures !(xs + ys)[k].PublishUpdate? {
      if k >= |xs| {
        assert (xs + ys)[k] == ys[k - |xs|];
      }
    }
  }

  lemma NoBrowserConcat(xs: seq<Call>, ys: seq<Call>)
    requires NoBrowser(xs) && NoBrowser(ys)
    ensures NoBrowser(xs + ys)
  {
    forall k | 0 <= k < |xs + ys| ensures !BrowserCall((xs + ys)[k]) {
      if k >= |xs| {
        assert (xs + ys)[k] == ys[k - |xs|];
      }
    }
  }

  /** The page fetches neither publish nor touch the browser. */
  lemma FetchCallsShape(results: seq<SearchHit>)
    ensures NoPublish(FetchCalls(results)) && NoBrowser(FetchCalls(results))
  {
  }

  /** From the completion on, a run calls the completion service and the store, never the browser. */
  lemma GenerateCallsShape(o: Oracles, article: Row, refs: seq<RefDoc>)
    ensures NoBrowser(RunGenerate(o, article, refs).calls)
    ensures RunGenerate(o, article, refs).outcome.Aborted() ==> NoPublish(RunGenerate(o, article, refs).calls)
  {
    if refs != [] {
      var last := RunPublish(o, article, refs, Generated(o.complete(article, refs)));
      assert NoBrowser(last.calls);
      assert last.outcome.Aborted() ==> last.calls == [];
      NoBrowserConcat([Complete(article, refs)], last.calls);
      if last.outcome.Aborted() {
        assert RunGenerate(o, article, refs).calls == [Complete(article, refs)];
      }
    }
  }

  /** The calls from the search on: the three search calls first, no browser call after them, and no publish when the run stops early. */
  lemma SearchCallsShape(o: Oracles, article: Row)
    ensures var calls := RunSearch(o, article).calls;
      |calls| >= 3 && calls[..3] == SearchCalls(article.title) && NoBrowser(calls[3..]) &&
      (RunSearch(o, article).outcome.Aborted() ==> NoPublish(calls))
  {
    var results := SearchResults(o.searchPage(article.title));
    if results != [] {
      var refs := References(results, o.fetchPage);
      var rest := RunGenerate(o, article, refs);
      assert RunSearch(o, article) == After(SearchCalls(article.title) + FetchCalls(results), rest);
      FetchCallsShape(results);
      GenerateCallsShape(o, article, refs);
      StageCallsShape(article.title, FetchCalls(results), rest);
    }
  }

  /** The three search calls followed by fetches and the later stages `rest`. */
  lemma StageCallsShape(query: string, fetches: seq<Call>, rest: Run)
    requires NoPublish(fetches) && NoBrowser(fetches) && NoBrowser(rest.calls)
    requires rest.outcome.Aborted() ==> NoPublish(rest.calls)
    ensures var calls := After(SearchCalls(query) + fetches, rest).calls;
      |calls| >= 3 && calls[..3] == SearchCalls(query) && NoBrowser(calls[3..]) &&
      (rest.outcome.Aborted() ==> NoPublish(calls))
  {
    var calls := After(SearchCalls(query) + fetches, rest).calls;
    assert calls == SearchCalls(query) + (fetches + rest.calls);
    NoBrowserConcat(fetches, rest.calls);
    assert calls[3..] == fetches + rest.calls;
    if rest.outcome.Aborted() {
      NoPublishConcat(fetches, rest.calls);
      NoPublishConcat(SearchCalls(query), fetches + rest.calls);
    }
  }

  /** A run that stops at any of the four empty stages makes no publish call. */
  lemma RunAbortsWithoutPublishing(o: Oracles)
    requires RunOf(o).outcome.Aborted()
    ensures NoPublish(RunOf(o).calls)
  {
    if o.latest.Some? {
      SearchCallsShape(o, o.latest.value);
      NoPublishConcat([FetchLatest], RunSearch(o, o.latest.value).calls);
    }
  }

  /** Why a run stops early, stage by stage. */
  lemma RunAbortCauses(o: Oracles)
    ensures RunOf(o).outcome == NoArticle <==> o.latest.None?
    ensures RunOf(o).outcome == NoSearchResults <==>
      o.latest.Some? && SearchResults(o.searchPage(o.latest.value.title)) == []
    ensures RunOf(o).outcome == NoReferences <==>
      o.latest.Some? && SearchResults(o.searchPage(o.latest.value.title)) != [] &&
      References(SearchResults(o.searchPage(o.latest.value.title)), o.fetchPage) == []
  {
  }

  /** The calls of a run that publishes, as the stages make them. */
  lemma PublishingCallsShape(query: string, fetches: seq<Call>, request: Call, publish: Call)
    requires NoPublish(fetches) && !request.PublishUpdate? && publish.PublishUpdate?
    ensures var calls := [FetchLatest] + (SearchCalls(query) + fetches + ([request] + [publish]));
      calls[|calls| - 1] == publish && NoPublish(calls[..|calls| - 1])
  {
    var calls := [FetchLatest] + (SearchCalls(query) + fetches + ([request] + [publish]));
    var before := [FetchLatest] + SearchCalls(query) + fetches + [request];
    assert calls == before + [publish];
    assert calls[..|calls| - 1] == before;
    NoPublishConcat(SearchCalls(query), fetches);
    NoPublishConcat([FetchLatest], SearchCalls(query) + fetches);
    NoPublishConcat([FetchLatest] + SearchCalls(query) + fetches, [request]);
  }

  /** A run that reaches the last stage: an article, hits, references, usable text, and the calls of every stage. */
  lemma RunPublishingCalls(o: Oracles)
    requires !RunOf(o).outcome.Aborted()
    ensures o.latest.Some?
    ensures var article := o.latest.value;
      var results := SearchResults(o.searchPage(article.title));
      var refs := References(results, o.fetchPage);
      var generated := Generated(o.complete(article, refs));
      results != [] && 0 < |refs| <= MaxResults && generated.Some? && generated.value != "" &&
      RunOf(o).calls == [FetchLatest] + (SearchCalls(article.title) + FetchCalls(results) +
        ([Complete(article, refs)] + [PublishUpdate(article.id, PublishPayload(ContentWithReferences(generated.value, refs), refs))]))
  {
    assert o.latest.Some? by { RunAbortCauses(o); }
    var article := o.latest.value;
    var results := SearchResults(o.searchPage(article.title));
    var refs := References(results, o.fetchPage);
    assert results != [] && 0 < |refs| <= MaxResults by {
      RunAbortCauses(o);
      SearchResultsShape(o.searchPage(article.title));
      ReferencesShape(results, o.fetchPage);
    }
    var generated := Generated(o.complete(article, refs));
    RunStages(o);
    var last := RunPublish(o, article, refs, generated);
    assert !last.outcome.Aborted();
  }

  /**
   * A run that reaches the last stage makes exactly one publish call, as its last
   * call, after one or two usable references and a usable generated text.
   */
  lemma RunPublishesOnce(o: Oracles)
    requires !RunOf(o).outcome.Aborted()
    ensures var calls := RunOf(o).calls;
      calls != [] && calls[|calls| - 1].PublishUpdate? && NoPublish(calls[..|calls| - 1]) &&
      var article := o.latest.value;
      var refs := References(SearchResults(o.searchPage(article.title)), o.fetchPage);
      var generated := Generated(o.complete(article, refs));
      0 < |refs| <= MaxResults && generated.Some? && generated.value != ""
  {
    RunPublishingCalls(o);
    var article := o.latest.value;
    var results := SearchResults(o.searchPage(article.title));
    var refs := References(results, o.fetchPage);
    var generated := Generated(o.complete(article, refs));
    var publish := PublishUpdate(article.id, PublishPayload(ContentWithReferences(generated.value, refs), refs));
    FetchCallsShape(results);
    PublishingCallsShape(article.title, FetchCalls(results), Complete(article, refs), publish);
  }

  /**
   * The one publish call sends the generated text followed by its numbered
   * reference list, the updated flag, and the references' links in scrape order.
   */
  lemma RunPublishedPayload(o: Oracles)
    requires !RunOf(o).outcome.Aborted()
    ensures var calls := RunOf(o).calls;
      var article := o.latest.value;
      var refs := References(SearchResults(o.searchPage(article.title)), o.fetchPage);
      var generated := Generated(o.complete(article, refs));
      calls != [] && generated.Some? &&
      calls[|calls| - 1] == PublishUpdate(article.id, Payload(generated.value + ReferencesSection(refs), true, Links(refs)))
  {
    RunPublishingCalls(o);
    var article := o.latest.value;
    var results := SearchResults(o.searchPage(article.title));
    var refs := References(results, o.fetchPage);
    var generated := Generated(o.complete(article, refs));
    var payload := PublishPayload(ContentWithReferences(generated.value, refs), refs);
    assert payload == Payload(generated.value + ReferencesSection(refs), true, Links(refs));
    LastOfCalls([FetchLatest] + (SearchCalls(article.title) + FetchCalls(results) + [Complete(article, refs)]),
      PublishUpdate(article.id, payload));
    assert [FetchLatest] + (SearchCalls(article.title) + FetchCalls(results) + ([Complete(article, refs)] + [PublishUpdate(article.id, payload)]))
      == ([FetchLatest] + (SearchCalls(article.title) + FetchCalls(results) + [Complete(article, refs)])) + [PublishUpdate(article.id, payload)];
  }

  /** The last call of calls that end with `c` is `c`. */
  lemma LastOfCalls(before: seq<Call>, c: Call)
    ensures var calls := before + [c]; calls != [] && calls[|calls| - 1] == c
  {
  }

  /** The fetch call followed by calls that start with the search calls and touch the browser no more. */
  lemma FetchThenSearchShape(query: string, rest: seq<Call>)
    requires |rest| >= 3 && rest[..3] == SearchCalls(query) && NoBrowser(rest[3..])
    ensures var calls := [FetchLatest] + rest;
      |calls| >= 4 && calls[..4] == [FetchLatest] + SearchCalls(query) && NoBrowser(calls[4..])
  {
    var calls := [FetchLatest] + rest;
    assert calls[4..] == rest[3..];
    assert calls[..4] == [FetchLatest] + rest[..3];
  }

  /** After the fetch, a run that found an article makes the three search calls and then no browser call. */
  lemma RunCallShape(o: Oracles)
    requires o.latest.Some?
    ensures var calls := RunOf(o).calls;
      |calls| >= 4 && calls[..4] == [FetchLatest] + SearchCalls(o.latest.value.title) && NoBrowser(calls[4..])
  {
    var rest := RunSearch(o, o.latest.value).calls;
    assert RunOf(o).calls == [FetchLatest] + rest;
    SearchCallsShape(o, o.latest.value);
    FetchThenSearchShape(o.latest.value.title, rest);
  }

  /** In a call sequence of that shape, the browser is launched once and closed two calls later. */
  lemma LaunchIsClosed(query: string, calls: seq<Call>)
    requires |calls| >= 4 && calls[..4] == [FetchLatest] + SearchCalls(query) && NoBrowser(calls[4..])
    ensures forall k :: 0 <= k < |calls| && calls[k] == LaunchBrowser ==>
      k + 2 < |calls| && calls[k + 1].OpenSearch? && calls[k + 2] == CloseBrowser
  {
    assert calls[1] == LaunchBrowser && calls[2].OpenSearch? && calls[3] == CloseBrowser by {
      assert calls[..4][1] == calls[1] && calls[..4][2] == calls[2] && calls[..4][3] == calls[3];
    }
    assert calls[0] == FetchLatest by { assert calls[..4][0] == calls[0]; }
    forall k | 4 <= k < |calls| ensures calls[k] != LaunchBrowser {
      assert calls[k] == calls[4..][k - 4];
    }
  }

  /** Whenever the browser is launched, it is closed two calls later, after the search page. */
  lemma RunReleasesBrowser(o: Oracles)
    ensures var calls := RunOf(o).calls;
      forall k :: 0 <= k < |calls| && calls[k] == LaunchBrowser ==>
        k + 2 < |calls| && calls[k + 1].OpenSearch? && calls[k + 2] == CloseBrowser
  {
    if o.latest.Some? {
      RunCallShape(o);
      LaunchIsClosed(o.latest.value.title, RunOf(o).calls);
    }
  }

  /** The rewriting job, holding the oracles it calls and the record of its calls. */
  class ArticleProcessor {
    const oracles: Oracles
    var trace: seq<Call>

    constructor (oracles: Oracles)
      ensures this.oracles == oracles && trace == []
    {
      this.oracles := oracles;
      trace := [];
    }

    /** `GET /articles/latest`. */
    method FetchLatestArticle() returns (article: Option<Row>)
      modifies this
      ensures trace == old(trace) + [FetchLatest]
      ensures article == oracles.latest
    {
      trace := trace + [FetchLatest];
      article := oracles.latest;
    }

    /** Launches the browser, reads the search page, and closes the browser on the normal and the failing path alike. */
    method SearchGoogle(query: string) returns (results: seq<SearchHit>)
      modifies this
      ensures trace == old(trace) + SearchCalls(query)
      ensures results == SearchResults(oracles.searchPage(query))
    {
      trace := trace + [LaunchBrowser];
      trace := trace + [OpenSearch(query)];
      var page := oracles.searchPage(query);
      match page
      case None =>
        trace := trace + [CloseBrowser];
        results := [];
      case Some(elements) =>
        var links := EvaluateLinks(elements);
        trace := trace + [CloseBrowser];
        results := Take(links, MaxResults);
    }

    /** Fetches one url and extracts its document, or `None` on any error. */
    method ScrapeArticleContent(url: string) returns (doc: Option<RefDoc>)
      modifies this
      ensures trace == old(trace) + [FetchPage(url)]
      ensures doc == Scrape(url, oracles.fetchPage(url))
    {
      trace := trace + [FetchPage(url)];
      var fetched := oracles.fetchPage(url);
      match fetched
      case None =>
        doc := None;
      case Some(page) =>
        var content := ExtractContent(page);
        doc := Some(RefDoc(PageTitle(page), content, url));
    }

    /** Asks for the rewrite; `None` when the completion failed. */
    method GenerateUpdatedArticle(article: Row, refs: seq<RefDoc>) returns (text: Option<string>)
      modifies this
      ensures trace == old(trace) + [Complete(article, refs)]
      ensures text == Generated(oracles.complete(article, refs))
    {
      trace := trace + [Complete(article, refs)];
      text := Generated(oracles.complete(article, refs));
    }

    /** `PUT /articles/:id` with the rewritten content, the updated flag and the reference links. */
    method PublishUpdatedArticle(id: nat, content: string, refs: seq<RefDoc>) returns (accepted: bool)
      modifies this
      ensures trace == old(trace) + [PublishUpdate(id, PublishPayload(content, refs))]
      ensures accepted == oracles.publishAccepted(id, PublishPayload(content, refs))
    {
      var payload := PublishPayload(content, refs);
      trace := trace + [PublishUpdate(id, payload)];
      accepted := oracles.publishAccepted(id, payload);
    }

    /** Step 3 of a run: scrapes every hit in order and keeps the usable documents. */
    method ScrapeReferences(searchResults: seq<SearchHit>) returns (referenceArticles: seq<RefDoc>)
      modifies this
      ensures trace == old(trace) + FetchCalls(searchResults)
      ensures referenceArticles == References(searchResults, oracles.fetchPage)
    {
      referenceArticles := [];
      for i := 0 to |searchResults|
        invariant trace == old(trace) + FetchCalls(searchResults[..i])
        invariant referenceArticles == References(searchResults[..i], oracles.fetchPage)
      {
        ScrapeStep(searchResults, i, oracles.fetchPage);
        var scraped := ScrapeArticleContent(searchResults[i].url);
        if scraped.Some? && scraped.value.content != "" {
          referenceArticles := referenceArticles + [scraped.value];
        }
      }
      assert searchResults[..|searchResults|] == searchResults;
    }

    /** One run: each stage that yields nothing ends it before any later call. */
    method ProcessArticle() returns (outcome: Outcome)
      modifies this
      ensures trace == old(trace) + RunOf(oracles).calls
      ensures outcome == RunOf(oracles).outcome
    {
      var article := FetchLatestArticle();
      if article.None? {
        return NoArticle;
      }
      var searchResults := SearchGoogle(article.value.title);
      if |searchResults| == 0 {
        RunEndsAtSearch(oracles, old(trace), trace);
        return NoSearchResults;
      }
      var referenceArticles := ScrapeReferences(searchResults);
      if |referenceArticles| == 0 {
        RunEndsAtScrape(oracles, old(trace), trace);
        return NoReferences;
      }
      var updatedContent := GenerateUpdatedArticle(article.value, referenceArticles);
      if updatedContent.None? || updatedContent.value == "" {
        RunEndsAtGeneration(oracles, old(trace), trace);
        return GenerationFailed;
      }
      var contentWithReferences := ContentWithReferences(updatedContent.value, referenceArticles);
      var published := PublishUpdatedArticle(article.value.id, contentWithReferences, referenceArticles);
      RunEndsAtPublish(oracles, old(trace), trace);
      outcome := if published then Published else PublishFailed;
    }
  }

  /** The run stops after a search that found nothing. */
  lemma RunEndsAtSearch(o: Oracles, t0: seq<Call>, t: seq<Call>)
    requires o.latest.Some? && SearchResults(o.searchPage(o.latest.value.title)) == []
    requires t == t0 + [FetchLatest] + SearchCalls(o.latest.value.title)
    ensures t == t0 + RunOf(o).calls && RunOf(o).outcome == NoSearchResults
  {
  }

  /** The run stops after scraping hits none of which gave a usable document. */
  lemma RunEndsAtScrape(o: Oracles, t0: seq<Call>, t: seq<Call>)
    requires o.latest.Some?
    requires var results := SearchResults(o.searchPage(o.latest.value.title));
      results != [] && References(results, o.fetchPage) == [] &&
      t == t0 + [FetchLatest] + SearchCalls(o.latest.value.title) + FetchCalls(results)
    ensures t == t0 + RunOf(o).calls && RunOf(o).outcome == NoReferences
  {
    var article := o.latest.value;
    var results := SearchResults(o.searchPage(article.title));
    assert RunOf(o).calls == [FetchLatest] + (SearchCalls(article.title) + FetchCalls(results) + []);
  }

  /** The run stops after a completion that gave no text. */
  lemma RunEndsAtGeneration(o: Oracles, t0: seq<Call>, t: seq<Call>)
    requires o.latest.Some?
    requires var article := o.latest.value;
      var results := SearchResults(o.searchPage(article.title));
      var refs := References(results, o.fetchPage);
      var generated := Generated(o.complete(article, refs));
      results != [] && refs != [] && (generated.None? || generated.value == "") &&
      t == t0 + [FetchLatest] + SearchCalls(article.title) + FetchCalls(results) + [Complete(article, refs)]
    ensures t == t0 + RunOf(o).calls && RunOf(o).outcome == GenerationFailed
  {
    var article := o.latest.value;
    var results := SearchResults(o.searchPage(article.title));
    var refs := References(results, o.fetchPage);
    assert RunOf(o).calls == [FetchLatest] + (SearchCalls(article.title) + FetchCalls(results) + ([Complete(article, refs)] + []));
  }

  /** The run ends with the publish call. */
  lemma RunEndsAtPublish(o: Oracles, t0: seq<Call>, t: seq<Call>)
    requires o.latest.Some?
    requires var article := o.latest.value;
      var results := SearchResults(o.searchPage(article.title));
      var refs := References(results, o.fetchPage);
      var generated := Generated(o.complete(article, refs));
      results != [] && refs != [] && generated.Some? && generated.value != "" &&
      t == t0 + [FetchLatest] + SearchCalls(article.title) + FetchCalls(results) + [Complete(article, refs)]
        + [PublishUpdate(article.id, PublishPayload(ContentWithReferences(generated.value, refs), refs))]
    ensures t == t0 + RunOf(o).calls
    ensures RunOf(o).outcome ==
      var article := o.latest.value;
      var refs := References(SearchResults(o.searchPage(article.title)), o.fetchPage);
      var payload := PublishPayload(ContentWithReferences(Generated(o.complete(article, refs)).value, refs), refs);
      if o.publishAccepted(article.id, payload) then Published else PublishFailed
  {
    var article := o.latest.value;
    var results := SearchResults(o.searchPage(article.title));
    var refs := References(results, o.fetchPage);
    var generated := Generated(o.complete(article, refs));
    var payload := PublishPayload(ContentWithReferences(generated.value, refs), refs);
    var last := RunPublish(o, article, refs, generated);
    assert last.calls == [PublishUpdate(article.id, payload)] &&
      last.outcome == if o.publishAccepted(article.id, payload) then Published else PublishFailed;
    RunStages(o);
    CallsRegroup(t0, [FetchLatest], SearchCalls(article.title), FetchCalls(results), [Complete(article, refs)], last.calls);
  }

  /** Regrouping the calls of the stages. */
  lemma CallsRegroup(t0: seq<Call>, a: seq<Call>, b: seq<Call>, c: seq<Call>, d: seq<Call>, e: seq<Call>)
    ensures t0 + a + b + c + d + e == t0 + (a + (b + c + (d + e)))
  {
  }

  /** A run that gets past the scrape is its calls up to the completion followed by the publish stage. */
  lemma RunStages(o: Oracles)
    requires o.latest.Some?
    requires var results := SearchResults(o.searchPage(o.latest.value.title));
      results != [] && References(results, o.fetchPage) != []
    ensures var article := o.latest.value;
      var results := SearchResults(o.searchPage(article.title));
      var refs := References(results, o.fetchPage);
      var last := RunPublish(o, article, refs, Generated(o.complete(article, refs)));
      RunOf(o) == Run([FetchLatest] + (SearchCalls(article.title) + FetchCalls(results) + ([Complete(article, refs)] + last.calls)), last.outcome)
  {
    var article := o.latest.value;
    var results := SearchResults(o.searchPage(article.title));
    var refs := References(results, o.fetchPage);
    var search := RunSearch(o, article);
    var generate := RunGenerate(o, article, refs);
    assert RunOf(o) == After([FetchLatest], search);
    assert search == After(SearchCalls(article.title) + FetchCalls(results), generate);
  }

  /** One more hit scraped: one more fetch call, and its document when it is usable. */
  lemma ScrapeStep(results: seq<SearchHit>, i: nat, fetch: string -> Option<Page>)
    requires i < |results|
    ensures FetchCalls(results[..i + 1]) == FetchCalls(results[..i]) + [FetchPage(results[i].url)]
    ensures var doc := Scrape(results[i].url, fetch(results[i].url));
      References(results[..i + 1], fetch) == References(results[..i], fetch) + if Usable(doc) then [doc.value] else []
  {
    assert results[..i + 1][..i] == results[..i];
  }
}
