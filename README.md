# BeyondChats article pipeline, modelled in Dafny

The system keeps a table of blog articles and rewrites them with help from the web.

- **Article processor** (`nodejs-script/index.js`). It takes the latest article not yet updated and searches the web for its title. It keeps the first two admissible hits and scrapes each one into a reference document. It asks a completion service for a rewrite, appends a numbered "## References" list, and publishes the result with `is_updated` set.
- **Node store API** (`nodejs-api/server.js`). `POST /api/scrape` harvests up to five articles from the blog listing, selector by selector. It prefixes the site origin to every link that does not start with `http`, stores two sample articles when nothing is harvested, and inserts each article on its own, counting the successes. `GET /api/articles/latest` returns the newest unprocessed row. `PUT /api/articles/:id` overwrites content, flag and references.
- **Laravel store API** (`ArticleController.php`). Its harvest follows the last pagination link of the blog index and reads up to five articles off that page. It trims texts with PHP's `trim`, skips falsy ones, and writes each article with `updateOrCreate` keyed by `url`. `getLatest` is the same "latest unprocessed" query.
- **React list** (`react-frontend/src/App.js`). It shows each article's content cut to a 300-character preview. It chooses the card class and badge from `is_updated`, and shows the source link and the references list only when they exist.

Modules:

- `Options`, `Text` and `Records`: the shared vocabulary.
  - JavaScript's and PHP's `trim` are kept apart.
  - `Take` stands for `substring(0, n)`, `slice` and `array_slice`.
  - `Contains` stands for `includes`.
  - `NatToString` renders a number as decimal digits.
- `Search`, `Extract`, `Rewrite`, `Publish` and `Processor`: the processor.
  - Each external system is an oracle.
  - The class `ArticleProcessor` records every call it makes in `trace`.
  - `RunOf` is the specification of a whole run: its calls and how it ends.
- `Table`: the `articles` table. The class `ArticleTable` holds the rows and the next id. The pure row functions specify its methods.
- `Listing`: the selector walk the two harvesters share.
- `NodeApi` and `LaravelApi`: the two scrape routes.
- `Display`: what the list shows.

## Model

| member | source | states |
|---|---|---|
| Search.EvaluateLinks | nodejs-script/index.js:32-48 | the in-page scan returns the hits of the admissible anchors among the first five, in page order |
| Search.Admitted | nodejs-script/index.js:36-45 | no more hits than anchors, and every hit's url is non-empty and mentions neither google.com nor youtube.com |
| Search.AdmittedMembers | nodejs-script/index.js:36-45 | a hit is collected exactly when it comes from an anchor whose target is non-empty and mentions neither google.com nor youtube.com; never more hits than anchors |
| Search.AdmittedConcat | nodejs-script/index.js:36-45 | filtering is per anchor: the hits of a concatenation are the hits of each part, in order |
| Search.SearchResults | nodejs-script/index.js:24-57 | a search whose page could not be loaded or read returns no hits |
| Search.SearchResultsShape | nodejs-script/index.js:36-51 | at most two hits, the first ones among those admitted from the first five anchors; every url is non-empty and free of both excluded domains |
| Search.FilterBeforeCut | nodejs-script/index.js:41-51 | excluded anchors never take one of the two places: the count is min(admitted, 2) |
| Search.VideoHitExcluded | nodejs-script/index.js:41-51 | with a video link first, the second and third anchors are the two hits returned |
| Text.ContainsIff | nodejs-script/index.js:41 | `includes` holds exactly when some suffix of the string starts with the pattern |
| Processor.ArticleProcessor.SearchGoogle | nodejs-script/index.js:24-57 | launches the browser, opens the search and closes the browser on the normal and the failing path alike; returns `SearchResults` of the page |
| Extract.ScanStopsAtFirstLong | nodejs-script/index.js:82-89 | the selector scan ends with the first present selector whose trimmed text is longer than 200 characters |
| Extract.ScanKeepsLastPresent | nodejs-script/index.js:82-89 | without such a text, each shorter text is overwritten by the next present selector's, so the last present one is kept |
| Extract.ScanResultOrigin | nodejs-script/index.js:82-89 | the scan gives the content it started with or the trimmed text of one of the present selectors, never anything else |
| Extract.ScanNonePresent | nodejs-script/index.js:82-89 | when no selector is present, the content stays as it was |
| Extract.WithFallback | nodejs-script/index.js:91-94 | a scanned text of at least 200 characters is kept; an empty or shorter one is replaced by the joined, trimmed paragraph texts |
| Extract.DocumentContent | nodejs-script/index.js:98 | the content is a prefix of the chosen text, exactly 3000 characters long when the text is longer and the whole text when it fits |
| Extract.PageTitle | nodejs-script/index.js:97 | the `<title>` text when it is non-empty, otherwise the first `<h1>` text |
| Extract.ExtractContent | nodejs-script/index.js:82-98 | the selector loop with its early stop, the paragraph fallback and the cut compute `DocumentContent` |
| Extract.Scrape | nodejs-script/index.js:59-105 | a failed fetch gives `null`; otherwise a document from the fetched url with content of at most 3000 characters |
| Extract.ScrapeUsesFirstLongSelector | nodejs-script/index.js:73-98 | the first selector in priority order with a long text supplies the document, cut to 3000 characters |
| Extract.ScrapeKeepsExactThreshold | nodejs-script/index.js:83-94 | a text of exactly 200 characters passes neither the early stop nor the fallback test, so it is kept when it is the last present selector's |
| Extract.ScrapeFallsBackToParagraphs | nodejs-script/index.js:91-94 | when every present selector's text is shorter than 200 characters, the paragraph text is used, even when it is shorter still |
| Processor.ArticleProcessor.ScrapeArticleContent | nodejs-script/index.js:59-105 | records one page fetch and returns `Scrape` of the fetched page |
| Rewrite.Prompt | nodejs-script/index.js:108-130 | the prompt starts with the fixed introduction and the article's title |
| Rewrite.ReferenceEntriesFrom | nodejs-script/index.js:116-121 | one block per reference, in order, the i-th numbered from the first number plus i |
| Rewrite.PromptNumbersReferences | nodejs-script/index.js:108-130 | reference i appears in the prompt as "Reference i+1" with its title, content and url, and the number reads back as i+1 |
| Rewrite.Generated | nodejs-script/index.js:140-143 | a failed completion gives `null`; otherwise the completion's text, trimmed |
| Rewrite.GeneratedUsable | nodejs-script/index.js:204-208 | the run goes on exactly when the completion holds a character that is not whitespace |
| Processor.ArticleProcessor.GenerateUpdatedArticle | nodejs-script/index.js:107-145 | records one completion call for the article and its references and returns `Generated` of the answer |
| Publish.Links | nodejs-script/index.js:152-155 | one `{title, url}` pair per reference, in the same order |
| Publish.PublishPayload | nodejs-script/index.js:149-156 | the body carries the given content, `is_updated` true, and each reference's title and url at its position |
| Publish.ReferenceLinesFrom | nodejs-script/index.js:214 | one line per reference, the i-th being `first+i. [title](url)` |
| Publish.ContentWithReferences | nodejs-script/index.js:211-214 | the published content is the generated text followed by the references section |
| Publish.ReferenceListLines | nodejs-script/index.js:211-214 | when no title or url holds a line break, the list splits into exactly one line per reference, line i being `i+1. [title](url)` |
| Publish.ReferenceNumbering | nodejs-script/index.js:214 | each line starts with its number, which reads back as its position plus one, followed by `. [` |
| Text.JoinContainsPiece | nodejs-script/index.js:121 | every piece occurs in the joined string |
| Text.NatToStringRoundTrip | nodejs-script/index.js:214 | the rendered number reads back as the number and has no leading zero |
| Processor.ArticleProcessor.PublishUpdatedArticle | nodejs-script/index.js:147-164 | records one publish call with `PublishPayload` and returns whether the store accepted it |
| Processor.ArticleProcessor.FetchLatestArticle | nodejs-script/index.js:14-22 | records one fetch and returns the latest article, or none |
| Processor.FetchCalls | nodejs-script/index.js:189-190 | one page fetch per hit, the k-th for the k-th hit's url |
| Processor.ReferencesShape | nodejs-script/index.js:188-194 | no more references than hits; each has non-empty content of at most 3000 characters and was scraped from one of the hits |
| Processor.ReferencesKeepsUsable | nodejs-script/index.js:188-194 | every hit whose scrape is usable has its document among the references; when every hit is usable there is one reference per hit |
| Processor.ReferencesConcat | nodejs-script/index.js:188-194 | references keep hit order: those of a concatenation are those of each part |
| Processor.ArticleProcessor.ScrapeReferences | nodejs-script/index.js:188-194 | scrapes every hit in order, recording one fetch each, and keeps exactly the usable documents |
| Processor.ArticleProcessor.constructor | nodejs-script/index.js:228 | a new processor holds the given services and has made no call |
| Processor.ArticleProcessor.ProcessArticle | nodejs-script/index.js:166-224 | the calls a run makes and how it ends are exactly those of `RunOf` for the services' answers |
| Processor.RunWithoutArticle | nodejs-script/index.js:170-174 | without an article, the run stops after its first call |
| Processor.RunAbortCauses | nodejs-script/index.js:170-199 | the run stops with no article, no hits or no references exactly when that stage found nothing |
| Processor.RunAbortsWithoutPublishing | nodejs-script/index.js:166-208 | a run that stops at any of the four empty stages makes no publish call |
| Processor.RunPublishingCalls | nodejs-script/index.js:166-216 | a run that reaches the last stage had hits, one or two references and usable text, and its calls are fetch, search, one fetch per hit, completion, publish |
| Processor.RunPublishesOnce | nodejs-script/index.js:204-216 | such a run publishes exactly once, as its last call |
| Processor.RunPublishedPayload | nodejs-script/index.js:211-216 | the publish sends the generated text plus its numbered reference list, `is_updated` true, and the references' links in scrape order, for the fetched article's id |
| Processor.RunReleasesBrowser | nodejs-script/index.js:25-56 | whenever the browser is launched, it is closed two calls later, after the search page |
| Processor.RunCallShape | nodejs-script/index.js:170-179 | a run that found an article fetches it, makes the three search calls, and never touches the browser again |
| Processor.RunEndsAtSearch | nodejs-script/index.js:179-183 | the early return after an empty search leaves exactly the calls and outcome of `RunOf` |
| Processor.RunEndsAtScrape | nodejs-script/index.js:188-199 | the early return after an empty scrape leaves exactly the calls and outcome of `RunOf` |
| Processor.RunEndsAtGeneration | nodejs-script/index.js:204-208 | the early return after an empty completion leaves exactly the calls and outcome of `RunOf` |
| Processor.RunEndsAtPublish | nodejs-script/index.js:211-223 | after the publish call, the calls are those of `RunOf`, which ends published exactly when the store accepted the payload |
| Text.Trim | nodejs-api/server.js:124-125 | the result has no trimmed character at either end, and is empty exactly when every character is trimmed |
| Text.TrimKeepsWindow | nodejs-api/server.js:124-125 | the result is one contiguous window of the input, and every character outside it, before or after, is a trimmed one |
| NodeApi.NormalizeUrl | nodejs-api/server.js:126-132 | a missing or empty link gives `null`; a link starting with `http` is kept; any other gets the site origin prefixed |
| NodeApi.NormalizeUrlIdempotent | nodejs-api/server.js:132 | normalising a normalised link changes nothing |
| NodeApi.ItemOf | nodejs-api/server.js:124-137 | an element yields an article exactly when its trimmed title and content are non-empty; the article has the trimmed title, the first 500 characters of the trimmed content, the normalised link, the time now, `is_updated` false and no references |
| NodeApi.HarvestedShape | nodejs-api/server.js:115-141 | at most five articles, the first ones in selector-then-document order, each well formed and yielded by an element one of the selectors matches |
| NodeApi.HarvestIsComplete | nodejs-api/server.js:120-137 | every matched element with non-empty trimmed title and content contributes its article before the cut to five |
| NodeApi.HarvestKeepsDuplicates | nodejs-api/server.js:118-141 | an element matched by two selectors yields its article twice: the harvest does not de-duplicate |
| NodeApi.CollectArticles | nodejs-api/server.js:121-138 | the callback walk over one selector's elements, stopping at five, extends the first five collected articles by that selector's articles |
| NodeApi.HarvestArticles | nodejs-api/server.js:115-141 | the loop over the selectors, breaking at five, computes `Harvested` |
| NodeApi.Harvested | nodejs-api/server.js:115-141 | the harvest never holds more than five articles |
| NodeApi.Samples | nodejs-api/server.js:146-164 | two sample articles with different links, each well formed like a harvested one, with a link and the time now |
| NodeApi.ToStore | nodejs-api/server.js:145-165 | a non-empty harvest is stored as it is; an empty one is replaced by exactly the two sample articles |
| NodeApi.InsertAll | nodejs-api/server.js:169-181 | rows are only appended; the appended rows carry consecutive ids from the next id on and the time now, and the next id moves past them |
| NodeApi.InsertAllCounts | nodejs-api/server.js:167-181 | the count is the number of successful inserts: one new row each, appended after the old rows; all articles when every insert succeeds |
| NodeApi.InsertAllConcat | nodejs-api/server.js:169-181 | a failure does not end the loop: inserting two lists is inserting the first and then the second into the table that leaves, with the counts added |
| NodeApi.InsertAllSkipsRefused | nodejs-api/server.js:169-181 | a refused insert is skipped: the result is that of the same list without it |
| NodeApi.InsertEach | nodejs-api/server.js:169-181 | each article is inserted on its own, a failed insert is skipped, and the count and table are those of `InsertAll` |
| NodeApi.ScrapeRoute | nodejs-api/server.js:103-190 | a page that cannot be loaded answers 500 with the table unchanged; otherwise the harvest, or the samples, are inserted and the response counts the successes |
| Table.ArticleTable.Insert | nodejs-api/server.js:173-176 | appends one row with the article's attributes under a fresh id, keeping ids distinct |
| Table.LatestUnprocessed | nodejs-api/server.js:38-40 | no row exactly when every row is updated; otherwise a row not updated whose `created_at` is the greatest among those not updated (the same query as `getLatest` in the Laravel controller) |
| Table.FlagOrTrue | nodejs-api/server.js:81 | `is_updated || true` is always true, whatever flag was sent |
| Table.NodeUpdatedRows | nodejs-api/server.js:77-82 | the row with the id gets the new content, `is_updated` true whatever was sent, and the sent references or an empty list; every other row is unchanged |
| Table.NodeUpdateIdempotent | nodejs-api/server.js:79-82 | sending the same update twice stores the same table as sending it once |
| Table.LatestSkipsUpdated | nodejs-api/server.js:79-82 | after an update, the "latest unprocessed" query never returns that article again |
| Table.ArticleTable.Update | nodejs-api/server.js:75-88 | the table becomes `NodeUpdatedRows` of the old one, ids kept |
| LaravelApi.ExtractText | laravel-api/app/Http/Controllers/ArticleController.php:169-173 | `null` exactly when nothing matched; otherwise exactly PHP's `trim` of the matched text |
| LaravelApi.ExtractTextTrimmed | laravel-api/app/Http/Controllers/ArticleController.php:172 | the extracted text is no longer than the matched text, has no character PHP's `trim` strips at either end, and trimming it again changes nothing |
| LaravelApi.JoinUrl | laravel-api/app/Http/Controllers/ArticleController.php:119 | the base without its trailing slashes, one slash, and the path without its leading slashes |
| LaravelApi.LastPageUrl | laravel-api/app/Http/Controllers/ArticleController.php:109-125 | no pagination link gives the base; a truthy relative last `href` is joined to the base; any other last `href` is returned as it is |
| LaravelApi.LastPageUrlUsesLastLink | laravel-api/app/Http/Controllers/ArticleController.php:114-116 | links before the last one change nothing |
| LaravelApi.LastPageUrlFalsy | laravel-api/app/Http/Controllers/ArticleController.php:109-125 | the result is falsy exactly when there are links and the last one's `href` is falsy |
| LaravelApi.ItemOf | laravel-api/app/Http/Controllers/ArticleController.php:145-159 | a node yields an article exactly when both extracted texts are truthy; the article keeps the trimmed title and whole trimmed content, the link as it is, the time now and `is_updated` false |
| LaravelApi.ZeroTextSkipped | laravel-api/app/Http/Controllers/ArticleController.php:151 | a title or content of `"0"` is falsy, so the node is skipped |
| LaravelApi.Harvested | laravel-api/app/Http/Controllers/ArticleController.php:127-167 | the harvest never holds more than five articles |
| LaravelApi.HarvestedShape | laravel-api/app/Http/Controllers/ArticleController.php:127-167 | at most five articles, the first ones in selector-then-document order, each with non-empty title and content and yielded by a node one of the selectors matches |
| LaravelApi.HarvestIsComplete | laravel-api/app/Http/Controllers/ArticleController.php:144-160 | every matched node whose two extracted texts are truthy contributes its article before the cut to five |
| LaravelApi.EachNode | laravel-api/app/Http/Controllers/ArticleController.php:144-160 | the `each` callback skips every node once five are collected, and otherwise adds the node's article, extending the first five collected |
| LaravelApi.ExtractArticles | laravel-api/app/Http/Controllers/ArticleController.php:127-167 | the selector loop, breaking at five, and the final slice compute `Harvested` |
| LaravelApi.UpsertAll | laravel-api/app/Http/Controllers/ArticleController.php:83-99 | the writes never lose a row and add at most one per article, and the next id moves on by one per added row |
| LaravelApi.UpsertAllStoresEveryUrl | laravel-api/app/Http/Controllers/ArticleController.php:83-88 | the writes never lose a row or change a row's `url`, add at most one row per article, and when all go through, every article's `url` has a row |
| LaravelApi.UpsertAllExistingUrls | laravel-api/app/Http/Controllers/ArticleController.php:83-88 | when every article's `url` already has a row, the writes only overwrite: no row is added and no id is used |
| LaravelApi.UpsertAllAccepted | laravel-api/app/Http/Controllers/ArticleController.php:83-88 | when the store takes every write, all of them go through |
| LaravelApi.UpsertAllStep | laravel-api/app/Http/Controllers/ArticleController.php:83-99 | one more article: a refused write ends the writes with the table as it was; an accepted one is upserted into the table so far |
| LaravelApi.UpsertAllStopsAfterRefusal | laravel-api/app/Http/Controllers/ArticleController.php:83-99 | after the first refused write, no later article is written |
| LaravelApi.ScrapeOutcome | laravel-api/app/Http/Controllers/ArticleController.php:63-101 | whatever the answer, no row is lost, at most five are added, and the next id moves on by one per added row |
| LaravelApi.LastPageArticles | laravel-api/app/Http/Controllers/ArticleController.php:66-80 | the articles of the last listing page, when both requests answered and the last link is truthy: at most five |
| LaravelApi.ScrapeOutcomeResponses | laravel-api/app/Http/Controllers/ArticleController.php:63-101 | 404 exactly when the index has pagination links and the last `href` is falsy, with the table unchanged; a success reports the number of articles harvested from the last page, every write having gone through, and leaves the table their writes give |
| LaravelApi.ScrapeOfStoredArticlesAddsNoRow | laravel-api/app/Http/Controllers/ArticleController.php:83-93 | when every harvested article is already stored, the route still reports all of them while adding no row: the count is of articles seen, not created |
| LaravelApi.ScrapeOutcomeOfPage | laravel-api/app/Http/Controllers/ArticleController.php:63-101 | once both requests have answered, the outcome is that of the harvest's writes |
| LaravelApi.ScrapeAndStore | laravel-api/app/Http/Controllers/ArticleController.php:63-101 | the route's answer and table are those of `ScrapeOutcome`; a failed request or write answers 500 and keeps the writes made before it |
| Table.FirstWithUrl | laravel-api/app/Http/Controllers/ArticleController.php:84-85 | the first row whose `url` equals the key, a `null` key matching `null` urls; none exactly when no row has it |
| Table.UpsertedRows | laravel-api/app/Http/Controllers/ArticleController.php:84-87 | one `updateOrCreate` adds at most one row, keeps every existing row's id and `url` at its position, and a new row gets the next id |
| Table.UpsertOverwritesSameUrl | laravel-api/app/Http/Controllers/ArticleController.php:84-87 | the first row with the same `url` is overwritten in place, keeping its id, `created_at` and references; no other row changes |
| Table.UpsertCreatesNewUrl | laravel-api/app/Http/Controllers/ArticleController.php:84-87 | an unknown `url` appends exactly one new row, without references |
| Table.UpsertStoresItem | laravel-api/app/Http/Controllers/ArticleController.php:84-87 | afterwards some row has the item's `url`, title, content and flag, and no row was lost |
| Table.UpsertIdempotent | laravel-api/app/Http/Controllers/ArticleController.php:84-87 | repeating the same write changes nothing more |
| Table.ArticleTable.UpdateOrCreate | laravel-api/app/Http/Controllers/ArticleController.php:84-87 | the table becomes `UpsertedRows` of the old one; the next id advances only when a row was created |
| Display.TruncateContent | react-frontend/src/App.js:37-40 | content that fits is shown whole; longer content is cut to `maxLength` characters followed by `...` |
| Display.TruncateUnchangedIff | react-frontend/src/App.js:37-40 | the preview equals the content exactly when it fits, or is three characters too long and already ends with `...` |
| Display.StatusClass | react-frontend/src/App.js:80 | the class is `updated` or `original` |
| Display.BadgeLabel | react-frontend/src/App.js:86 | the label is `Updated` or `Original` |
| Display.CardClass | react-frontend/src/App.js:80 | the card's class is `article-card updated` or `article-card original` |
| Display.StatusIff | react-frontend/src/App.js:80-86 | the class, badge and card say updated exactly for updated articles, original exactly for the others |
| Display.HarvestedRowShowsSource | react-frontend/src/App.js:95 | a row the Node harvest stored shows its source link exactly when the element had a non-empty link |
| Display.UpdatedRowDisplay | react-frontend/src/App.js:103 | after the update route, the row shows as updated, and its references list appears exactly when the request sent a non-empty one |

## Left out

- Browsers, HTTP clients, the database driver and the completion service are not modelled as code. Their answers are inputs:
  - the search page's anchors;
  - a fetched page after the unwanted elements are removed;
  - the completion's text;
  - whether the store accepts a publish, insert or write.
- HTML parsing and CSS selector matching are left out. A page is given as the texts or elements each selector matches.
- DomCrawler's whitespace normalisation in `text()` is left out. The Laravel texts are taken as given and then trimmed.
- `URLSearchParams` decoding of the `q` parameter and `encodeURIComponent` of the query are left out. An anchor holds its decoded target; the search oracle is keyed by the raw title.
- Rewrite.Prompt: the completion oracle is keyed by the article and its references, not by the prompt string. Two runs with the same inputs build the same prompt, so this loses nothing, but no proof reads the prompt back from the call.
- Processor.ArticleProcessor.FetchLatestArticle: the oracle answers a row or nothing. A body that is an empty JSON object, which a framework can send for a null result, is not modelled.
- Processor.ArticleProcessor.SearchGoogle: a failure to launch the browser or open a tab, which happens outside the `try`, is not modelled. Neither is the browser left open by it, nor the uncaught error that ends the run.
- Processor.References: the page oracle answers by url, so two hits with the same url get the same page. A site that answers a repeated request differently is not modelled.
- Model name, token limit and temperature of the completion request are left out.
- NodeApi.ScrapeRoute: a database connection failure after the harvest (a 500) is not modelled. Only the page load can fail. The browser-close call is not traced.
- NodeApi.InsertAllCounts: a failed insert consumes no id. MySQL can burn an auto-increment value on a failed insert.
- Table.LatestUnprocessed: among rows with equal `created_at`, the first in table order is returned. The SQL leaves that choice to the database, so the contract only promises a maximal row.
- Table.NodeUpdatedRows: `content` is taken as sent. A body without `content`, which the driver would reject, is not modelled. Neither is an id that is not a number.
- `updated_at` and other timestamps kept by the framework are left out. Clocks are a parameter `now`; `created_at` is the time passed to an insert.
- The other CRUD routes of both APIs are left out: listing, show, create, the Laravel update, and delete. So are `formatDate`, loading and error states of the list, `laravel-api/simple-server.php` and the configuration. `laravel-api/app/Models/Article.php` appears only as the shape of a row.
- Concurrency between requests and the asynchronous scheduling of the JavaScript code are left out. Every route runs alone.
- JavaScript strings are UTF-16 code units and PHP strings are bytes. Here both are sequences of Unicode scalar values, so lengths and cuts of text outside the Basic Multilingual Plane or of multi-byte UTF-8 may differ.
- Logging to the console is left out.
