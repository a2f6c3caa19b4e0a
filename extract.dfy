/**
 * Turning one fetched page into a reference document: the content selectors are
 * tried in priority order, the scan stops at the first present one whose trimmed
 * text is longer than 200 characters, a shorter result is replaced by the
 * paragraph texts, the text is cut to 3000 characters, and the title falls back
 * from `<title>` to the first `<h1>`.
 */
module Extract {
  import opened Options
  import opened Text

  /**
   * A page after scripts, styles, navigation, headers, footers, asides and
   * advertisement blocks are removed: for each selector that matches, the text of
   * its matches; the text of each `<p>` in document order; the text of `<title>`
   * and of the first `<h1>` (empty when there is none).
   */
  datatype Page = Page(selected: map<string, string>, paragraphs: seq<string>, titleText: string, firstH1Text: string)

  /** A reference document: the page's title, its bounded content and the url it was fetched from. */
  datatype RefDoc = RefDoc(title: string, content: string, url: string)

  const ContentSelectors: seq<string> := ["article", ".post-content", ".entry-content", ".content", "main", ".article-body"]
  const MinContentLength: nat := 200
  const MaxContentLength: nat := 3000

  /** The trimmed text of a selector's matches. */
  function SelectorText(sel: map<string, string>, selector: string): string
    requires selector in sel
  {
    JsTrim(sel[selector])
  }

  /** The selector scan over `sels`, with `content` holding what the previous present selector gave. */
  function ScanFrom(sel: map<string, string>, sels: seq<string>, content: string): string {
    if sels == [] then content
    else if sels[0] !in sel then ScanFrom(sel, sels[1..], content)
    else
      var text := SelectorText(sel, sels[0]);
      if |text| > MinContentLength then text else ScanFrom(sel, sels[1..], text)
  }

  /** The scan stops at the first present selector whose text is longer than the threshold. */
  lemma {:induction false} ScanStopsAtFirstLong(sel: map<string, string>, sels: seq<string>, content: string, i: nat)
    requires i < |sels| && sels[i] in sel && |SelectorText(sel, sels[i])| > MinContentLength
    requires forall j :: 0 <= j < i && sels[j] in sel ==> |SelectorText(sel, sels[j])| <= MinContentLength
    ensures ScanFrom(sel, sels, content) == SelectorText(sel, sels[i])
  {
    if i > 0 {
      var rest := sels[1..];
      var next := if sels[0] in sel then SelectorText(sel, sels[0]) else content;
      assert ScanFrom(sel, sels, content) == ScanFrom(sel, rest, next) by {
        if sels[0] in sel {
          assert |SelectorText(sel, sels[0])| <= MinContentLength;
        }
      }
      assert rest[i - 1] == sels[i];
      forall j | 0 <= j < i - 1 && rest[j] in sel
        ensures |SelectorText(sel, rest[j])| <= MinContentLength
      {
        assert rest[j] == sels[j + 1];
      }
      ScanStopsAtFirstLong(sel, rest, next, i - 1);
    }
  }

  /** Without a long text, the last present selector's text wins: each shorter text is overwritten by a later present one. */
  lemma {:induction false} ScanKeepsLastPresent(sel: map<string, string>, sels: seq<string>, content: string, i: nat)
    requires i < |sels| && sels[i] in sel
    requires forall j :: 0 <= j < |sels| && sels[j] in sel ==> |SelectorText(sel, sels[j])| <= MinContentLength
    requires forall j :: i < j < |sels| ==> sels[j] !in sel
    ensures ScanFrom(sel, sels, content) == SelectorText(sel, sels[i])
  {
    var rest := sels[1..];
    var next := if sels[0] in sel then SelectorText(sel, sels[0]) else content;
    assert ScanFrom(sel, sels, content) == ScanFrom(sel, rest, next) by {
      if sels[0] in sel {
        assert |SelectorText(sel, sels[0])| <= MinContentLength;
      }
    }
    forall j | 0 <= j < |rest| && rest[j] in sel
      ensures |SelectorText(sel, rest[j])| <= MinContentLength
    {
      assert rest[j] == sels[j + 1];
    }
    if i > 0 {
      assert rest[i - 1] == sels[i];
      forall j | i - 1 < j < |rest|
        ensures rest[j] !in sel
      {
        assert rest[j] == sels[j + 1];
      }
      ScanKeepsLastPresent(sel, rest, next, i - 1);
    } else {
      forall j | 0 <= j < |rest|
        ensures rest[j] !in sel
      {
        assert rest[j] == sels[j + 1];
      }
      ScanNonePresent(sel, rest, next);
    }
  }

  /** The scan never makes text up: it gives the content it started with or the text of a present selector. */
  lemma {:induction false} ScanResultOrigin(sel: map<string, string>, sels: seq<string>, content: string)
    ensures var r := ScanFrom(sel, sels, content);
      r == content || exists i :: 0 <= i < |sels| && sels[i] in sel && r == SelectorText(sel, sels[i])
  {
    if sels != [] {
      var rest := sels[1..];
      var next := if sels[0] in sel then SelectorText(sel, sels[0]) else content;
      var r := ScanFrom(sel, sels, content);
      if sels[0] in sel && |SelectorText(sel, sels[0])| > MinContentLength {
        assert r == SelectorText(sel, sels[0]);
      } else {
        assert r == ScanFrom(sel, rest, next);
        ScanResultOrigin(sel, rest, next);
        if r != next {
          var i :| 0 <= i < |rest| && rest[i] in sel && r == SelectorText(sel, rest[i]);
          assert sels[i + 1] == rest[i];
        }
      }
    }
  }

  /** When no selector is present the scan leaves the content as it was. */
  lemma {:induction false} ScanNonePresent(sel: map<string, string>, sels: seq<string>, content: string)
    requires forall j :: 0 <= j < |sels| ==> sels[j] !in sel
    ensures ScanFrom(sel, sels, content) == content
  {
    if sels != [] {
      ScanNonePresent(sel, sels[1..], content);
    }
  }

  /** The texts of all paragraphs, one per line, trimmed. */
  function ParagraphText(page: Page): string {
    JsTrim(Join(page.paragraphs, "\n"))
  }

  /** The scanned text, unless it is empty or shorter than the threshold; then the paragraph text, whatever its length. */
  function WithFallback(page: Page, scanned: string): (r: string)
    ensures |scanned| >= MinContentLength ==> r == scanned
    ensures |scanned| < MinContentLength ==> r == ParagraphText(page)
  {
    if scanned == "" || |scanned| < MinContentLength then ParagraphText(page) else scanned
  }

  /** The text chosen for a page, before the cut. */
  function ChosenText(page: Page): string {
    WithFallback(page, ScanFrom(page.selected, ContentSelectors, ""))
  }

  /** The content of a reference document: the chosen text cut to at most 3000 characters. */
  function DocumentContent(page: Page): (r: string)
    ensures |r| <= MaxContentLength && r <= ChosenText(page)
    ensures |r| == if |ChosenText(page)| <= MaxContentLength then |ChosenText(page)| else MaxContentLength
    ensures |ChosenText(page)| <= MaxContentLength ==> r == ChosenText(page)
  {
    Take(ChosenText(page), MaxContentLength)
  }

  /** `$('title').text() || $('h1').first().text() || ''`. */
  function PageTitle(page: Page): (r: string)
    ensures page.titleText != "" ==> r == page.titleText
    ensures page.titleText == "" ==> r == page.firstH1Text
  {
    if page.titleText != "" then page.titleText
    else if page.firstH1Text != "" then page.firstH1Text
    else ""
  }

  /** The selector loop, the paragraph fallback and the cut, as the scraper runs them on one page. */
  method ExtractContent(page: Page) returns (content: string)
    ensures content == DocumentContent(page)
  {
    content := "";
    var n := |ContentSelectors|;
    var i := 0;
    while i < n
      invariant 0 <= i <= n
      invariant ScanFrom(page.selected, ContentSelectors[i..], content) == ScanFrom(page.selected, ContentSelectors, "")
    {
      var selector := ContentSelectors[i];
      assert ContentSelectors[i..][1..] == ContentSelectors[i + 1..];
      if selector in page.selected {
        content := JsTrim(page.selected[selector]);
        if |content| > MinContentLength {
          break;
        }
      }
      i := i + 1;
    }
    if content == "" || |content| < MinContentLength {
      content := JsTrim(Join(page.paragraphs, "\n"));
    }
    content := Take(content, MaxContentLength);
  }

  /** What scraping a url gives: `None` when the fetch or parse failed, otherwise its document. */
  function Scrape(url: string, fetched: Option<Page>): (r: Option<RefDoc>)
    ensures fetched.None? <==> r.None?
    ensures r.Some? ==> r.value.url == url && |r.value.content| <= MaxContentLength
  {
    match fetched
    case None => None
    case Some(page) => Some(RefDoc(PageTitle(page), DocumentContent(page), url))
  }

  /** The first selector in priority order with a long text supplies the document, cut to 3000 characters. */
  lemma ScrapeUsesFirstLongSelector(url: string, page: Page, i: nat)
    requires i < |ContentSelectors| && ContentSelectors[i] in page.selected
    requires |SelectorText(page.selected, ContentSelectors[i])| > MinContentLength
    requires forall j :: 0 <= j < i && ContentSelectors[j] in page.selected ==>
      |SelectorText(page.selected, ContentSelectors[j])| <= MinContentLength
    ensures Scrape(url, Some(page)) == Some(RefDoc(PageTitle(page),
      Take(SelectorText(page.selected, ContentSelectors[i]), MaxContentLength), url))
  {
    ScanStopsAtFirstLong(page.selected, ContentSelectors, "", i);
  }

  /**
   * Text of exactly 200 characters passes neither the early stop nor the fallback
   * test: when it is the last present selector's text and none is longer, it is kept.
   */
  lemma ScrapeKeepsExactThreshold(url: string, page: Page, i: nat)
    requires i < |ContentSelectors| && ContentSelectors[i] in page.selected
    requires |SelectorText(page.selected, ContentSelectors[i])| == MinContentLength
    requires forall j :: 0 <= j < |ContentSelectors| && ContentSelectors[j] in page.selected ==>
      |SelectorText(page.selected, ContentSelectors[j])| <= MinContentLength
    requires forall j :: i < j < |ContentSelectors| ==> ContentSelectors[j] !in page.selected
    ensures Scrape(url, Some(page)) == Some(RefDoc(PageTitle(page), SelectorText(page.selected, ContentSelectors[i]), url))
  {
    ScanKeepsLastPresent(page.selected, ContentSelectors, "", i);
  }

  /**
   * When every present selector's text is shorter than 200 characters, or no
   * selector is present, the paragraph text is used even when it is shorter still.
   */
  lemma ScrapeFallsBackToParagraphs(url: string, page: Page)
    requires forall j :: 0 <= j < |ContentSelectors| && ContentSelectors[j] in page.selected ==>
      |SelectorText(page.selected, ContentSelectors[j])| < MinContentLength
    ensures Scrape(url, Some(page)) == Some(RefDoc(PageTitle(page), Take(ParagraphText(page), MaxContentLength), url))
  {
    var sel := page.selected;
    if exists j :: 0 <= j < |ContentSelectors| && ContentSelectors[j] in sel {
      var i := LastPresent(sel, ContentSelectors);
      ScanKeepsLastPresent(sel, ContentSelectors, "", i);
    } else {
      ScanNonePresent(sel, ContentSelectors, "");
    }
  }

  /** The index of the last selector of `sels` present in `sel`. */
  lemma LastPresent(sel: map<string, string>, sels: seq<string>) returns (i: nat)
    requires exists j :: 0 <= j < |sels| && sels[j] in sel
    ensures i < |sels| && sels[i] in sel
    ensures forall j :: i < j < |sels| ==> sels[j] !in sel
  {
    i := |sels| - 1;
    while sels[i] !in sel
      invariant 0 <= i < |sels|
      invariant forall j :: i < j < |sels| ==> sels[j] !in sel
      invariant exists j :: 0 <= j <= i && sels[j] in sel
      decreases i
    {
      i := i - 1;
    }
  }
}
