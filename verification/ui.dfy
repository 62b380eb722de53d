/**
  The pure decisions of the Streamlit page (web_scraper_app.py, lines 94-108):
  whether the string `scrape_webpage` returned is shown as an error, the
  1000-character preview, and the length and download offer of a success.
  Widgets, the progress bar and the sleeps are not modelled.
 */
module Ui {
  import opened Text
  import opened Decimal
  import opened Cleanup
  import opened Scrape

  /** The two prefixes line 94 tests. */
  const ErrorMark: string := "错误"
  const UnknownErrorMark: string := "未知错误"

  /** Line 102: characters kept in the preview, and what marks a cut. */
  const PreviewLimit: nat := 1000
  const Ellipsis: string := "..."

  /** Line 94: the page shows `content` with `st.error` exactly when this holds. */
  predicate ShownAsError(content: string)
    ensures ShownAsError(content) <==>
      || (|content| >= 2 && content[0] == '错' && content[1] == '误')
      || (|content| >= 4 && content[0] == '未' && content[1] == '知' && content[2] == '错' && content[3] == '误')
  {
    StartsWith(content, ErrorMark) || StartsWith(content, UnknownErrorMark)
  }

  /** Line 102: `content[:1000] + ('...' if len(content) > 1000 else '')`. */
  function Preview(content: string): (r: string)
    ensures |r| <= PreviewLimit + |Ellipsis|
    ensures |content| <= PreviewLimit ==> r == content
    ensures |content| > PreviewLimit ==>
      |r| == PreviewLimit + |Ellipsis| && StartsWith(content, r[..PreviewLimit]) && r[PreviewLimit..] == Ellipsis
  {
    if |content| > PreviewLimit then content[..PreviewLimit] + Ellipsis else content
  }

  /** Previewing a preview changes nothing: a cut preview is exactly 1000
      kept characters and the ellipsis, which cuts to itself. */
  lemma PreviewIdempotent(content: string)
    ensures Preview(Preview(content)) == Preview(content)
  {
    var p := Preview(content);
    if |content| > PreviewLimit {
      assert p[..PreviewLimit] + Ellipsis == p;
    }
  }

  /** What the page renders for a result: an error box, or the preview and,
      when `download` holds a length, the download link of line 107 and the
      character count of line 108 showing that length. */
  datatype Display =
    | ErrorBox(message: string)
    | ContentView(preview: string, download: Option<nat>)

  /** Lines 94-108 as written: an error box, or the preview followed, for
      non-empty content only (line 106), by the download link and the count. */
  function Present(content: string): (d: Display)
    ensures d.ErrorBox? <==> ShownAsError(content)
    ensures d.ErrorBox? ==> d.message == content
    ensures d.ContentView? ==> d.preview == Preview(content)
    ensures d.ContentView? ==> (d.download.Some? <==> content != [])
    ensures d.ContentView? && d.download.Some? ==> d.download.value == |content|
  {
    if ShownAsError(content) then ErrorBox(content)
    else ContentView(Preview(content), if |content| > 0 then Some(|content|) else None)
  }

  /** Every string `scrape_webpage` returns is non-empty, so the guard of
      line 106 always lets the download link through. */
  lemma DownloadAlwaysOffered(url: UrlParse, fetch: Fetch)
    ensures Present(ScrapeWebpage(url, fetch)).ContentView? ==>
      Present(ScrapeWebpage(url, fetch)).download == Some(|ScrapeWebpage(url, fetch)|)
  {
  }

  lemma StartsWithLonger(s: string, p: string, q: string)
    requires StartsWith(s, p + q)
    ensures StartsWith(s, p)
  {
    assert s[..|p|] == (p + q)[..|p|];
  }

  /** Line 94 on the messages of lines 60-68: every message is flagged except
      the "请求错误：" one of line 66. */
  lemma FaultFlagged(f: Fault)
    ensures ShownAsError(Handle(f)) <==> HandlerOf(f) != OnRequestException
  {
    var r := Handle(f);
    if HandlerOf(f) == OnOther {
      assert UnknownErrorPrefix == UnknownErrorMark + "：";
      StartsWithLonger(r, UnknownErrorMark, "：");
    }
    if HandlerOf(f) == OnRequestException {
      assert r[..|RequestErrorPrefix|] == RequestErrorPrefix;
      assert r[0] == RequestErrorPrefix[0];
      assert !StartsWith(r, UnknownErrorMark) by {
        if |UnknownErrorMark| <= |r| {
          assert r[..|UnknownErrorMark|][0] == r[0];
        }
      }
    }
  }

  /* ---------------------------------------------------------------------- */
  /* The prefix test against what actually happened                         */
  /* ---------------------------------------------------------------------- */

  /** A valid URL answered with any status other than 200 is rendered as
      successfully scraped content: its "请求错误：" message is not flagged. */
  lemma BadStatusShownAsContent(url: UrlParse, status: int, header: Option<string>, page: Page)
    requires IsValidUrl(url) && status != 200
    ensures Present(ScrapeWebpage(url, Response(status, header, page))).ContentView?
  {
    var f := RequestError(BadStatusDetail + IntToDecimal(status));
    assert TryBody(url, Response(status, header, page)) == Raised(f);
    FaultFlagged(f);
  }

  /** A page whose visible text is just "错误" is cleaned to "错误". */
  lemma NormalizeErrorWord()
    ensures Normalize(ErrorMark) == ErrorMark
  {
    var s := ErrorMark;
    assert FindBreak(s).None? by {
      assert !IsLineBreak(s[0]) && !IsLineBreak(s[1]);
    }
    assert SplitLines(s) == [s];
    assert Clean(s) by {
      forall i | 0 <= i
        ensures !OccursAt(s, PhraseSeparator, i)
      {
        if i + 2 <= |s| {
          assert s[i] != ' ';
          assert s[i..i + 2][0] == s[i];
        }
      }
    }
    ChunksOfCleanLines([s]);
  }

  /** A 200 response of type "text/html" whose page text is "错误". */
  const ErrorPage: Fetch := Response(200, Some(HtmlType), PageText(ErrorMark))

  /** Such a response passes the status and content-type checks and its text is
      not blank, so the try-body returns the text itself. */
  lemma ErrorPageReturned(url: UrlParse)
    requires IsValidUrl(url)
    ensures TryBody(url, ErrorPage) == Returned(ErrorMark)
  {
    assert AcceptedResponse(ErrorPage) by {
      assert LoweredContentType(Some(HtmlType)) == HtmlType;
      assert OccursAt(HtmlType, HtmlType, 0);
    }
    assert !AllSpace(ErrorMark) by {
      assert !IsSpace(ErrorMark[0]);
    }
    NormalizeErrorWord();
  }

  /** A page that was scraped successfully but whose text begins with "错误"
      is rendered as a failure. */
  lemma PageTextShownAsError(url: UrlParse)
    requires IsValidUrl(url)
    ensures TryBody(url, ErrorPage).Returned?
    ensures Present(ScrapeWebpage(url, ErrorPage)).ErrorBox?
  {
    ErrorPageReturned(url);
    assert ScrapeWebpage(url, ErrorPage) == ErrorMark;
    assert StartsWith(ErrorMark, ErrorMark);
  }

  /* ---------------------------------------------------------------------- */
  /* Typed outcome: the failure decided by what happened, not by a prefix   */
  /* ---------------------------------------------------------------------- */

  datatype Outcome = Scraped(text: string) | Failed(message: string)

  /** `scrape_webpage` with the failure kept as a tag next to the same string. */
  function ScrapeOutcome(url: UrlParse, fetch: Fetch): (o: Outcome)
    ensures o.Failed? <==> TryBody(url, fetch).Raised?
    ensures (if o.Scraped? then o.text else o.message) == ScrapeWebpage(url, fetch)
  {
    match TryBody(url, fetch)
    case Returned(text) => Scraped(text)
    case Raised(f) => Failed(Handle(f))
  }

  /** Lines 94-108 deciding on the tag. */
  function PresentOutcome(o: Outcome): (d: Display)
    ensures d.ErrorBox? <==> o.Failed?
    ensures o.Failed? ==> d == ErrorBox(o.message)
    ensures o.Scraped? ==> d.preview == Preview(o.text)
    ensures o.Scraped? ==> d.download == (if o.text != [] then Some(|o.text|) else None)
  {
    match o
    case Failed(m) => ErrorBox(m)
    case Scraped(t) => ContentView(Preview(t), if |t| > 0 then Some(|t|) else None)
  }

  /** With the tag, the page shows an error exactly when scraping failed. */
  lemma TypedPresentFlagsExactlyFailures(url: UrlParse, fetch: Fetch)
    ensures PresentOutcome(ScrapeOutcome(url, fetch)).ErrorBox? <==> TryBody(url, fetch).Raised?
  {
  }

  /** The prefix test and the tag render the same page except in the two
      cases above: a "请求错误：" failure, or scraped text that begins with a
      flagged prefix. */
  lemma PresentAgreesOutsidePrefixCases(url: UrlParse, fetch: Fetch)
    ensures Present(ScrapeWebpage(url, fetch)) == PresentOutcome(ScrapeOutcome(url, fetch)) <==>
      match TryBody(url, fetch)
      case Raised(f) => HandlerOf(f) != OnRequestException
      case Returned(text) => !ShownAsError(text)
  {
    match TryBody(url, fetch)
    case Raised(f) => FaultFlagged(f);
    case Returned(text) =>
  }
}
