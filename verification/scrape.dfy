/**
  `is_valid_url` and `scrape_webpage` (web_scraper_app.py, lines 8-68) over
  abstract inputs: what `urlparse` returned, and what the HTTP fetch and the
  HTML parser produced. The try-body (lines 18-57) yields either the cleaned
  text or the exception it raises; the `except` chain (lines 59-68) turns the
  exception into the message string the function returns.
 */
module Scrape {
  import opened Text
  import opened Decimal
  import opened Cleanup

  /* ---------------------------------------------------------------------- */
  /* Inputs                                                                 */
  /* ---------------------------------------------------------------------- */

  /** What `urlparse(url)` gives at line 11: the scheme and the network
      location, or an exception (which `is_valid_url` swallows). */
  datatype UrlParse = Parsed(scheme: string, netloc: string) | ParseRaised

  /** The exception classes the `except` clauses of lines 59-67 name. One
      exception may belong to several (requests' `ConnectTimeout` is both a
      `Timeout` and a `ConnectionError`; `InvalidURL` is both a
      `RequestException` and a `ValueError`). */
  datatype ExnClass = TimeoutExn | ConnectionErrorExn | ValueErrorExn | RequestExceptionExn

  /** A raised `Exception`: the handled classes it is an instance of, and
      `str(e)`. An exception with none of them is one the catch-all of line 67
      takes. */
  datatype Fault = Fault(classes: set<ExnClass>, detail: string)

  /** The text BeautifulSoup extracts once `script` and `style` are gone
      (lines 41-47), or the exception parsing raised. */
  datatype Page = PageText(text: string) | PageRaised(fault: Fault)

  /** The outcome of `requests.get` (line 28): an exception, or a response with
      its status code, its `content-type` header if any, and the page. */
  datatype Fetch = FetchRaised(fault: Fault) | Response(status: int, contentType: Option<string>, page: Page)

  /** How the try-body of lines 18-57 ends. */
  datatype Attempt = Returned(text: string) | Raised(fault: Fault)

  /* ---------------------------------------------------------------------- */
  /* Messages                                                               */
  /* ---------------------------------------------------------------------- */

  const InvalidUrlDetail: string := "无效的URL格式"
  const BadStatusDetail: string := "请求失败，状态码: "
  const BadContentTypeDetail: string := "不支持的内容类型: "
  const NoContentDetail: string := "未找到有效的文本内容"
  const TimeoutMessage: string := "错误：请求超时，请检查网络连接或稍后重试"
  const ConnectionMessage: string := "错误：无法连接到服务器，请检查网络连接"
  const ValueErrorPrefix: string := "错误："
  const RequestErrorPrefix: string := "请求错误："
  const UnknownErrorPrefix: string := "未知错误："

  /** The content-type fragment line 38 looks for. */
  const HtmlType: string := "text/html"

  /** `raise ValueError(detail)`. */
  function ValueError(detail: string): Fault {
    Fault({ValueErrorExn}, detail)
  }

  /** `raise requests.RequestException(detail)`. */
  function RequestError(detail: string): Fault {
    Fault({RequestExceptionExn}, detail)
  }

  /* ---------------------------------------------------------------------- */
  /* Line 12                                                                */
  /* ---------------------------------------------------------------------- */

  /** `is_valid_url`: `all([scheme, netloc])` on what `urlparse` returned,
      and `False` when it raised. */
  function IsValidUrl(u: UrlParse): (b: bool)
    ensures u.ParseRaised? ==> !b
    ensures u.Parsed? ==> (b <==> |u.scheme| > 0 && |u.netloc| > 0)
  {
    match u
    case ParseRaised => false
    case Parsed(scheme, netloc) => scheme != [] && netloc != []
  }

  /* ---------------------------------------------------------------------- */
  /* Lines 18-57: the checks, in order                                      */
  /* ---------------------------------------------------------------------- */

  /** `response.headers.get('content-type', '').lower()` (line 37). */
  function LoweredContentType(header: Option<string>): (r: string)
    ensures header.None? ==> r == []
    ensures header.Some? ==> SameUpToCase(header.value, r)
    ensures forall i :: 0 <= i < |r| ==> !IsUpper(r[i])
  {
    match header
    case None => []
    case Some(h) => LowerOnlyCase(h); Lower(h)
  }

  /** The window of the header at `k` equals "text/html" up to case. */
  ghost predicate HtmlAt(h: string, k: int) {
    0 <= k && k + |HtmlType| <= |h| && SameUpToCase(h[k..k + |HtmlType|], HtmlType)
  }

  /** Some window of the header equals "text/html" up to case. */
  ghost predicate HtmlUpToCase(h: string) {
    exists k :: HtmlAt(h, k)
  }

  /** The lowered header contains "text/html" exactly when the raw header
      holds it in some mix of cases. */
  lemma LoweredHtmlIffUpToCase(h: string)
    ensures Contains(Lower(h), HtmlType) <==> HtmlUpToCase(h)
  {
    LowerNoUpper(HtmlType);
    if Contains(Lower(h), HtmlType) {
      var k :| OccursAt(Lower(h), HtmlType, k);
      LowerSlice(h, k, k + |HtmlType|);
      LowerEqualIffSameUpToCase(h[k..k + |HtmlType|], HtmlType);
      assert HtmlAt(h, k);
    }
    if HtmlUpToCase(h) {
      var k :| HtmlAt(h, k);
      LowerSlice(h, k, k + |HtmlType|);
      LowerEqualIffSameUpToCase(h[k..k + |HtmlType|], HtmlType);
      assert OccursAt(Lower(h), HtmlType, k);
    }
  }

  /** A response that passes both the status check (line 31) and the
      content-type check (line 38). A missing header reads as "" and is
      rejected. */
  function AcceptedResponse(f: Fetch): (b: bool)
    ensures b <==> f.Response? && f.status == 200 && f.contentType.Some? && HtmlUpToCase(f.contentType.value)
  {
    match f
    case FetchRaised(_) => false
    case Response(status, header, _) =>
      if header.Some? then LoweredHtmlIffUpToCase(header.value); status == 200 && Contains(LoweredContentType(header), HtmlType)
      else status == 200 && Contains(LoweredContentType(header), HtmlType)
  }

  /** Lines 41-57 once the response is accepted: clean the text, reject a blank one. */
  function FromPage(page: Page): (a: Attempt)
    ensures a.Returned? ==> page.PageText? && a.text != [] && a.text == Normalize(page.text)
    ensures page.PageText? ==> (a == Raised(ValueError(NoContentDetail)) <==> AllSpace(page.text))
    ensures page.PageRaised? ==> a == Raised(page.fault)
    ensures page.PageText? && !AllSpace(page.text) ==> a == Returned(Normalize(page.text))
  {
    if page.PageRaised? then Raised(page.fault)
    else
      var raw := page.text;
      var text := Normalize(raw);
      NormalizeIsStripped(raw);
      NormalizeEmptyIffBlank(raw);
      if Strip(text) == [] then Raised(ValueError(NoContentDetail)) else Returned(text)
  }

  /** The try-body of `scrape_webpage`, lines 18-57. */
  function TryBody(url: UrlParse, fetch: Fetch): (a: Attempt)
    ensures !IsValidUrl(url) ==> a == Raised(ValueError(InvalidUrlDetail))
    ensures a.Returned? <==>
      IsValidUrl(url) && AcceptedResponse(fetch) && fetch.page.PageText? && !AllSpace(fetch.page.text)
    ensures a.Returned? ==> a.text != [] && a.text == Normalize(fetch.page.text)
    ensures IsValidUrl(url) && fetch.FetchRaised? ==> a == Raised(fetch.fault)
    ensures IsValidUrl(url) && AcceptedResponse(fetch) && fetch.page.PageRaised? ==> a == Raised(fetch.page.fault)
  {
    if !IsValidUrl(url) then Raised(ValueError(InvalidUrlDetail))
    else match fetch
      case FetchRaised(f) => Raised(f)
      case Response(status, header, page) =>
        if status != 200 then Raised(RequestError(BadStatusDetail + IntToDecimal(status)))
        else
          var contentType := LoweredContentType(header);
          if !Contains(contentType, HtmlType) then Raised(ValueError(BadContentTypeDetail + contentType))
          else FromPage(page)
  }

  /* ---------------------------------------------------------------------- */
  /* Lines 59-68: the except chain                                          */
  /* ---------------------------------------------------------------------- */

  /** Which `except` clause catches a fault: the first that names one of its classes. */
  datatype Handler = OnTimeout | OnConnectionError | OnValueError | OnRequestException | OnOther

  function HandlerOf(f: Fault): (h: Handler)
    ensures h == OnTimeout <==> TimeoutExn in f.classes
    ensures h == OnConnectionError <==> TimeoutExn !in f.classes && ConnectionErrorExn in f.classes
    ensures h == OnValueError <==>
      TimeoutExn !in f.classes && ConnectionErrorExn !in f.classes && ValueErrorExn in f.classes
    ensures h == OnRequestException <==>
      TimeoutExn !in f.classes && ConnectionErrorExn !in f.classes && ValueErrorExn !in f.classes
      && RequestExceptionExn in f.classes
    ensures h == OnOther <==> f.classes !! {TimeoutExn, ConnectionErrorExn, ValueErrorExn, RequestExceptionExn}
  {
    if TimeoutExn in f.classes then OnTimeout
    else if ConnectionErrorExn in f.classes then OnConnectionError
    else if ValueErrorExn in f.classes then OnValueError
    else if RequestExceptionExn in f.classes then OnRequestException
    else OnOther
  }

  /** The message the catching clause returns. */
  function Handle(f: Fault): (r: string)
    ensures StartsWith(r, "错误") <==> HandlerOf(f) in {OnTimeout, OnConnectionError, OnValueError}
    ensures StartsWith(r, RequestErrorPrefix) <==> HandlerOf(f) == OnRequestException
    ensures StartsWith(r, UnknownErrorPrefix) <==> HandlerOf(f) == OnOther
    ensures HandlerOf(f) in {OnValueError, OnRequestException, OnOther} ==>
      |f.detail| <= |r| && r[|r| - |f.detail|..] == f.detail
    ensures HandlerOf(f) == OnTimeout ==> r == TimeoutMessage
    ensures HandlerOf(f) == OnConnectionError ==> r == ConnectionMessage
    ensures HandlerOf(f) == OnValueError ==> r == ValueErrorPrefix + f.detail
    ensures HandlerOf(f) == OnRequestException ==> r == RequestErrorPrefix + f.detail
    ensures HandlerOf(f) == OnOther ==> r == UnknownErrorPrefix + f.detail
  {
    MessagePrefixes(f.detail);
    match HandlerOf(f)
    case OnTimeout => TimeoutMessage
    case OnConnectionError => ConnectionMessage
    case OnValueError => ValueErrorPrefix + f.detail
    case OnRequestException => RequestErrorPrefix + f.detail
    case OnOther => UnknownErrorPrefix + f.detail
  }

  /** Which of the three prefixes each message of lines 60-68 carries. */
  lemma MessagePrefixes(detail: string)
    ensures StartsWith(TimeoutMessage, "错误")
    ensures StartsWith(ConnectionMessage, "错误")
    ensures StartsWith(ValueErrorPrefix + detail, "错误")
    ensures !StartsWith(RequestErrorPrefix + detail, "错误")
    ensures !StartsWith(UnknownErrorPrefix + detail, "错误")
    ensures StartsWith(RequestErrorPrefix + detail, RequestErrorPrefix)
    ensures StartsWith(UnknownErrorPrefix + detail, UnknownErrorPrefix)
    ensures !StartsWith(TimeoutMessage, RequestErrorPrefix) && !StartsWith(TimeoutMessage, UnknownErrorPrefix)
    ensures !StartsWith(ConnectionMessage, RequestErrorPrefix) && !StartsWith(ConnectionMessage, UnknownErrorPrefix)
    ensures !StartsWith(ValueErrorPrefix + detail, RequestErrorPrefix) && !StartsWith(ValueErrorPrefix + detail, UnknownErrorPrefix)
    ensures !StartsWith(RequestErrorPrefix + detail, UnknownErrorPrefix)
    ensures !StartsWith(UnknownErrorPrefix + detail, RequestErrorPrefix)
  {
    assert TimeoutMessage[..2] == "错误";
    assert ConnectionMessage[..2] == "错误";
    assert (ValueErrorPrefix + detail)[..2] == "错误";
    assert (RequestErrorPrefix + detail)[0] == '请';
    assert (UnknownErrorPrefix + detail)[0] == '未';
    assert (RequestErrorPrefix + detail)[..|RequestErrorPrefix|] == RequestErrorPrefix;
    assert (UnknownErrorPrefix + detail)[..|UnknownErrorPrefix|] == UnknownErrorPrefix;
    assert TimeoutMessage[0] == '错' && ConnectionMessage[0] == '错' && (ValueErrorPrefix + detail)[0] == '错';
  }

  /** `scrape_webpage(url)`: the cleaned text, or the message of the failure. */
  function ScrapeWebpage(url: UrlParse, fetch: Fetch): (r: string)
    ensures r != []
    ensures TryBody(url, fetch).Raised? ==> r == Handle(TryBody(url, fetch).fault)
  {
    match TryBody(url, fetch)
    case Returned(text) => text
    case Raised(f) => Handle(f)
  }

  /* ---------------------------------------------------------------------- */
  /* Check order                                                            */
  /* ---------------------------------------------------------------------- */

  /** An invalid URL is reported before the fetch outcome is looked at: the
      result is the same whatever the fetch would have produced. */
  lemma InvalidUrlFirst(url: UrlParse, fetch: Fetch)
    requires !IsValidUrl(url)
    ensures ScrapeWebpage(url, fetch) == "错误：无效的URL格式"
  {
  }

  /** A status other than 200 is reported whatever the content type and page. */
  lemma BadStatusBeforeContentType(url: UrlParse, status: int, header: Option<string>, page: Page)
    requires IsValidUrl(url) && status != 200
    ensures ScrapeWebpage(url, Response(status, header, page)) == RequestErrorPrefix + BadStatusDetail + IntToDecimal(status)
  {
    var f := RequestError(BadStatusDetail + IntToDecimal(status));
    assert TryBody(url, Response(status, header, page)) == Raised(f);
    assert HandlerOf(f) == OnRequestException;
    assert Handle(f) == RequestErrorPrefix + (BadStatusDetail + IntToDecimal(status));
  }

  /** With status 200, a content type whose lower-cased form lacks "text/html"
      is reported with that lower-cased form, whatever the page. */
  lemma ContentTypeBeforePage(url: UrlParse, header: Option<string>, page: Page)
    requires IsValidUrl(url) && !Contains(LoweredContentType(header), HtmlType)
    ensures ScrapeWebpage(url, Response(200, header, page)) == ValueErrorPrefix + BadContentTypeDetail + LoweredContentType(header)
  {
    var f := ValueError(BadContentTypeDetail + LoweredContentType(header));
    assert TryBody(url, Response(200, header, page)) == Raised(f);
    assert HandlerOf(f) == OnValueError;
    assert Handle(f) == ValueErrorPrefix + (BadContentTypeDetail + LoweredContentType(header));
  }

  /** The header is compared after lower-casing: headers that differ only in
      the case of letters lead to the same result, message included. */
  lemma ContentTypeIgnoresCase(url: UrlParse, h1: string, h2: string, page: Page)
    requires SameUpToCase(h1, h2)
    ensures ScrapeWebpage(url, Response(200, Some(h1), page)) == ScrapeWebpage(url, Response(200, Some(h2), page))
  {
    LowerEqualIffSameUpToCase(h1, h2);
    assert LoweredContentType(Some(h1)) == LoweredContentType(Some(h2));
    assert TryBody(url, Response(200, Some(h1), page)) == TryBody(url, Response(200, Some(h2), page));
  }

  /** A header holding "text/html" in any mix of cases, at any position
      ("Text/HTML; charset=UTF-8"), passes the check of line 38. */
  lemma HtmlInAnyCaseAccepted(header: string, k: nat, page: Page)
    requires k + |HtmlType| <= |header| && SameUpToCase(header[k..k + |HtmlType|], HtmlType)
    ensures AcceptedResponse(Response(200, Some(header), page))
  {
    var lowered := LoweredContentType(Some(header));
    LowerSlice(header, k, k + |HtmlType|);
    LowerEqualIffSameUpToCase(header[k..k + |HtmlType|], HtmlType);
    LowerNoUpper(HtmlType);
    assert OccursAt(lowered, HtmlType, k);
  }

  /** An exception from the fetch reaches the `except` chain unchanged. */
  lemma TransportFaultHandled(url: UrlParse, f: Fault)
    requires IsValidUrl(url)
    ensures ScrapeWebpage(url, FetchRaised(f)) == Handle(f)
  {
  }

  /** Once status and content type pass, the header plays no further part. */
  lemma ContentTypeOnlyGates(url: UrlParse, h1: Option<string>, h2: Option<string>, page: Page)
    requires Contains(LoweredContentType(h1), HtmlType) && Contains(LoweredContentType(h2), HtmlType)
    ensures ScrapeWebpage(url, Response(200, h1, page)) == ScrapeWebpage(url, Response(200, h2, page))
  {
  }

  /** The no-content message appears exactly when the page text has no
      visible character; otherwise the cleaned text is returned. */
  lemma NoContentIffBlank(url: UrlParse, header: Option<string>, raw: string)
    requires IsValidUrl(url) && Contains(LoweredContentType(header), HtmlType)
    ensures TryBody(url, Response(200, header, PageText(raw))) == Raised(ValueError(NoContentDetail)) <==> AllSpace(raw)
    ensures !AllSpace(raw) ==> ScrapeWebpage(url, Response(200, header, PageText(raw))) == Normalize(raw)
  {
  }

  /** An accepted page whose text has no visible character is reported with
      the no-content message of lines 55 and 64. */
  lemma BlankPageMessage(url: UrlParse, header: Option<string>, raw: string)
    requires IsValidUrl(url) && Contains(LoweredContentType(header), HtmlType) && AllSpace(raw)
    ensures ScrapeWebpage(url, Response(200, header, PageText(raw))) == ValueErrorPrefix + NoContentDetail
  {
    var f := ValueError(NoContentDetail);
    assert FromPage(PageText(raw)) == Raised(f);
    assert TryBody(url, Response(200, header, PageText(raw))) == Raised(f);
    assert HandlerOf(f) == OnValueError;
    assert Handle(f) == ValueErrorPrefix + NoContentDetail;
  }

  /** A timeout is reported as a timeout even when it is also a connection error. */
  lemma TimeoutCaughtFirst(url: UrlParse, detail: string)
    requires IsValidUrl(url)
    ensures ScrapeWebpage(url, FetchRaised(Fault({TimeoutExn, ConnectionErrorExn, RequestExceptionExn}, detail))) == TimeoutMessage
  {
  }

  /** A request exception that is also a `ValueError` (requests' `InvalidURL`)
      is caught by the `ValueError` clause of line 63, not by line 65. */
  lemma ValueErrorBeforeRequestException(url: UrlParse, detail: string)
    requires IsValidUrl(url)
    ensures ScrapeWebpage(url, FetchRaised(Fault({ValueErrorExn, RequestExceptionExn}, detail))) == "错误：" + detail
  {
  }
}
