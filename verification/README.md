# Web page text scraper — Dafny model

A model of the pure logic of `web_scraper_project/web_scraper_app.py`: a
Streamlit page that fetches one URL, checks the HTTP status and content type,
strips the HTML to text, cleans the text, and shows either an error or a
preview with a download link.

The model replaces the fetch, the URL parser and the HTML parser with abstract
inputs and keeps the decisions around them:

- `text.dfy` (module `Text`): the Python string primitives the code relies on.
  `str.isspace`, `strip`, `split(sep)`, `join`, `splitlines` (with `"\r\n"`
  as one boundary and no trailing empty line), `in` and `startswith` are
  written out exactly. `lower` is exact on Latin-1 only (see "Left out").
- `cleanup.dfy` (module `Cleanup`): the clean-up of lines 50-52. It splits the
  text into lines and strips each line. It splits each line at every double
  space and strips each phrase. It drops empty phrases and joins the rest with
  `"\n"`.
- `decimal.dfy` (module `Decimal`): `str()` of the status code in the line-32
  message, with its inverse.
- `scrape.dfy` (module `Scrape`): `is_valid_url` and `scrape_webpage`. The
  try-body (lines 18-57) ends in `Returned(text)` or `Raised(fault)`. The
  `except` chain (lines 59-68) maps the fault to the returned string. A
  `Fault` carries the set of exception classes it belongs to, so an exception
  that is both a `Timeout` and a `ConnectionError`, or both a
  `RequestException` and a `ValueError`, goes to the first clause that names
  one of them, as in Python.
- `ui.dfy` (module `Ui`): the prefix test of line 94 and the preview of line
  102. It also holds a typed variant that decides "error" from what happened
  instead of from a string prefix (see Findings).

Abstract inputs:

- `UrlParse`: the scheme and netloc `urlparse` returned, or the exception
  it raised.
- `Fetch`: the exception `requests.get` raised, or a response. A response
  carries the status code, the optional `content-type` header and a `Page`.
- `Page`: the text BeautifulSoup produced after removing `script` and
  `style`, or the exception parsing raised.

Two points about the code that the model keeps:

- A non-200 status is raised as `requests.RequestException` at line 32, so
  line 66 reports it with the `请求错误：` prefix, not the `错误：` prefix of
  the other validation failures.
- `scrape_webpage` returns a plain string for success and failure alike, not a
  typed success/failure value.

## Model

| member | source | states |
|---|---|---|
| Text.Strip | web_scraper_project/web_scraper_app.py:50-51 | `str.strip()`: the result is no longer than the input and neither starts nor ends with whitespace |
| Text.SkipSpaceSkipsSpace | web_scraper_project/web_scraper_app.py:50-51 | the left scan of `str.strip()` stops at the first non-whitespace character, and everything it passes over is whitespace |
| Text.SkipSpaceBackSkipsSpace | web_scraper_project/web_scraper_app.py:50-51 | the right scan of `str.strip()` stops after the last non-whitespace character (or where the left scan stopped), and everything it passes over is whitespace |
| Text.StripCutsSpace | web_scraper_project/web_scraper_app.py:50-51 | `str.strip()` cuts only at the ends: the result is the slice of the input starting at some offset `k`, what precedes `k` is whitespace, and what follows the slice is whitespace |
| Text.StripWithin | web_scraper_project/web_scraper_app.py:50-51 | every character of a stripped line is a character of the line |
| Text.StripStripped | web_scraper_project/web_scraper_app.py:54 | a string that neither starts nor ends with whitespace is its own `strip()` |
| Text.StripPadded | web_scraper_project/web_scraper_app.py:50 | whitespace around a string that neither starts nor ends with whitespace is exactly what `str.strip()` removes |
| Text.StripVisible | web_scraper_project/web_scraper_app.py:50-51 | `str.strip()` removes only whitespace: the non-whitespace characters of the input survive, in order |
| Text.SplitLines | web_scraper_project/web_scraper_app.py:50 | `str.splitlines()`: no line holds a line boundary, every line is made of characters of the text, and there are no more lines than characters |
| Text.SplitLinesNoBreak | web_scraper_project/web_scraper_app.py:50 | a text without line boundaries is one line, and the empty text has no lines |
| Text.SplitLinesCons | web_scraper_project/web_scraper_app.py:50 | lines are cut at every boundary: a boundary-free text, then "\r\n" or any one boundary character (a "\r" not followed by "\n"), then the rest, gives that text followed by the lines of the rest; a trailing boundary opens no empty line |
| Text.Split | web_scraper_project/web_scraper_app.py:51 | `str.split(sep)`: at least one piece, no piece contains the separator, and every piece is made of characters of the input |
| Text.SplitLeftmost | web_scraper_project/web_scraper_app.py:51 | every piece of `split(sep)` but the last ends at the leftmost occurrence of `sep` after it, as Python's left-to-right scan cuts |
| Text.SplitCons | web_scraper_project/web_scraper_app.py:51 | a piece cut at the leftmost separator, the separator and the rest split into that piece followed by the pieces of the rest |
| Text.Join | web_scraper_project/web_scraper_app.py:52 | `sep.join`: no pieces give the empty string, and the first and the last piece each fit in the result |
| Text.JoinEnds | web_scraper_project/web_scraper_app.py:52 | `sep.join` starts with the first piece and ends with the last |
| Text.JoinSplit | web_scraper_project/web_scraper_app.py:51 | joining the pieces of `split(sep)` with `sep` gives back the original string |
| Text.JoinSplitLines | web_scraper_project/web_scraper_app.py:50 | lines end only at boundaries: a text whose only boundaries are "\n" and that does not end in one comes back unchanged when its lines are joined with "\n" |
| Text.SplitLinesJoin | web_scraper_project/web_scraper_app.py:50-52 | non-empty strings without line boundaries, joined with "\n", come back unchanged from `splitlines()` |
| Text.DelSpaceSplitLines | web_scraper_project/web_scraper_app.py:50 | splitting into lines drops only whitespace: the non-whitespace characters of the text are those of its lines, in order |
| Text.LowerChar | web_scraper_project/web_scraper_app.py:37 | `lower()` on one character: a Latin-1 capital (A-Z, U+00C0-U+00DE except U+00D7) becomes the small letter 0x20 further on, every other character is unchanged, and no capital is ever produced |
| Text.Lower | web_scraper_project/web_scraper_app.py:37 | `lower()` keeps the length and lower-cases each character on its own |
| Text.LowerOnlyCase | web_scraper_project/web_scraper_app.py:37 | `lower()` changes only the case of letters, and its result holds no capital |
| Text.LowerEqualIffSameUpToCase | web_scraper_project/web_scraper_app.py:37 | two strings lower-case to the same string exactly when they differ only in the case of letters |
| Text.LowerIdempotent | web_scraper_project/web_scraper_app.py:37 | lower-casing twice is lower-casing once |
| Text.Contains | web_scraper_project/web_scraper_app.py:38 | `'text/html' in content_type` holds exactly when the fragment occurs at some position |
| Cleanup.PhrasesVisible | web_scraper_project/web_scraper_app.py:51 | splitting a line at double spaces drops only the separators, which are blank |
| Cleanup.CleanLineChunks | web_scraper_project/web_scraper_app.py:50-52 | a non-empty, trimmed line without a double space yields exactly itself as its only chunk |
| Cleanup.LineChunks | web_scraper_project/web_scraper_app.py:50-51 | the chunks one line yields (its strip, cut at every "  ", each phrase stripped, blank ones dropped) carry exactly the non-whitespace characters of the line, in order |
| Cleanup.ChunksOfLines | web_scraper_project/web_scraper_app.py:51 | the nested generator, taken line after line, loses and invents no non-whitespace character: its chunks carry exactly those of the lines, in order |
| Cleanup.Chunks | web_scraper_project/web_scraper_app.py:50-52 | with ChunksAtBreak, CleanLineChunks and ChunksJoinDoubleSpace, the text is cut at line boundaries and double spaces; on its own: every kept chunk is non-empty, has no outer whitespace, no line boundary and no double space; together the chunks carry exactly the non-whitespace characters of the page text |
| Cleanup.ChunksAtBreak | web_scraper_project/web_scraper_app.py:50-51 | the page text is cut at every line boundary ("\r\n" as one, any other single boundary character, a trailing one included): the chunks of `x + b + y` are those of the boundary-free first line `x` followed by those of `y` |
| Cleanup.PaddedLineChunks | web_scraper_project/web_scraper_app.py:50-51 | the `line.strip()` of line 50 removes indentation: a clean line padded with whitespace other than line boundaries yields exactly itself as its only chunk |
| Cleanup.KeepStripped | web_scraper_project/web_scraper_app.py:51-52 | no more chunks than phrases, and every kept chunk is non-empty with no outer whitespace |
| Cleanup.KeepStrippedSingle | web_scraper_project/web_scraper_app.py:51-52 | one phrase contributes its own `strip()`, or nothing when that is empty |
| Cleanup.KeepStrippedAppend | web_scraper_project/web_scraper_app.py:51-52 | phrases are stripped and filtered one by one, in order: the chunks of two runs of phrases are the chunks of each, concatenated |
| Cleanup.KeepStrippedVisible | web_scraper_project/web_scraper_app.py:51-52 | stripping the phrases and dropping the blank ones loses no visible character |
| Cleanup.Normalize | web_scraper_project/web_scraper_app.py:50-52 | with NormalizePaddedLines and NormalizeDoubleSpace, line boundaries and double spaces between chunks both become "\n"; on its own: the cleaned text never holds "\n\n", never starts or ends with whitespace (so not with "\n"), and deleting all whitespace from input and output gives the same string |
| Cleanup.NormalizedLines | web_scraper_project/web_scraper_app.py:50-52 | the lines of the cleaned text are exactly the kept chunks, and each is non-empty, trimmed and free of double spaces |
| Cleanup.NormalizeIdempotent | web_scraper_project/web_scraper_app.py:50-52 | cleaning the cleaned text returns it unchanged |
| Cleanup.NormalizeEmptyIffBlank | web_scraper_project/web_scraper_app.py:52-54 | the cleaned text is empty exactly when the page text has no non-whitespace character |
| Cleanup.NormalizeIsStripped | web_scraper_project/web_scraper_app.py:52-54 | the `strip()` of line 54 leaves the cleaned text unchanged, so that test is an emptiness test |
| Cleanup.ChunksJoinDoubleSpace | web_scraper_project/web_scraper_app.py:50-52 | the page text is cut at every double space: clean chunks joined by "  " come out as exactly those chunks |
| Cleanup.NormalizeDoubleSpace | web_scraper_project/web_scraper_app.py:50-52 | every double space between clean chunks becomes a line break: clean chunks joined by "  " clean up to the same chunks joined by "\n" |
| Cleanup.NormalizeHelloWorld | web_scraper_project/web_scraper_app.py:50-52 | "Hello  World" cleans up to "Hello\nWorld" |
| Cleanup.NormalizePaddedLines | web_scraper_project/web_scraper_app.py:50-52 | two indented clean lines separated by any one line boundary, "\r\n" included, clean up to the two lines joined by "\n", so " a \r\n b" gives "a\nb" |
| Decimal.ParseIntToDecimal | web_scraper_project/web_scraper_app.py:32 | the status code printed into the message reads back as the same integer |
| Decimal.IntToDecimal | web_scraper_project/web_scraper_app.py:32 | `str(n)` of the status code: a minus sign exactly for negative codes, digits after it, and no leading zero |
| Decimal.IntToDecimalInjective | web_scraper_project/web_scraper_app.py:32 | different status codes give different messages |
| Scrape.IsValidUrl | web_scraper_project/web_scraper_app.py:8-14 | a URL `urlparse` rejects is invalid; a parsed one is valid exactly when both its scheme and its netloc are non-empty |
| Scrape.LoweredContentType | web_scraper_project/web_scraper_app.py:37 | a missing header counts as empty; a present one is lower-cased, differing from it only in letter case and holding no capital |
| Scrape.AcceptedResponse | web_scraper_project/web_scraper_app.py:31-38 | a response passes the status check and the content-type check exactly when its status is 200 and it has a content-type header some window of which equals "text/html" up to letter case (a relation defined without lower-casing); a missing header, read as "", never passes |
| Scrape.LoweredHtmlIffUpToCase | web_scraper_project/web_scraper_app.py:37-38 | "text/html" occurs in the lower-cased header exactly when the raw header holds it in some mix of cases |
| Scrape.FromPage | web_scraper_project/web_scraper_app.py:41-57 | a parser exception propagates; the no-content error is raised exactly when the page text is blank; otherwise the cleaned text is returned, and it is not empty |
| Scrape.TryBody | web_scraper_project/web_scraper_app.py:18-57 | an invalid URL raises the invalid-URL `ValueError`; for a valid URL, an exception of `requests.get`, or of parsing an accepted response, is the exception raised; text is returned exactly for a valid URL with a 200, `text/html` response whose page text is not blank, and it is the non-empty cleaned text |
| Scrape.Handle | web_scraper_project/web_scraper_app.py:59-68 | each clause returns its exact message: the two fixed messages of lines 60 and 62, then "错误：", "请求错误：" or "未知错误：" followed by `str(e)`; the message starts with "错误" exactly for the first three clauses |
| Scrape.HandlerOf | web_scraper_project/web_scraper_app.py:59-67 | the first clause that names one of the exception's classes catches it, in the order Timeout, ConnectionError, ValueError, RequestException; the catch-all takes an exception of none of them |
| Scrape.ScrapeWebpage | web_scraper_project/web_scraper_app.py:16-68 | the result is never empty, and a raised exception is returned as its handler's message |
| Scrape.InvalidUrlFirst | web_scraper_project/web_scraper_app.py:8-20 | a URL without a scheme or netloc, or one `urlparse` rejects, yields "错误：无效的URL格式" whatever the fetch would have given |
| Scrape.BadStatusBeforeContentType | web_scraper_project/web_scraper_app.py:31-32 | any status other than 200 yields "请求错误：请求失败，状态码: <code>" whatever the content type and page |
| Scrape.ContentTypeBeforePage | web_scraper_project/web_scraper_app.py:37-39 | with status 200, a lower-cased content type without "text/html" (a missing header counts as empty) yields "错误：不支持的内容类型: <lower-cased type>" whatever the page |
| Scrape.ContentTypeIgnoresCase | web_scraper_project/web_scraper_app.py:37-38 | two headers that differ only in the case of letters give the same result, message included |
| Scrape.HtmlInAnyCaseAccepted | web_scraper_project/web_scraper_app.py:37-38 | a header holding "text/html" in any mix of cases at any position, such as "Text/HTML; charset=UTF-8", passes the content-type check |
| Scrape.ContentTypeOnlyGates | web_scraper_project/web_scraper_app.py:37-41 | once the content type passes, which accepted header it was does not change the result |
| Scrape.NoContentIffBlank | web_scraper_project/web_scraper_app.py:52-57 | for an accepted response, the no-content error is raised exactly when the page text is blank, and otherwise the cleaned text is returned |
| Scrape.BlankPageMessage | web_scraper_project/web_scraper_app.py:54-64 | an accepted page whose text is blank raises the no-content `ValueError`, so the result is "错误：未找到有效的文本内容" |
| Scrape.TransportFaultHandled | web_scraper_project/web_scraper_app.py:59-68 | for a valid URL, an exception of `requests.get` is returned as the message of the clause that catches it |
| Scrape.TimeoutCaughtFirst | web_scraper_project/web_scraper_app.py:59-62 | an exception that is both a Timeout and a ConnectionError is reported as a timeout |
| Scrape.ValueErrorBeforeRequestException | web_scraper_project/web_scraper_app.py:63-66 | an exception that is both a ValueError and a RequestException gets the "错误：" message, not "请求错误：" |
| Ui.ShownAsError | web_scraper_project/web_scraper_app.py:94 | the page shows `st.error` exactly when the result begins with "错误" or with "未知错误" |
| Ui.Preview | web_scraper_project/web_scraper_app.py:102 | the preview is at most 1003 characters; content of at most 1000 characters is shown whole; longer content shows its first 1000 characters followed by "..." |
| Ui.PreviewIdempotent | web_scraper_project/web_scraper_app.py:102 | previewing a preview returns it unchanged |
| Ui.Present | web_scraper_project/web_scraper_app.py:94-108 | an error box is shown exactly when the result starts with "错误" or "未知错误"; otherwise the preview is shown, and the download link with the full character count appears exactly when the result is not empty |
| Ui.DownloadAlwaysOffered | web_scraper_project/web_scraper_app.py:106-108 | whenever content is shown, the download link and the full character count appear, since no result is empty |
| Ui.FaultFlagged | web_scraper_project/web_scraper_app.py:94 | an exception's message is flagged as an error exactly when it is not handled by the RequestException clause of line 65 |
| Ui.BadStatusShownAsContent | web_scraper_project/web_scraper_app.py:94 | for a valid URL, a response with any status other than 200 is rendered as scraped content |
| Ui.PageTextShownAsError | web_scraper_project/web_scraper_app.py:94 | a successful scrape of a page whose text is "错误" is rendered as an error |
| Ui.ScrapeOutcome | web_scraper_project/web_scraper_app.py:16-68 | the typed outcome is a failure exactly when the try-body raised, and it carries the same string `scrape_webpage` returns |
| Ui.PresentOutcome | web_scraper_project/web_scraper_app.py:94-108 | deciding on the tag instead: an error box exactly for a failure, with its message; otherwise the preview, and the download link with the count for non-empty text |
| Ui.TypedPresentFlagsExactlyFailures | web_scraper_project/web_scraper_app.py:94 | with a typed outcome, an error box is shown exactly when scraping failed |
| Ui.PresentAgreesOutsidePrefixCases | web_scraper_project/web_scraper_app.py:94 | the prefix test and the typed outcome render the same page exactly when the failure was not a RequestException-clause one and the successful text does not start with a flagged prefix |

## Findings

| source | as written | input that shows it | evidently intended | confidence | as-written member | corrected member |
|---|---|---|---|---|---|---|
| web_scraper_project/web_scraper_app.py:94 | failures are detected by the prefixes "错误" and "未知错误", but line 66 returns "请求错误：…" | a valid URL answered with status 404 returns "请求错误：请求失败，状态码: 404", which the page shows with "爬取完成！", a preview and a download link | every failure of `scrape_webpage` is shown with `st.error` | medium, not executed | Ui.BadStatusShownAsContent | Ui.TypedPresentFlagsExactlyFailures |
| web_scraper_project/web_scraper_app.py:94 | the same prefix test is applied to successfully scraped text | a 200 `text/html` page whose visible text is "错误" is shown as an error | successful text is always shown as content | low, not executed | Ui.PageTextShownAsError | Ui.TypedPresentFlagsExactlyFailures |

The corrected member relies on `Ui.ScrapeOutcome` and `Ui.PresentOutcome`.
They keep the failure as a tag next to the same strings. `Ui.PresentAgreesOutsidePrefixCases`
shows that the two renderings differ only in the two cases above.

## Left out

- Streamlit page (lines 76-121): widgets, spinner, progress bar, `time.sleep`, the empty-input check of line 82, the catch of lines 109-110 and the usage text. These are presentation only. The decisions of lines 94-108 are modelled without the widgets.
- `requests.get` (line 28): the network I/O, the fixed User-Agent header and the 10-second timeout. Its result is the `Fetch` input.
- `response.apparent_encoding` (line 34): a character-set heuristic of the HTTP library. The page text is taken as already decoded, and an exception at that line is not modelled.
- `urlparse` (line 11): a library parser. Its scheme and netloc, or the exception it raised, are the `UrlParse` input.
- BeautifulSoup parsing and removal of `script`/`style` (lines 41-47): a foreign HTML parser. The extracted text, or the exception parsing raised, is the `Page` input.
- `get_download_link` (lines 70-73): base64 encoding (section 4 of RFC 4648) and HTML formatting for the download link. This is presentation glue.
- Text.LowerChar: maps only Latin-1 capitals. The full Unicode lower-casing of `str.lower()` is not modelled, because `http.client` decodes header values as ISO-8859-1. Outside that range the model leaves characters unchanged.
- Python strings can hold lone surrogates. A Dafny `char` is a Unicode scalar value, so such strings are not modelled.
- Exceptions other than those of the fetch and the parser, such as `MemoryError` raised elsewhere in the try-body, are not modelled as separate inputs. Such an `Exception` would reach the catch-all clause of line 67, which `Handle` models.
- Exceptions that derive only from `BaseException` (`KeyboardInterrupt`, `SystemExit`, `GeneratorExit`) are not modelled: `except Exception` at line 67 does not catch them, so they leave `scrape_webpage` without a result. Every `Fault` stands for an `Exception` instance.
