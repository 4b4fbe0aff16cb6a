# PDF parser: search highlighting, viewer state and the extraction flow

The system shows a PDF next to its extracted text. A Next.js component
(`Sample` in `render_pdf.tsx`) renders the page, highlights a search term in
both the rendered text layer and the text panel, and keeps the viewer's state:
the current page, the page count, the search term, the zoom and the loading
and error flags. A Sanic backend (`FileProcessingManager.process`) downloads
the PDF and reads its text layer. It runs OCR instead when no page number, or page 0, is
given, and when the requested page's text layer is empty. Then it uploads the file to MinIO and returns the per-page text with the file's URL.

The model has six modules:

- `Wrappers` holds `Option` and `Result`.
- `Decimal` covers decimal digits and Python's `str` of an integer.
- `JsString` covers JavaScript's `String.prototype.trim` and `parseInt(s, 10)`.
- `Highlight` models `escapeRegExp`, `highlightText` and `highlightPattern`:
  - The escaped term is proved to denote itself literally (`EscapedPatternIsLiteral`).
  - Given that, the global case-insensitive regular expression is modelled as a
    leftmost, non-overlapping, ASCII case-insensitive substring search (`IndexOf`).
  - `String.split` with one capturing group gives the parts `SplitFrom` builds:
    text between matches at even positions, the matches at odd positions.
- `Viewer` models the component's state as the class `PdfViewer`, with one
  method per state-changing handler. The fetch is not modelled; its completion
  is an input to `CompleteFetch`.
- `FileProcessing` models `process` as a method over the results the download,
  the text-layer reader, the OCR engine and the upload produced. It also covers
  the 1-based page maps, the fallback test, the object key and the URL.

## Model

| member | source | states |
|---|---|---|
| Highlight.EscapeRegExp | pdf_parser_frontend/src/app/components/render_pdf.tsx:24 | escaping never shortens the term; a term without syntax characters comes back unchanged, and only such a term keeps its length |
| Highlight.EscapedPatternIsLiteral | pdf_parser_frontend/src/app/components/render_pdf.tsx:137-138 | a pattern of ordinary characters and escaped syntax characters denotes the term `s` exactly when it is `EscapeRegExp(s)`, so the built regex matches the term literally |
| Highlight.MatchesAtIff | pdf_parser_frontend/src/app/components/render_pdf.tsx:138 | the `i` flag: an occurrence at `i` is exactly a slice equal to the term after ASCII lower-casing |
| Highlight.IndexOf | pdf_parser_frontend/src/app/components/render_pdf.tsx:139 | the next occurrence at or after `from` is an occurrence, with none before it; `None` means there is no occurrence at or after `from` |
| Highlight.SplitFromLossless | pdf_parser_frontend/src/app/components/render_pdf.tsx:139 | the split parts concatenate back to the text |
| Highlight.SplitFromAt | pdf_parser_frontend/src/app/components/render_pdf.tsx:139 | part `k` lies at its offset in the text; odd parts are occurrences of the term, even parts contain no start of one |
| Highlight.HighlightText | pdf_parser_frontend/src/app/components/render_pdf.tsx:136 | an empty term returns the text unchanged, and only an empty term does |
| Highlight.HighlightTextLossless | pdf_parser_frontend/src/app/components/render_pdf.tsx:139-152 | for a non-empty term the rendered segments concatenate back to the text |
| Highlight.HighlightTextSegment | pdf_parser_frontend/src/app/components/render_pdf.tsx:139-152 | each segment is the text at its own offset, in its original casing; it is flagged as a match exactly when its index is odd; a flagged one is an occurrence, and no occurrence starts in an unflagged one |
| Highlight.SplitFrom | pdf_parser_frontend/src/app/components/render_pdf.tsx:139 | the split from a position has an odd number of parts: gaps and occurrences alternate, starting and ending with a gap |
| Highlight.Split | pdf_parser_frontend/src/app/components/render_pdf.tsx:139 | `text.split(regex)`: an odd number of parts that concatenate back to the text |
| Highlight.MarkEveryPosition | pdf_parser_frontend/src/app/components/render_pdf.tsx:25-26 | with the empty pattern the result has length n + 13(n+1) for a text of length n, and starts and ends with `<mark></mark>` |
| Highlight.MarkEveryPositionLayout | pdf_parser_frontend/src/app/components/render_pdf.tsx:25-26 | with the empty pattern, character k of the text sits right after the k-th `<mark></mark>`: a mark at every position, the text unchanged between them |
| Highlight.MarkFrom | pdf_parser_frontend/src/app/components/render_pdf.tsx:26 | the replacement adds exactly one mark pair (13 characters) per occurrence, that is per odd split part |
| Highlight.HighlightPattern | pdf_parser_frontend/src/app/components/render_pdf.tsx:23-27 | for a non-empty pattern the output is the split parts with every occurrence wrapped in `<mark>`/`</mark>` and everything else unchanged; the empty pattern marks every position, giving length 14n+13 |
| Highlight.MarkFromWrapsMatches | pdf_parser_frontend/src/app/components/render_pdf.tsx:26 | the replacement scan from any position equals the wrapped split from that position |
| Highlight.EmptyTermAsymmetry | pdf_parser_frontend/src/app/components/render_pdf.tsx:23-27 | for the empty term, `highlightText` returns the text while `highlightPattern` changes it, to length 14n+13 for a text of length n |
| Highlight.NoOccurrence | pdf_parser_frontend/src/app/components/render_pdf.tsx:23-27 | when the term does not occur, `highlightPattern` returns the text and `highlightText` returns one unflagged segment holding it |
| JsString.LeadingWhiteSpace | pdf_parser_frontend/src/app/components/render_pdf.tsx:73 | counts the maximal run of JavaScript white space at the start |
| JsString.Trim | pdf_parser_frontend/src/app/components/render_pdf.tsx:73 | `trim()` is no longer than its input and neither starts nor ends with white space |
| JsString.TrimIsCore | pdf_parser_frontend/src/app/components/render_pdf.tsx:73 | `trim()` is the slice between the leading and trailing white space; it neither starts nor ends with white space |
| JsString.TrimIdempotent | pdf_parser_frontend/src/app/components/render_pdf.tsx:73 | trimming twice is trimming once |
| JsString.TrimEmptyIff | pdf_parser_frontend/src/app/components/render_pdf.tsx:73 | the trimmed selection is empty exactly when the selection is all white space |
| JsString.DigitPrefix | pdf_parser_frontend/src/app/components/render_pdf.tsx:240 | the maximal run of leading decimal digits |
| JsString.ParseInt | pdf_parser_frontend/src/app/components/render_pdf.tsx:240 | `parseInt(s, 10)`: blank input is `NaN`, and input starting with a digit parses to a non-negative number; `ParseIntValue`, `ParseIntNoDigits` and `ParseIntSignNoDigits` give the value or `NaN` for every shape of input |
| JsString.ParseIntValue | pdf_parser_frontend/src/app/components/render_pdf.tsx:240 | white space, an optional `+` or `-`, digits (leading zeros allowed), then anything not starting with a digit: the value is the digits' value, negated after `-` |
| JsString.ParseIntOfDecimal | pdf_parser_frontend/src/app/components/render_pdf.tsx:240 | `parseInt` reads back a decimal numeral, whatever non-digit text follows it |
| JsString.ParseIntNoDigits | pdf_parser_frontend/src/app/components/render_pdf.tsx:240 | white space followed by nothing, or by a character that is neither a digit nor a sign (".5", "abc"), is `NaN` |
| JsString.ParseIntSignNoDigits | pdf_parser_frontend/src/app/components/render_pdf.tsx:240 | white space and a sign followed by nothing or by a non-digit ("-", "-.5") is `NaN` |
| Decimal.DecimalRoundTrip | pdf_parser_backend/managers/file_processing_manager.py:59 | the decimal numeral of `n` has value `n` |
| Decimal.IntToDecimalInjective | pdf_parser_backend/managers/file_processing_manager.py:59 | different integers print differently |
| Viewer.AcceptPage | pdf_parser_frontend/src/app/components/render_pdf.tsx:240-241 | a page is accepted exactly when the parsed value lies in `[1, numPages]`, and then it is that value |
| Viewer.AcceptPageLenient | pdf_parser_frontend/src/app/components/render_pdf.tsx:240-241 | how lenient `parseInt` is: "07" gives page 7 and " +3" page 3; "-5" and ".5" are rejected |
| Viewer.AcceptPageInRange | pdf_parser_frontend/src/app/components/render_pdf.tsx:240-241 | a typed page number in `[1, numPages]` is accepted, even when non-digits follow it |
| Viewer.AcceptPageOutOfRange | pdf_parser_frontend/src/app/components/render_pdf.tsx:240-241 | 0 and numbers past the last page are rejected |
| Viewer.AcceptPageRejects | pdf_parser_frontend/src/app/components/render_pdf.tsx:240-241 | blank input and a lone minus sign (`NaN`) are rejected whatever the page count, and every input is rejected while the page count is unknown |
| Viewer.PdfViewer.constructor | pdf_parser_frontend/src/app/components/render_pdf.tsx:32-45 | the initial state: page 1, no page count, empty term, match index -1, zoom 0.9, both loading flags set, no error |
| Viewer.PdfViewer.EnterPage | pdf_parser_frontend/src/app/components/render_pdf.tsx:239-245 | the page becomes the accepted value and nothing else changes; rejected input changes nothing; a changed page lies in `[1, numPages]` |
| Viewer.PdfViewer.TypeSearch | pdf_parser_frontend/src/app/components/render_pdf.tsx:229-232 | the term becomes the typed value and the match index -1; nothing else changes |
| Viewer.PdfViewer.SelectText | pdf_parser_frontend/src/app/components/render_pdf.tsx:71-75 | the term becomes the trimmed selection, so a blank selection clears it; nothing else changes |
| Viewer.PdfViewer.ZoomIn | pdf_parser_frontend/src/app/components/render_pdf.tsx:61-63 | the zoom is multiplied by 1.1 and grows and stays positive; nothing else changes |
| Viewer.PdfViewer.ZoomOut | pdf_parser_frontend/src/app/components/render_pdf.tsx:65-67 | the zoom is divided by 1.1 and shrinks and stays positive; nothing else changes |
| Viewer.ZoomRoundTrip | pdf_parser_frontend/src/app/components/render_pdf.tsx:61-67 | in exact arithmetic a zoom-out undoes a zoom-in |
| Viewer.PdfViewer.Resize | pdf_parser_frontend/src/app/components/render_pdf.tsx:48-54 | the container width becomes the observed width; nothing else changes (see "Left out": the program as written never reaches this) |
| Viewer.PdfViewer.RenderWidth | pdf_parser_frontend/src/app/components/render_pdf.tsx:190 | the page width is at most 800; it is 800 when the width is unknown or 0, and the container width when that is smaller |
| Viewer.PdfViewer.BeginPageFetch | pdf_parser_frontend/src/app/components/render_pdf.tsx:127-133 | a page change raises the page-loading flag, shows the cached text of the new page when there is a non-empty one, and requests the current page |
| Viewer.PdfViewer.CompleteFetch | pdf_parser_frontend/src/app/components/render_pdf.tsx:87-102 | both loading flags end false; a good body stores the texts, shows the requested page's text and takes the page count and URL; every failure sets the error flag and shows the error text, which nothing clears; the fields set before a failing step stay set |
| Viewer.PdfViewer.Panel | pdf_parser_frontend/src/app/components/render_pdf.tsx:202 | the text panel is `highlightText` of the current text and term, so every occurrence is a flagged segment (`HighlightTextSegment`); it shows all of the current text, in order, and with no term exactly the current text; it fails only when there is no text and a term is set |
| Viewer.PdfViewer.TextLayerItem | pdf_parser_frontend/src/app/components/render_pdf.tsx:56-59 | a rendered text item has each occurrence of the term wrapped in a mark; with no term, `<mark></mark>` sits before each character and at the end, and the characters are unchanged between the marks |
| FileProcessing.PageAt | pdf_parser_backend/managers/file_processing_manager.py:80 | Python indexing: a page exists exactly for indexes in `[-n, n)`; a non-negative index reads that page and a negative one counts from the end |
| FileProcessing.KeyPages | pdf_parser_backend/managers/file_processing_manager.py:83 | the keys are exactly `1..n`, and key `i+1` holds page `i` |
| FileProcessing.KeyPagesRoundTrip | pdf_parser_backend/managers/file_processing_manager.py:83 | reading keys `1..n` back in order gives the pages |
| FileProcessing.KeyedText | pdf_parser_backend/managers/file_processing_manager.py:79-83 | with a truthy page number, the only key is that number and it holds page `page_number - 1`, and an index outside the document fails; otherwise every page under its 1-based number |
| FileProcessing.ExtractText | pdf_parser_backend/managers/file_processing_manager.py:76-83 | an unreadable document fails with its error; a page lookup outside the document fails with the lookup's fault; otherwise the keyed text layer with the document's page count |
| FileProcessing.OcrText | pdf_parser_backend/managers/file_processing_manager.py:96-109 | an OCR failure is passed on; otherwise the OCR texts keyed exactly like the text layer |
| FileProcessing.NeedsOcr | pdf_parser_backend/managers/file_processing_manager.py:50 | without a page number OCR is always needed, since no key is `None`; OCR is skipped only when the map is non-empty |
| FileProcessing.OcrFallback | pdf_parser_backend/managers/file_processing_manager.py:50-52 | OCR is skipped exactly when a truthy page number's text-layer text is non-empty, so it always runs without a page number |
| FileProcessing.FileName | pdf_parser_backend/managers/file_processing_manager.py:59 | the key is `uploads/<ts>_page_<n>.pdf` for a truthy page number and `uploads/<ts>.pdf` otherwise |
| FileProcessing.FileNamesDistinct | pdf_parser_backend/managers/file_processing_manager.py:59 | within one timestamp, different pages, or a page and the whole file, get different keys |
| FileProcessing.FileUrl | pdf_parser_backend/managers/file_processing_manager.py:135 | the URL is `http://localhost:9000/` followed by the bucket, a slash and the key, each stated at its place in the URL |
| FileProcessing.FileUrlRoundTrip | pdf_parser_backend/managers/file_processing_manager.py:135 | the key can be read back from the URL |
| FileProcessing.Process | pdf_parser_backend/managers/file_processing_manager.py:33-66 | a failed download raises; extraction or OCR failure is exactly the 500 case, and the 500 carries the fault of the step that failed; a 400 happens exactly for OCR of zero images without a page number, with no upload; a success holds a non-empty map, the text layer's page count and the uploaded key's URL, and its text is the non-empty text-layer page or else the OCR text; upload failures raise with their messages |

## Left out

- Rendering: react-pdf's `Document` and `Page`, the pdf.js worker and all styling are a foreign library and UI. `TextLayerItem` and `Panel` give the strings the renderer is handed.
- Browser plumbing: the `mouseup` listener, the resize observer hook and the `matchesRef` element pushes are not modelled. `currentMatchIndex` is only ever set to -1, and `Valid` records that.
- The fetch is not modelled. The request, the mount-time fetch, and stale responses overwriting newer ones are concurrency. `CompleteFetch` takes the ending of one fetch as an input.
- JSON object keys are strings in the response and numbers in the lookup. The model keys the page texts by integer.
- Viewer.PdfViewer.ZoomIn: the zoom is a `real`, not a binary float. The inverse holds in exact arithmetic only.
- Viewer.PdfViewer.RenderWidth: `NaN` widths are not modelled.
- Highlight.MatchesAtIff: case folding is ASCII only. The regex `i` flag and `toLowerCase` differ on some non-ASCII characters, and that is not modelled.
- JsString.ParseInt: the value is exact. The double precision of very long numerals is not modelled.
- Viewer.PdfViewer.Panel: rendering `undefined` text with an empty term is shown as empty text.
- The download, PyMuPDF, pdf2image, Tesseract, boto3 and MinIO are given as results. So are bucket creation, the single-page copy made before upload, and `asyncio`.
- The timestamp from `datetime.now()` and the bucket name from the configuration are inputs to `Process`.
- FileProcessing.PageAt: PyMuPDF's `load_page` is modelled with Python's indexing rule. The library's own handling of indexes below `-n` is not part of this model.
- `routes/extract_text_pdf.py` and `app.py` are server wiring and not part of this model. That includes the route's 400 for a missing `pdf_url`, and the route wrapping `process`'s error responses in `json()` a second time.
- The selection handler sets the trimmed selection unconditionally, so a blank selection clears the search term.
- Characters are Unicode code points. JavaScript strings are UTF-16 code units, and the patterns have no `u` flag. So the counts for the empty pattern agree with JavaScript only for text inside the Basic Multilingual Plane (U+0000 to U+FFFF). This affects `MarkEveryPosition`, `MarkEveryPositionLayout`, `HighlightPattern` and `EmptyTermAsymmetry`. Outside that plane JavaScript also puts a mark between the two halves of a surrogate pair.
- FileProcessing.Process: a `Failure` of `download` stands for an `aiohttp.ClientError`, the only exception given the "Failed to download PDF: " prefix. Other download exceptions propagate unchanged, for example a timeout or a URL that is not a string. They are not modelled.
- Viewer.PdfViewer.Resize: `setContainerRef` is never called, so the observed element stays `null`. Reading the code, the resize callback never fires, `containerWidth` stays undefined and the page renders at width 800. `Resize` models the transition the callback would make.
