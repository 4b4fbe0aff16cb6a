/**
 * The decision flow of `FileProcessingManager.process`: download the PDF,
 * extract its text layer, fall back to OCR, refuse an empty result, upload
 * the file and report where it went. The download, the text-layer reader,
 * the OCR engine and the object store are not modelled; each is given as the
 * result it produced.
 */
module FileProcessing {
  import opened Wrappers
  import opened Decimal

  /** Why extraction or OCR failed: a library error, or a page index outside the document. */
  datatype Fault = Failed(message: string) | PageOutOfRange(index: int)

  /**
   * What the libraries make of the downloaded bytes: the text layer of each
   * page, in order, or the error opening the document; and the OCR text of
   * each page image, in order, or the error converting or reading them.
   */
  datatype Document = Document(textLayer: Result<seq<string>, string>, ocr: Result<seq<string>, string>)

  /** How the upload to the object store ended. */
  datatype Upload = Stored | NoCredentials(reason: string) | UploadError(reason: string)

  /** The text-layer extraction's result: texts keyed by 1-based page, and the document's page count. */
  datatype Extraction = Extraction(text: map<int, string>, totalPages: nat)

  /**
   * What `process` does: raise an exception with a message, return an error
   * response with a status, or return the success record.
   */
  datatype Outcome =
    | Raised(message: string)
    | ErrorResponse(status: int, error: Fault)
    | Processed(extractedText: map<int, string>, fileUrl: string, totalPages: nat)

  const NoTextMessage: string := "No text found in the PDF"

  /** Python truthiness of the optional page number: absent and 0 are false. */
  predicate Truthy(pageNumber: Option<int>) {
    pageNumber.Some? && pageNumber.value != 0
  }

  /** Python sequence indexing: `i` counts from the end when negative. */
  function PageAt(pages: seq<string>, i: int): (r: Option<string>)
    ensures r.Some? <==> -|pages| <= i < |pages|
    ensures -|pages| <= i < 0 ==> r == Some(pages[|pages| + i])
    ensures 0 <= i < |pages| ==> r == Some(pages[i])
  {
    if 0 <= i < |pages| then Some(pages[i])
    else if -|pages| <= i < 0 then Some(pages[|pages| + i])
    else None
  }

  /** The texts of all pages keyed by 1-based page number. */
  function KeyPages(pages: seq<string>): (m: map<int, string>)
    ensures forall k :: k in m <==> 1 <= k <= |pages|
    ensures forall i :: 0 <= i < |pages| ==> m[i + 1] == pages[i]
    decreases |pages|
  {
    if pages == [] then map[]
    else KeyPages(pages[..|pages| - 1])[|pages| := pages[|pages| - 1]]
  }

  /** Reads keyed pages 1..n back in order. */
  function PagesInOrder(m: map<int, string>, n: nat): (pages: seq<string>)
    requires forall k :: 1 <= k <= n ==> k in m
    ensures |pages| == n
  {
    seq(n, i requires 0 <= i < n => m[i + 1])
  }

  /** Keying the pages loses nothing: reading keys 1..n back gives the pages. */
  lemma KeyPagesRoundTrip(pages: seq<string>)
    ensures PagesInOrder(KeyPages(pages), |pages|) == pages
  {
    var m := KeyPages(pages);
    var back := PagesInOrder(m, |pages|);
    forall i | 0 <= i < |pages|
      ensures back[i] == pages[i]
    {
      assert m[i + 1] == pages[i];
    }
  }

  /**
   * The map built by the extractor and the OCR step from a document's pages:
   * with a truthy page number only that page, under its own number, read at
   * index `page_number - 1`; otherwise every page under its 1-based number.
   */
  function KeyedText(pages: seq<string>, pageNumber: Option<int>): (r: Result<map<int, string>, Fault>)
    ensures r.Failure? <==> Truthy(pageNumber) && PageAt(pages, pageNumber.value - 1).None?
    ensures r.Failure? ==> r.error == PageOutOfRange(pageNumber.value - 1)
    ensures r.Success? && Truthy(pageNumber) ==>
      r.value.Keys == {pageNumber.value} && Some(r.value[pageNumber.value]) == PageAt(pages, pageNumber.value - 1)
    ensures r.Success? && !Truthy(pageNumber) ==> r.value == KeyPages(pages)
  {
    if Truthy(pageNumber) then
      match PageAt(pages, pageNumber.value - 1)
      case None => Failure(PageOutOfRange(pageNumber.value - 1))
      case Some(text) => Success(map[pageNumber.value := text])
    else Success(KeyPages(pages))
  }

  /** `extract_text_from_pdf`: the keyed text layer and the document's page count. */
  function ExtractText(textLayer: Result<seq<string>, string>, pageNumber: Option<int>): (r: Result<Extraction, Fault>)
    ensures textLayer.Failure? ==> r == Failure(Failed(textLayer.error))
    ensures textLayer.Success? ==>
      (r.Success? <==> KeyedText(textLayer.value, pageNumber).Success?)
    ensures textLayer.Success? && KeyedText(textLayer.value, pageNumber).Failure? ==>
      r == Failure(KeyedText(textLayer.value, pageNumber).error)
    ensures r.Success? ==>
      textLayer.Success? &&
      r.value == Extraction(KeyedText(textLayer.value, pageNumber).value, |textLayer.value|)
  {
    match textLayer
    case Failure(e) => Failure(Failed(e))
    case Success(pages) =>
      match KeyedText(pages, pageNumber)
      case Failure(f) => Failure(f)
      case Success(m) => Success(Extraction(m, |pages|))
  }

  /** `ocr_from_pdf`: the keyed OCR text. */
  function OcrText(ocr: Result<seq<string>, string>, pageNumber: Option<int>): (r: Result<map<int, string>, Fault>)
    ensures ocr.Failure? ==> r == Failure(Failed(ocr.error))
    ensures ocr.Success? ==> r == KeyedText(ocr.value, pageNumber)
  {
    match ocr
    case Failure(e) => Failure(Failed(e))
    case Success(pages) => KeyedText(pages, pageNumber)
  }

  /**
   * The fallback test `not extracted_text.get(page_number)`: OCR runs unless
   * the map holds a non-empty text under the page number. No integer key is
   * `None`, so without a page number it always runs.
   */
  predicate NeedsOcr(text: map<int, string>, pageNumber: Option<int>)
    ensures pageNumber.None? ==> NeedsOcr(text, pageNumber)
    ensures !NeedsOcr(text, pageNumber) ==> text != map[]
  {
    !(pageNumber.Some? && pageNumber.value in text && text[pageNumber.value] != "")
  }

  /**
   * OCR is skipped exactly when a truthy page number was asked for and the
   * text layer has a non-empty text for it; in particular it always runs when
   * the page number is absent or 0.
   */
  lemma OcrFallback(pages: seq<string>, pageNumber: Option<int>)
    requires KeyedText(pages, pageNumber).Success?
    ensures !NeedsOcr(KeyedText(pages, pageNumber).value, pageNumber) <==>
      Truthy(pageNumber) && PageAt(pages, pageNumber.value - 1) != Some("")
    ensures !Truthy(pageNumber) ==> NeedsOcr(KeyedText(pages, pageNumber).value, pageNumber)
  {
    if pageNumber == Some(0) {
      assert 0 !in KeyPages(pages);
    }
  }

  /** The object key: `uploads/<ts>_page_<n>.pdf` for a truthy page number, `uploads/<ts>.pdf` otherwise. */
  function FileName(timestamp: string, pageNumber: Option<int>): (name: string)
    ensures Truthy(pageNumber) ==>
      name == "uploads/" + timestamp + "_page_" + IntToDecimal(pageNumber.value) + ".pdf"
    ensures !Truthy(pageNumber) ==> name == "uploads/" + timestamp + ".pdf"
  {
    var stem := "uploads/" + timestamp;
    if Truthy(pageNumber) then stem + "_page_" + IntToDecimal(pageNumber.value) + ".pdf"
    else stem + ".pdf"
  }

  /** Within one timestamp, different pages, and a page versus the whole file, get different keys. */
  lemma FileNamesDistinct(timestamp: string, a: Option<int>, b: Option<int>)
    requires Truthy(a) || Truthy(b)
    requires a != b
    ensures FileName(timestamp, a) != FileName(timestamp, b)
  {
    var stem := "uploads/" + timestamp;
    var na := FileName(timestamp, a);
    var nb := FileName(timestamp, b);
    if Truthy(a) && Truthy(b) && na == nb {
      var da := IntToDecimal(a.value);
      var db := IntToDecimal(b.value);
      assert da == na[|stem| + 6..|na| - 4];
      assert db == nb[|stem| + 6..|nb| - 4];
      IntToDecimalInjective(a.value, b.value);
    }
  }

  const UrlBase: string := "http://localhost:9000/"

  /** The URL the upload returns for a key in a bucket. */
  function FileUrl(bucket: string, key: string): (url: string)
    ensures |url| == |UrlBase| + |bucket| + 1 + |key|
    ensures url[..|UrlBase|] == UrlBase
    ensures url[|UrlBase|..|UrlBase| + |bucket|] == bucket && url[|UrlBase| + |bucket|] == '/'
    ensures url[|UrlBase| + |bucket| + 1..] == key
  {
    UrlBase + bucket + "/" + key
  }

  /** The key read back from a URL of a known bucket. */
  function KeyOfUrl(bucket: string, url: string): string {
    var start := |UrlBase| + |bucket| + 1;
    if start <= |url| then url[start..] else ""
  }

  /** The URL determines the key it was built from. */
  lemma FileUrlRoundTrip(bucket: string, key: string)
    ensures KeyOfUrl(bucket, FileUrl(bucket, key)) == key
  {
    var url := FileUrl(bucket, key);
    assert url == (UrlBase + bucket + "/") + key;
  }

  /** The extraction fails, or it succeeds, OCR is needed, and OCR fails: a 500. */
  predicate ServerError(doc: Document, pageNumber: Option<int>) {
    var extraction := ExtractText(doc.textLayer, pageNumber);
    extraction.Failure? ||
    (NeedsOcr(extraction.value.text, pageNumber) && OcrText(doc.ocr, pageNumber).Failure?)
  }

  /** The only way to a 400: a readable document, no truthy page number, and OCR of zero images. */
  predicate NoText(doc: Document, pageNumber: Option<int>) {
    !Truthy(pageNumber) && doc.textLayer.Success? && doc.ocr == Success([])
  }

  /**
   * `process`. A failed download raises. A failed extraction or OCR returns a
   * 500 carrying the fault; an empty final map returns a 400 and uploads
   * nothing. Otherwise the file is uploaded under `FileName` (`uploaded` is
   * the key it was uploaded under) and the success record holds the final
   * map, the URL and the text layer's page count, or the upload's failure is
   * raised.
   */
  method Process(pageNumber: Option<int>, download: Result<Document, string>, timestamp: string,
                 bucket: string, upload: Upload)
    returns (out: Outcome, uploaded: Option<string>)
    ensures download.Failure? ==> out == Raised("Failed to download PDF: " + download.error) && uploaded.None?
    ensures out.ErrorResponse? ==>
      uploaded.None? && (out.status == 500 || out == ErrorResponse(400, Failed(NoTextMessage)))
    ensures download.Success? ==>
      (out.ErrorResponse? && out.status == 500 <==> ServerError(download.value, pageNumber))
    ensures download.Success? && out.ErrorResponse? && out.status == 500 ==>
      var extraction := ExtractText(download.value.textLayer, pageNumber);
      out.error == (if extraction.Failure? then extraction.error
                    else OcrText(download.value.ocr, pageNumber).error)
    ensures download.Success? ==>
      (out.ErrorResponse? && out.status == 400 <==> NoText(download.value, pageNumber))
    ensures uploaded.Some? <==> download.Success? && !out.ErrorResponse?
    ensures uploaded.Some? ==> uploaded.value == FileName(timestamp, pageNumber)
    ensures uploaded.Some? ==> match upload
      case Stored => out.Processed? && out.fileUrl == FileUrl(bucket, uploaded.value)
      case NoCredentials(r) => out == Raised("Credentials not found: " + r)
      case UploadError(r) => out == Raised("Error uploading file to MinIO: " + r)
    ensures out.Processed? ==>
      download.Success? && download.value.textLayer.Success? &&
      out.totalPages == |download.value.textLayer.value| && out.extractedText != map[]
    ensures out.Processed? && Truthy(pageNumber) ==>
      var pages := download.value.textLayer.value;
      var text := PageAt(pages, pageNumber.value - 1).value;
      out.extractedText.Keys == {pageNumber.value} &&
      (text != "" ==> out.extractedText[pageNumber.value] == text) &&
      (text == "" ==> Some(out.extractedText[pageNumber.value]) ==
                      PageAt(download.value.ocr.value, pageNumber.value - 1))
    ensures out.Processed? && !Truthy(pageNumber) ==>
      download.value.ocr.Success? && out.extractedText == KeyPages(download.value.ocr.value)
  {
    uploaded := None;
    if download.Failure? {
      out := Raised("Failed to download PDF: " + download.error);
      return;
    }
    var doc := download.value;

    var extractedText: map<int, string> := map[];
    var totalPages: nat := 0;

    var extraction := ExtractText(doc.textLayer, pageNumber);
    if extraction.Failure? {
      out := ErrorResponse(500, extraction.error);
      return;
    }
    extractedText, totalPages := extraction.value.text, extraction.value.totalPages;
    OcrFallback(doc.textLayer.value, pageNumber);

    if NeedsOcr(extractedText, pageNumber) {
      var ocr := OcrText(doc.ocr, pageNumber);
      if ocr.Failure? {
        out := ErrorResponse(500, ocr.error);
        return;
      }
      extractedText := ocr.value;
    }

    if extractedText == map[] {
      out := ErrorResponse(400, Failed(NoTextMessage));
      return;
    }

    var fileName := FileName(timestamp, pageNumber);
    uploaded := Some(fileName);
    match upload
    case Stored =>
      out := Processed(extractedText, FileUrl(bucket, fileName), totalPages);
    case NoCredentials(r) =>
      out := Raised("Credentials not found: " + r);
    case UploadError(r) =>
      out := Raised("Error uploading file to MinIO: " + r);
  }
}
