/**
 * The state of the PDF viewer component (`Sample` in render_pdf.tsx) and the
 * event handlers that update it: the page-number input, the search box, the
 * text-selection handler, zoom, the render-width clamp, the synchronous part
 * of the page-change effect, and the updates applied when a text-extraction
 * fetch completes. The fetch itself is not modelled: its completion is an
 * input to `CompleteFetch`.
 */
module Viewer {
  import opened Wrappers
  import opened Decimal
  import opened JsString
  import opened Highlight

  /** The `maxWidth` constant of the page renderer. */
  const MaxWidth: real := 800.0

  /** Each zoom step multiplies or divides the scale by 1.1. */
  const ZoomStep: real := 1.1

  const InitialZoom: real := 0.9

  const FetchErrorText: string := "Error fetching extracted text."

  /** The parsed JSON body of an extraction response; a field may be missing. */
  datatype ResponseBody = ResponseBody(
    extractedText: Option<map<int, string>>,
    totalPages: Option<int>,
    fileUrl: Option<string>)

  /** What `response.json()` yields: a parse failure, `null`, or an object. */
  datatype Body = NotJson | Null | Object(fields: ResponseBody)

  /** How a fetch ended: the request was rejected, or a response arrived with its `ok` flag and body. */
  datatype Completion = Rejected | Response(ok: bool, body: Body)

  /** Every state variable of the component, as one value. `None` is `undefined`. */
  datatype ViewState = ViewState(
    currentPage: int,
    numPages: Option<int>,
    searchTerm: string,
    currentMatchIndex: int,
    zoom: real,
    loading: bool,
    loadingPage: bool,
    error: bool,
    currentPageText: Option<string>,
    containerWidth: Option<real>,
    extractedText: Option<map<int, string>>,
    publicUrl: Option<string>)

  /**
   * The page-number input's test: the value parsed with `parseInt(value, 10)`
   * is accepted when it is greater than 0 and at most `numPages`. `NaN` and an
   * unknown page count fail both comparisons.
   */
  function AcceptPage(value: string, numPages: Option<int>): (r: Option<int>)
    ensures r.Some? ==> numPages.Some? && 1 <= r.value <= numPages.value
    ensures r.Some? ==> ParseInt(value) == r
    ensures ParseInt(value).Some? && numPages.Some? && 1 <= ParseInt(value).value <= numPages.value ==>
      r == ParseInt(value)
  {
    match ParseInt(value)
    case None => None
    case Some(n) => if n > 0 && numPages.Some? && n <= numPages.value then Some(n) else None
  }

  /** Typing a page number in range, in decimal and possibly followed by non-digits, is accepted. */
  lemma AcceptPageInRange(n: nat, rest: string, numPages: int)
    requires 1 <= n <= numPages
    requires rest == [] || !IsDigit(rest[0])
    ensures AcceptPage(NatToDecimal(n) + rest, Some(numPages)) == Some(n)
  {
    ParseIntOfDecimal(n, rest);
  }

  /**
   * How lenient `parseInt` is on the strings the page test sees: a leading zero
   * and a padded plus sign still give a page, a negative number and a numeral
   * without an integer part (".5") do not. Of these, a number field hands the
   * handler only numerals such as "07" or ".5" (or ""); " +3" shows `parseInt`
   * itself.
   */
  lemma AcceptPageLenient()
    ensures AcceptPage("07", Some(10)) == Some(7)
    ensures AcceptPage(" +3", Some(10)) == Some(3)
    ensures AcceptPage("-5", Some(10)) == None
    ensures AcceptPage(".5", Some(10)) == None
  {
    ParseLeadingZero();
    ParsePaddedPlus();
    ParseNegative();
    ParseIntNoDigits("", ".5");
    assert "" + ".5" == ".5";
  }

  lemma ParseLeadingZero()
    ensures ParseInt("07") == Some(7)
  {
    ParseIntValue("", "", "07", "");
    assert "" + "" + "07" + "" == "07";
    assert DecimalValue("07") == 7 by {
      assert "07"[..1] == "0";
    }
  }

  lemma ParsePaddedPlus()
    ensures ParseInt(" +3") == Some(3)
  {
    ParseIntValue(" ", "+", "3", "");
    assert " " + "+" + "3" + "" == " +3";
  }

  lemma ParseNegative()
    ensures ParseInt("-5") == Some(-5)
  {
    ParseIntValue("", "-", "5", "");
    assert "" + "-" + "5" + "" == "-5";
  }

  /** Typing 0 or a number past the last page is rejected. */
  lemma AcceptPageOutOfRange(n: nat, numPages: int)
    requires n == 0 || n > numPages
    ensures AcceptPage(NatToDecimal(n), Some(numPages)) == None
  {
    ParseIntOfDecimal(n, "");
    assert NatToDecimal(n) + "" == NatToDecimal(n);
  }

  /** An empty (or blank) input, a lone minus sign, or an unknown page count is rejected. */
  lemma AcceptPageRejects(value: string, blank: string, numPages: Option<int>)
    requires AllWhiteSpace(blank)
    ensures AcceptPage(blank, numPages) == None && AcceptPage(blank + "-", numPages) == None
    ensures AcceptPage(value, None) == None
  {
    ParseIntNoDigits(blank, "");
    assert blank + "" == blank;
    ParseIntSignNoDigits(blank, '-', "");
    assert blank + ['-'] + "" == blank + "-";
  }

  class PdfViewer {
    var currentPage: int
    var numPages: Option<int>
    var searchTerm: string
    var currentMatchIndex: int
    var zoom: real
    var loading: bool
    var loadingPage: bool
    var error: bool
    var currentPageText: Option<string>
    var containerWidth: Option<real>
    var extractedText: Option<map<int, string>>
    var publicUrl: Option<string>

    function Snapshot(): ViewState
      reads this
    {
      ViewState(currentPage, numPages, searchTerm, currentMatchIndex, zoom, loading,
        loadingPage, error, currentPageText, containerWidth, extractedText, publicUrl)
    }

    /**
     * What every handler keeps: the page is at least 1, the zoom positive, and
     * no match is ever selected (the only value `currentMatchIndex` ever takes
     * is -1).
     */
    ghost predicate Valid()
      reads this
    {
      currentPage >= 1 && zoom > 0.0 && currentMatchIndex == -1
    }

    /** The initial state of the component, before any fetch has completed. */
    constructor ()
      ensures Valid()
      ensures Snapshot() == ViewState(1, None, "", -1, InitialZoom, true, true, false,
        Some(""), None, None, Some(""))
    {
      currentPage := 1;
      numPages := None;
      searchTerm := "";
      currentMatchIndex := -1;
      zoom := InitialZoom;
      loading := true;
      loadingPage := true;
      error := false;
      currentPageText := Some("");
      containerWidth := None;
      extractedText := None;
      publicUrl := Some("");
    }

    /**
     * The page-number input's change handler: the page changes only to a value
     * `AcceptPage` accepts, which lies in `[1, numPages]`; anything else leaves
     * the whole state unchanged.
     */
    method EnterPage(value: string)
      requires Valid()
      modifies this
      ensures Valid()
      ensures AcceptPage(value, old(numPages)).Some? ==>
        Snapshot() == old(Snapshot()).(currentPage := AcceptPage(value, old(numPages)).value)
      ensures AcceptPage(value, old(numPages)).None? ==> Snapshot() == old(Snapshot())
      ensures currentPage != old(currentPage) ==> numPages.Some? && 1 <= currentPage <= numPages.value
    {
      var pageNum := ParseInt(value);
      if pageNum.Some? && pageNum.value > 0 && numPages.Some? && pageNum.value <= numPages.value {
        currentPage := pageNum.value;
      }
    }

    /** Typing in the search box sets the term as typed and clears the selected match. */
    method TypeSearch(value: string)
      requires Valid()
      modifies this
      ensures Valid()
      ensures Snapshot() == old(Snapshot()).(searchTerm := value, currentMatchIndex := -1)
    {
      searchTerm := value;
      currentMatchIndex := -1;
    }

    /**
     * Releasing the mouse over the text panel makes the trimmed selection the
     * search term, whatever it is: a blank selection clears the term.
     */
    method SelectText(selection: string)
      requires Valid()
      modifies this
      ensures Valid()
      ensures Snapshot() == old(Snapshot()).(searchTerm := Trim(selection))
      ensures AllWhiteSpace(selection) ==> searchTerm == ""
    {
      searchTerm := Trim(selection);
      TrimEmptyIff(selection);
    }

    method ZoomIn()
      requires Valid()
      modifies this
      ensures Valid()
      ensures Snapshot() == old(Snapshot()).(zoom := old(zoom) * ZoomStep)
      ensures zoom > old(zoom)
    {
      zoom := zoom * ZoomStep;
    }

    method ZoomOut()
      requires Valid()
      modifies this
      ensures Valid()
      ensures Snapshot() == old(Snapshot()).(zoom := old(zoom) / ZoomStep)
      ensures zoom < old(zoom)
    {
      zoom := zoom / ZoomStep;
    }

    /** The resize observer reports the container's new width. */
    method Resize(width: real)
      requires Valid()
      modifies this
      ensures Valid()
      ensures Snapshot() == old(Snapshot()).(containerWidth := Some(width))
    {
      containerWidth := Some(width);
    }

    /**
     * The width handed to the page renderer: the container width capped at
     * `MaxWidth`, or `MaxWidth` itself when the width is unknown or 0.
     */
    function RenderWidth(): (w: real)
      reads this
      ensures w <= MaxWidth
      ensures w == MaxWidth || Some(w) == containerWidth
      ensures containerWidth.None? || containerWidth == Some(0.0) ==> w == MaxWidth
      ensures containerWidth.Some? && containerWidth.value != 0.0 && containerWidth.value <= MaxWidth
        ==> w == containerWidth.value
    {
      match containerWidth
      case None => MaxWidth
      case Some(c) => if c == 0.0 then MaxWidth else if c < MaxWidth then c else MaxWidth
    }

    /**
     * The synchronous part of the page-change effect: it raises the page-level
     * loading flag, shows the cached text of the new page when there is a
     * non-empty one, and returns the page the fetch it issues is for.
     */
    method BeginPageFetch() returns (requested: int)
      requires Valid()
      modifies this
      ensures Valid()
      ensures requested == currentPage
      ensures var cached := old(extractedText);
        Snapshot() == old(Snapshot()).(loadingPage := true,
          currentPageText :=
            if cached.Some? && old(currentPage) in cached.value && cached.value[old(currentPage)] != ""
            then Some(cached.value[old(currentPage)])
            else old(currentPageText))
    {
      loadingPage := true;
      requested := currentPage;
      if extractedText.Some? && currentPage in extractedText.value && extractedText.value[currentPage] != "" {
        currentPageText := Some(extractedText.value[currentPage]);
      }
    }

    /**
     * The updates made when the fetch issued for page `requested` completes.
     * Whatever happens, both loading flags end false. A good body stores the
     * texts, shows the requested page's text (`None` when the page has none),
     * and takes the page count and file URL from the body. Every other ending
     * sets the error flag and shows the error text; before failing, a `null`
     * body has already cleared the stored texts and the page count, and an
     * object without `extracted_text` the stored texts. The error flag is
     * never cleared.
     */
    method CompleteFetch(requested: int, c: Completion)
      requires Valid()
      modifies this
      ensures Valid()
      ensures !loading && !loadingPage
      ensures error == (old(error) || !Delivered(c))
      ensures !Delivered(c) ==> currentPageText == Some(FetchErrorText)
      ensures Delivered(c) ==>
        var body := c.body.fields; var texts := body.extractedText.value;
        Snapshot() == old(Snapshot()).(loading := false, loadingPage := false,
          extractedText := Some(texts),
          currentPageText := if requested in texts then Some(texts[requested]) else None,
          numPages := body.totalPages, publicUrl := body.fileUrl)
      ensures !Delivered(c) ==>
        var parsed := c.Response? && c.ok && !c.body.NotJson?;
        Snapshot() == old(Snapshot()).(loading := false, loadingPage := false, error := true,
          currentPageText := Some(FetchErrorText),
          extractedText := if parsed then None else old(extractedText),
          numPages := if parsed && c.body.Null? then None else old(numPages))
    {
      if c.Response? && c.ok && !c.body.NotJson? {
        if c.body.Null? {
          // `data?.…` yields undefined for every field until `data.file_url` throws.
          extractedText := None;
          currentPageText := None;
          numPages := None;
          error := true;
          currentPageText := Some(FetchErrorText);
        } else {
          var body := c.body.fields;
          extractedText := body.extractedText;
          match body.extractedText
          case Some(texts) =>
            currentPageText := if requested in texts then Some(texts[requested]) else None;
            numPages := body.totalPages;
            publicUrl := body.fileUrl;
          case None =>
            error := true;
            currentPageText := Some(FetchErrorText);
        }
      } else {
        error := true;
        currentPageText := Some(FetchErrorText);
      }
      loading := false;
      loadingPage := false;
    }

    /**
     * The extracted-text panel: the current page's text run through
     * `HighlightText` with the search term. `None` stands for the render
     * failing, which happens when the page has no text and the term is not
     * empty; otherwise the panel shows the whole text, in order.
     */
    function Panel(): (r: Option<Highlighted>)
      reads this
      ensures r.None? <==> currentPageText.None? && searchTerm != ""
      ensures r.Some? && searchTerm == "" ==>
        r.value == Unchanged(if currentPageText.Some? then currentPageText.value else "")
      ensures r.Some? && searchTerm != "" ==>
        r.value == HighlightText(currentPageText.value, searchTerm)
        && r.value.Segments? && Concat(Values(r.value.parts)) == currentPageText.value
    {
      match currentPageText
      case None => if searchTerm == "" then Some(Unchanged("")) else None
      case Some(t) =>
        if searchTerm == "" then Some(HighlightText(t, searchTerm))
        else HighlightTextLossless(t, searchTerm); Some(HighlightText(t, searchTerm))
    }

    /**
     * A text item of the rendered page layer, with every occurrence of the term
     * marked; with no term, a mark sits at every position, around each
     * character of the item.
     */
    function TextLayerItem(item: string): (r: string)
      reads this
      ensures searchTerm != "" ==> r == Concat(Wrapped(Split(item, searchTerm)))
      ensures searchTerm == "" ==> r == MarkEveryPosition(item) && |r| == 14 * |item| + 13
      ensures searchTerm == "" ==>
        forall k :: 0 <= k < |item| ==> r[14 * k..14 * k + 13] == "<mark></mark>" && r[14 * k + 13] == item[k]
    {
      MarkEveryPositionLayout(item);
      HighlightPattern(item, searchTerm)
    }
  }

  /** The fetch delivered usable text: an ok response whose body has `extracted_text`. */
  predicate Delivered(c: Completion) {
    c.Response? && c.ok && c.body.Object? && c.body.fields.extractedText.Some?
  }

  /** In exact arithmetic a zoom-out undoes a zoom-in, and both keep the zoom positive. */
  lemma ZoomRoundTrip(z: real)
    requires z > 0.0
    ensures z * ZoomStep / ZoomStep == z
    ensures z * ZoomStep > 0.0 && z / ZoomStep > 0.0
  {
  }
}
