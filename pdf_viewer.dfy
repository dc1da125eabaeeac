/** The page cursor and render queue of `PDFViewer` (js/pdf-viewer.js), the button states it
    writes and the file name of its download link. pdf.js is not part of this model: what the
    library settles asynchronously (a document loaded or not, a page rendered or not) is an event
    method of its own, called in whatever order the promises settle. */
module PdfView {
  import opened Options
  import opened JsText

  /** The `disabled` flags of the toolbar buttons. */
  datatype Controls = Controls(prev: bool, next: bool, zoomIn: bool, zoomOut: bool, download: bool, fullscreen: bool)

  /** The pages the cursor may hold while `doc` is the page count of the loaded document
      (`None` while `pdfDoc` is null): page 1, where the viewer starts and where every load
      puts it, and otherwise a page of the document. */
  predicate OnPage(p: int, doc: Option<nat>)
  {
    p == 1 || (doc.Some? && 1 <= p <= doc.value)
  }

  /** Where `onPrevPage` leaves the cursor: one page back, unless there is no document or the
      cursor is on page 1 or before. */
  function PrevTarget(p: int, doc: Option<nat>): int
  {
    if doc.None? || p <= 1 then p else p - 1
  }

  /** Where `onNextPage` leaves the cursor: one page on, unless there is no document or the
      cursor is on its last page or beyond. */
  function NextTarget(p: int, doc: Option<nat>): int
  {
    if doc.None? || p >= doc.value then p else p + 1
  }

  /** Both moves keep the cursor on a page of the document. */
  lemma TargetsStayOnPage(p: int, doc: Option<nat>)
    requires OnPage(p, doc)
    ensures OnPage(PrevTarget(p, doc), doc) && OnPage(NextTarget(p, doc), doc)
  {
  }

  /** A move that is not a no-op is undone by the opposite move. */
  lemma TargetsInverse(p: int, doc: Option<nat>)
    requires OnPage(p, doc)
    ensures NextTarget(p, doc) != p ==> PrevTarget(NextTarget(p, doc), doc) == p
    ensures PrevTarget(p, doc) != p ==> NextTarget(PrevTarget(p, doc), doc) == p
  {
  }

  /** The prev and next flags `updatePageInfo` writes for page `p` of `numPages`. */
  function PageInfoFlags(p: int, numPages: nat): (disabled: (bool, bool))
  {
    (p <= 1, p >= numPages)
  }

  /** Once a document is loaded, a button is disabled exactly when its move would do nothing. */
  lemma PageInfoFlagsIffNoOp(p: int, numPages: nat)
    ensures PageInfoFlags(p, numPages).0 <==> PrevTarget(p, Some(numPages)) == p
    ensures PageInfoFlags(p, numPages).1 <==> NextTarget(p, Some(numPages)) == p
  {
  }

  /** `this.pdfDoc?.numPages || 1`: the page count, with a missing document or a count of 0
      both reading as 1. */
  function PageCountOrOne(doc: Option<nat>): nat
  {
    if doc.Some? && doc.value != 0 then doc.value else 1
  }

  /** The flags `enableControls(enabled)` writes; the fullscreen button, which the page may lack,
      keeps its flag when absent. */
  function EnabledControls(enabled: bool, p: int, doc: Option<nat>, hasFullscreen: bool, was: Controls): (c: Controls)
  {
    Controls(!enabled || p <= 1, !enabled || p >= PageCountOrOne(doc), !enabled, !enabled, !enabled,
             if hasFullscreen then !enabled else was.fullscreen)
  }

  /** `enableControls(false)` disables every button there is, and `enableControls(true)` enables
      zooming and downloading and sets prev and next as `updatePageInfo` would. */
  lemma EnabledControlsFacts(p: int, doc: Option<nat>, hasFullscreen: bool, was: Controls)
    ensures var c := EnabledControls(false, p, doc, hasFullscreen, was);
      c.prev && c.next && c.zoomIn && c.zoomOut && c.download && (hasFullscreen ==> c.fullscreen)
    ensures var c := EnabledControls(true, p, doc, hasFullscreen, was);
      && !c.zoomIn && !c.zoomOut && !c.download && (hasFullscreen ==> !c.fullscreen)
      && (doc.Some? && doc.value > 0 ==> (c.prev, c.next) == PageInfoFlags(p, doc.value))
  {
  }

  /** `[\w\-]`: the characters the download name keeps. */
  predicate IsNameChar(c: char)
  {
    IsWordChar(c) || c == '-'
  }

  /** `replace(/[^\w\-]/g, '_')`: every other character becomes an underscore. */
  function Sanitize(t: string): (r: string)
    ensures |r| == |t|
    ensures forall k :: 0 <= k < |t| ==> IsNameChar(r[k])
    ensures forall k :: 0 <= k < |t| ==> if IsNameChar(t[k]) then r[k] == t[k] else r[k] == '_'
  {
    if t == [] then []
    else [if IsNameChar(t[0]) then t[0] else '_'] + Sanitize(t[1..])
  }

  /** Sanitizing a sanitized name changes nothing. */
  lemma SanitizeIdempotent(t: string)
    ensures Sanitize(Sanitize(t)) == Sanitize(t)
  {
    var r := Sanitize(t);
    assert Sanitize(r) == r by {
      forall k | 0 <= k < |r| ensures Sanitize(r)[k] == r[k] {
      }
    }
  }

  /** A title is left as it is exactly when it has no character to replace. */
  lemma SanitizeIdentity(t: string)
    ensures Sanitize(t) == t <==> forall k :: 0 <= k < |t| ==> IsNameChar(t[k])
  {
    if forall k :: 0 <= k < |t| ==> IsNameChar(t[k]) {
      forall k | 0 <= k < |t| ensures Sanitize(t)[k] == t[k] {
      }
    }
  }

  /** The name `downloadPdf` gives the file. */
  function DownloadName(title: string): (name: string)
    ensures |name| == |title| + 4 && name[|title|..] == ".pdf"
    ensures forall k :: 0 <= k < |title| ==> IsNameChar(name[k])
    ensures name[..|title|] == Sanitize(title)
  {
    Sanitize(title) + ".pdf"
  }

  /** What a click on the download button fetches and under which name. */
  datatype Download = Download(href: string, fileName: string)

  class PdfViewer {
    /** `pdfDoc`, by its page count. */
    var numPages: Option<nat>
    var pageNum: int
    var pageRendering: bool
    var pageNumPending: Option<int>
    var currentPdfUrl: Option<string>
    /** The text of the document title element. */
    var title: string
    var controls: Controls
    /** Whether the page has a fullscreen button (`this.fullscreenButton?.…`). */
    const hasFullscreen: bool
    /** The pages of the renders started so far, in order. */
    ghost var renders: seq<int>
    /** Renders started whose promise has not settled yet. */
    ghost var inFlight: nat

    /** The event bookkeeping: renders are only ever in flight for a loaded document, and one
        is while `pageRendering` is set. */
    ghost predicate Tracked()
      reads this
    {
      && (inFlight > 0 ==> numPages.Some?)
      && (pageRendering ==> inFlight > 0)
    }

    /** The cursor stays on a page of the document, and so does a pending request. */
    ghost predicate Valid()
      reads this
    {
      && Tracked()
      && OnPage(pageNum, numPages)
      && (pageNumPending.Some? ==> OnPage(pageNumPending.value, numPages))
    }

    /** `new PDFViewer()` over the page's markup: the title element's text and the buttons'
        initial flags. */
    constructor(title: string, markup: Controls, hasFullscreen: bool)
      ensures Valid()
      ensures numPages == None && pageNum == 1 && !pageRendering && pageNumPending == None
      ensures currentPdfUrl == None && this.title == title && controls == markup
      ensures this.hasFullscreen == hasFullscreen && renders == [] && inFlight == 0
    {
      numPages := None;
      pageNum := 1;
      pageRendering := false;
      pageNumPending := None;
      currentPdfUrl := None;
      this.title := title;
      controls := markup;
      this.hasFullscreen := hasFullscreen;
      renders := [];
      inFlight := 0;
    }

    /** The part of `loadPDF(url, title)` before it waits for pdf.js: the URL is kept for
        downloading and the title shown. */
    method BeginLoad(url: string, title: string)
      requires Tracked()
      modifies this
      ensures Tracked() && (old(Valid()) ==> Valid())
      ensures currentPdfUrl == Some(url) && this.title == title
      ensures numPages == old(numPages) && pageNum == old(pageNum) && pageRendering == old(pageRendering)
      ensures pageNumPending == old(pageNumPending) && controls == old(controls)
      ensures renders == old(renders) && inFlight == old(inFlight)
    {
      currentPdfUrl := Some(url);
      this.title := title;
    }

    /** The rest of `loadPDF` once pdf.js delivers a document of `n` pages: controls enabled,
        cursor back to page 1, first render started. A pending request left from before is
        kept, so the cursor is on a page of the new document and so is the request only when
        that request fits it. */
    method LoadSucceeded(n: nat)
      requires Tracked()
      modifies this
      ensures numPages == Some(n) && pageNum == 1 && pageRendering
      ensures pageNumPending == old(pageNumPending)
      ensures renders == old(renders) + [1] && inFlight == old(inFlight) + 1
      ensures controls == Controls(true, 1 >= n, false, false, false, if hasFullscreen then false else old(controls).fullscreen)
      ensures currentPdfUrl == old(currentPdfUrl) && title == old(title)
      ensures Tracked()
      ensures old(pageNumPending).None? || OnPage(old(pageNumPending).value, Some(n)) ==> Valid()
    {
      numPages := Some(n);
      EnableControls(true);
      pageNum := 1;
      RenderCurrentPage();
    }

    /** `LoadSucceeded` with the reset the cursor evidently needs: the pending slot is cleared
        together with `pageNum = 1`, so a request made for an earlier document cannot outlive it,
        and the page invariant holds after every successful load. */
    method LoadSucceededClearingPending(n: nat)
      requires Tracked()
      modifies this
      ensures Valid()
      ensures numPages == Some(n) && pageNum == 1 && pageRendering && pageNumPending == None
      ensures renders == old(renders) + [1] && inFlight == old(inFlight) + 1
      ensures controls == Controls(true, 1 >= n, false, false, false, if hasFullscreen then false else old(controls).fullscreen)
      ensures currentPdfUrl == old(currentPdfUrl) && title == old(title)
    {
      numPages := Some(n);
      EnableControls(true);
      pageNum := 1;
      pageNumPending := None;
      RenderCurrentPage();
    }

    /** The `catch` of `loadPDF`: the error is shown, which disables the controls; the previous
        document, cursor and pending request stay as they were. */
    method LoadFailed()
      requires Tracked()
      modifies this
      ensures Tracked() && (old(Valid()) ==> Valid())
      ensures controls == EnabledControls(false, pageNum, numPages, hasFullscreen, old(controls))
      ensures numPages == old(numPages) && pageNum == old(pageNum) && pageRendering == old(pageRendering)
      ensures pageNumPending == old(pageNumPending) && currentPdfUrl == old(currentPdfUrl) && title == old(title)
      ensures renders == old(renders) && inFlight == old(inFlight)
    {
      ShowError();
    }

    /** `showError`: the message is DOM only; the controls are disabled. */
    method ShowError()
      requires Tracked()
      modifies this
      ensures Tracked() && (old(Valid()) ==> Valid())
      ensures controls == EnabledControls(false, pageNum, numPages, hasFullscreen, old(controls))
      ensures numPages == old(numPages) && pageNum == old(pageNum) && pageRendering == old(pageRendering)
      ensures pageNumPending == old(pageNumPending) && currentPdfUrl == old(currentPdfUrl) && title == old(title)
      ensures renders == old(renders) && inFlight == old(inFlight)
    {
      EnableControls(false);
    }

    /** `enableControls(enabled)`. */
    method EnableControls(enabled: bool)
      modifies this
      ensures controls == EnabledControls(enabled, pageNum, numPages, hasFullscreen, old(controls))
      ensures numPages == old(numPages) && pageNum == old(pageNum) && pageRendering == old(pageRendering)
      ensures pageNumPending == old(pageNumPending) && currentPdfUrl == old(currentPdfUrl) && title == old(title)
      ensures renders == old(renders) && inFlight == old(inFlight)
    {
      controls := Controls(!enabled || pageNum <= 1, !enabled || pageNum >= PageCountOrOne(numPages),
                           !enabled, !enabled, !enabled, if hasFullscreen then !enabled else controls.fullscreen);
    }

    /** `updatePageInfo`: the prev and next flags for the current page. */
    method UpdatePageInfo()
      requires numPages.Some?
      modifies this
      ensures numPages == old(numPages) && pageNum == old(pageNum) && pageRendering == old(pageRendering)
      ensures (controls.prev, controls.next) == PageInfoFlags(pageNum, numPages.value)
      ensures controls == old(controls).(prev := controls.prev, next := controls.next)
      ensures pageNumPending == old(pageNumPending) && currentPdfUrl == old(currentPdfUrl) && title == old(title)
      ensures renders == old(renders) && inFlight == old(inFlight)
    {
      controls := controls.(prev := pageNum <= 1, next := pageNum >= numPages.value);
    }

    /** The part of `renderCurrentPage` before it waits for pdf.js: nothing without a document;
        otherwise a render of the current page starts and the page information is updated. */
    method RenderCurrentPage()
      modifies this
      ensures numPages.None? ==> pageRendering == old(pageRendering) && controls == old(controls)
                                 && renders == old(renders) && inFlight == old(inFlight)
      ensures numPages.Some? ==>
        && pageRendering && renders == old(renders) + [pageNum] && inFlight == old(inFlight) + 1
        && controls == old(controls).(prev := pageNum <= 1, next := pageNum >= numPages.value)
      ensures numPages == old(numPages) && pageNum == old(pageNum)
      ensures pageNumPending == old(pageNumPending) && currentPdfUrl == old(currentPdfUrl) && title == old(title)
    {
      if numPages.None? {
        return;
      }
      pageRendering := true;
      UpdatePageInfo();
      renders := renders + [pageNum];
      inFlight := inFlight + 1;
    }

    /** A render settles successfully: `pageRendering` is cleared, and a pending page, if any,
        becomes the current page, leaves the pending slot and is rendered. */
    method RenderSucceeded()
      requires Tracked() && inFlight > 0
      modifies this
      ensures Tracked() && (old(Valid()) ==> Valid())
      ensures old(pageNumPending).Some? ==>
        && pageNum == old(pageNumPending).value && pageNumPending == None
        && pageRendering && renders == old(renders) + [pageNum] && inFlight == old(inFlight)
        && numPages.Some? && controls == old(controls).(prev := pageNum <= 1, next := pageNum >= numPages.value)
      ensures old(pageNumPending).None? ==>
        && pageNum == old(pageNum) && pageNumPending == None
        && !pageRendering && renders == old(renders) && inFlight == old(inFlight) - 1
        && controls == old(controls)
      ensures numPages == old(numPages) && currentPdfUrl == old(currentPdfUrl) && title == old(title)
    {
      pageRendering := false;
      inFlight := inFlight - 1;
      if pageNumPending.Some? {
        pageNum := pageNumPending.value;
        pageNumPending := None;
        RenderCurrentPage();
      }
    }

    /** The `catch` of `renderCurrentPage`: `pageRendering` is cleared and the error shown; a
        pending request stays. */
    method RenderFailed()
      requires Tracked() && inFlight > 0
      modifies this
      ensures Tracked() && (old(Valid()) ==> Valid())
      ensures !pageRendering && inFlight == old(inFlight) - 1
      ensures controls == EnabledControls(false, pageNum, numPages, hasFullscreen, old(controls))
      ensures numPages == old(numPages) && pageNum == old(pageNum) && pageNumPending == old(pageNumPending)
      ensures currentPdfUrl == old(currentPdfUrl) && title == old(title) && renders == old(renders)
    {
      pageRendering := false;
      inFlight := inFlight - 1;
      ShowError();
    }

    /** `queueRenderPage`: while a render is in flight the current page becomes the pending
        request, replacing any earlier one; otherwise it is rendered now. */
    method QueueRenderPage()
      requires Tracked() && numPages.Some?
      modifies this
      ensures Tracked() && (old(Valid()) ==> Valid())
      ensures old(pageRendering) ==> pageNumPending == Some(pageNum) && renders == old(renders)
                                     && inFlight == old(inFlight) && controls == old(controls)
      ensures !old(pageRendering) ==> pageNumPending == old(pageNumPending) && renders == old(renders) + [pageNum]
                                      && inFlight == old(inFlight) + 1
                                      && (controls.prev, controls.next) == PageInfoFlags(pageNum, numPages.value)
                                      && controls == old(controls).(prev := controls.prev, next := controls.next)
      ensures pageRendering
      ensures numPages == old(numPages) && pageNum == old(pageNum) && currentPdfUrl == old(currentPdfUrl) && title == old(title)
    {
      if pageRendering {
        pageNumPending := Some(pageNum);
      } else {
        RenderCurrentPage();
      }
    }

    /** `onPrevPage`: one page back and a render queued, unless there is no document or the
        cursor is on page 1. */
    method OnPrevPage()
      requires Tracked()
      modifies this
      ensures Tracked() && (old(Valid()) ==> Valid())
      ensures pageNum == PrevTarget(old(pageNum), old(numPages))
      ensures pageNum == old(pageNum) ==> pageNumPending == old(pageNumPending) && renders == old(renders)
                                          && pageRendering == old(pageRendering)
                                          && controls == old(controls) && inFlight == old(inFlight)
      ensures pageNum != old(pageNum) && old(pageRendering) ==> pageNumPending == Some(pageNum) && renders == old(renders)
                                                                && controls == old(controls) && inFlight == old(inFlight) && pageRendering
      ensures pageNum != old(pageNum) && !old(pageRendering) ==>
        && renders == old(renders) + [pageNum] && pageRendering
        && pageNumPending == old(pageNumPending) && inFlight == old(inFlight) + 1
        && numPages.Some? && controls == old(controls).(prev := pageNum <= 1, next := pageNum >= numPages.value)
      ensures numPages == old(numPages) && currentPdfUrl == old(currentPdfUrl) && title == old(title)
    {
      if numPages.None? || pageNum <= 1 {
        return;
      }
      pageNum := pageNum - 1;
      QueueRenderPage();
    }

    /** `onNextPage`: one page on and a render queued, unless there is no document or the
        cursor is on its last page. */
    method OnNextPage()
      requires Tracked()
      modifies this
      ensures Tracked() && (old(Valid()) ==> Valid())
      ensures pageNum == NextTarget(old(pageNum), old(numPages))
      ensures pageNum == old(pageNum) ==> pageNumPending == old(pageNumPending) && renders == old(renders)
                                          && pageRendering == old(pageRendering)
                                          && controls == old(controls) && inFlight == old(inFlight)
      ensures pageNum != old(pageNum) && old(pageRendering) ==> pageNumPending == Some(pageNum) && renders == old(renders)
                                                                && controls == old(controls) && inFlight == old(inFlight) && pageRendering
      ensures pageNum != old(pageNum) && !old(pageRendering) ==>
        && renders == old(renders) + [pageNum] && pageRendering
        && pageNumPending == old(pageNumPending) && inFlight == old(inFlight) + 1
        && numPages.Some? && controls == old(controls).(prev := pageNum <= 1, next := pageNum >= numPages.value)
      ensures numPages == old(numPages) && currentPdfUrl == old(currentPdfUrl) && title == old(title)
    {
      if numPages.None? || pageNum >= numPages.value {
        return;
      }
      pageNum := pageNum + 1;
      QueueRenderPage();
    }

    /** `downloadPdf`: nothing without a URL or with an empty title; otherwise the URL under the
        sanitized title with `.pdf` appended. */
    method DownloadPdf() returns (d: Option<Download>)
      ensures d.None? <==> currentPdfUrl.None? || currentPdfUrl.value == "" || title == ""
      ensures d.Some? ==> d.value.href == currentPdfUrl.value && d.value.fileName == DownloadName(title)
    {
      if currentPdfUrl.None? || currentPdfUrl.value == "" || title == "" {
        return None;
      }
      return Some(Download(currentPdfUrl.value, DownloadName(title)));
    }
  }

  /** A request queued for the old document outlives a successful load of a shorter one: page 2
      of a two-page document is requested while the first render is in flight, a one-page
      document is loaded, and when the first render settles the cursor jumps to page 2 of 1. */
  method StalePendingOutlivesLoad() returns (v: PdfViewer)
    ensures v.numPages == Some(1) && v.pageNum == 2 && !OnPage(v.pageNum, v.numPages)
  {
    v := new PdfViewer("Document", Controls(true, true, true, true, true, true), true);
    v.BeginLoad("docs/word-1.pdf", "Document");
    v.LoadSucceeded(2);
    v.OnNextPage();
    assert v.pageNumPending == Some(2);
    v.BeginLoad("docs/word-2.pdf", "Document");
    v.LoadSucceeded(1);
    v.RenderSucceeded();
  }

  /** The same events with the corrected load: the request for page 2 of the old document is
      dropped, and when the first render settles the cursor stays on page 1 of 1. */
  method ClearedPendingStaysOnPage() returns (v: PdfViewer)
    ensures v.numPages == Some(1) && v.pageNum == 1 && OnPage(v.pageNum, v.numPages)
  {
    v := new PdfViewer("Document", Controls(true, true, true, true, true, true), true);
    v.BeginLoad("docs/word-1.pdf", "Document");
    v.LoadSucceededClearingPending(2);
    v.OnNextPage();
    assert v.pageNumPending == Some(2);
    v.BeginLoad("docs/word-2.pdf", "Document");
    v.LoadSucceededClearingPending(1);
    v.RenderSucceeded();
  }
}
