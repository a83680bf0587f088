/**
 * The viewer session of EbookReader as a value: the fields the controller keeps,
 * the transition each event handler makes on them, and the properties of those
 * transitions. The class in module Reader holds the same fields and its methods
 * are specified by these functions.
 */
module Session {
  import opened Wrappers
  import opened Labels

  /** A canvas point of a mouse event. */
  datatype Point = Point(x: int, y: int)

  /** A highlight rectangle (x0, y0, x1, y1): drag start, then drag end. */
  datatype Rect = Rect(x0: int, y0: int, x1: int, y1: int)

  /** What opening a file gives: a document of some number of pages, or an exception. */
  datatype OpenResult = Opened(pages: nat) | OpenFailed

  /** The message box a handler shows, if any; shownPage is the 1-based page in its text. */
  datatype Notice = Silent | BookmarkAdded(shownPage: int) | BookmarkExists(shownPage: int)

  /** How a handler ends: normally, or by raising a Python exception. */
  datatype Outcome = Completed | Raised(error: PyError)

  /**
   * docOpen: the document field is set (truthy); pageCount: its len().
   * bookmarkOrder lists the bookmark keys in insertion order, as the dict keeps them.
   */
  datatype ReaderState = ReaderState(
    docOpen: bool,
    pageCount: nat,
    currentPage: int,
    bookmarks: map<int, string>,
    bookmarkOrder: seq<int>,
    highlights: map<int, seq<Rect>>,
    selectionStart: Option<Point>,
    selectionEnd: Option<Point>)

  /** The state __init__ sets up. */
  function Initial(): ReaderState {
    ReaderState(false, 0, 0, map[], [], map[], None, None)
  }

  /** What every handler keeps: the key order matches the dict, labels are the fixed format,
      highlight lists are never empty, and annotations exist only once a document was opened. */
  predicate WellFormed(s: ReaderState) {
    && (forall i, j :: 0 <= i < j < |s.bookmarkOrder| ==> s.bookmarkOrder[i] != s.bookmarkOrder[j])
    && (forall k :: k in s.bookmarks ==> k in s.bookmarkOrder)
    && (forall i :: 0 <= i < |s.bookmarkOrder| ==> s.bookmarkOrder[i] in s.bookmarks)
    && (forall k :: k in s.bookmarks ==> s.bookmarks[k] == BookmarkLabel(k))
    && (forall k :: k in s.highlights ==> |s.highlights[k]| > 0)
    && (s.bookmarks != map[] || s.highlights != map[] ==> s.docOpen)
  }

  /** The page-index invariant: with a document open, the current page is one of its pages. */
  predicate PageInRange(s: ReaderState) {
    s.docOpen ==> 0 <= s.currentPage < s.pageCount
  }

  function Min(a: int, b: int): int { if a <= b then a else b }
  function Max(a: int, b: int): int { if a >= b then a else b }

  // ---------------------------------------------------------------------------
  // Transitions, one per handler

  /** load_ebook: take the new document and go to page 0; nothing else is reset. */
  function Load(s: ReaderState, result: OpenResult): (r: ReaderState)
    ensures WellFormed(s) ==> WellFormed(r)
    ensures result.Opened? ==> r.docOpen && r.currentPage == 0
    ensures r.bookmarks == s.bookmarks && r.highlights == s.highlights
  {
    match result
    case OpenFailed => s
    case Opened(n) => s.(docOpen := true, pageCount := n, currentPage := 0)
  }

  function PreviousPage(s: ReaderState): (r: ReaderState)
    ensures WellFormed(s) ==> WellFormed(r)
    ensures PageInRange(s) ==> PageInRange(r)
    ensures r == s.(currentPage := r.currentPage) && s.currentPage - 1 <= r.currentPage <= s.currentPage
  {
    if s.docOpen && s.currentPage > 0 then s.(currentPage := s.currentPage - 1) else s
  }

  function NextPage(s: ReaderState): (r: ReaderState)
    ensures WellFormed(s) ==> WellFormed(r)
    ensures PageInRange(s) ==> PageInRange(r)
    ensures r == s.(currentPage := r.currentPage) && s.currentPage <= r.currentPage <= s.currentPage + 1
  {
    if s.docOpen && s.currentPage < s.pageCount - 1 then s.(currentPage := s.currentPage + 1) else s
  }

  /** scroll_page: a negative wheel delta goes forward, any other goes back. */
  function ScrollPage(s: ReaderState, delta: int): (r: ReaderState)
    ensures WellFormed(s) ==> WellFormed(r)
    ensures PageInRange(s) ==> PageInRange(r)
    ensures r == s.(currentPage := r.currentPage)
    ensures delta < 0 ==> s.currentPage <= r.currentPage
    ensures delta >= 0 ==> r.currentPage <= s.currentPage
  {
    if s.docOpen then (if delta < 0 then NextPage(s) else PreviousPage(s)) else s
  }

  function AddBookmark(s: ReaderState): (r: ReaderState)
    ensures s.docOpen ==> s.currentPage in r.bookmarks
    ensures forall k :: k in s.bookmarks ==> k in r.bookmarks && r.bookmarks[k] == s.bookmarks[k]
    ensures forall k :: k in r.bookmarks && k != s.currentPage ==> k in s.bookmarks
    ensures r == s.(bookmarks := r.bookmarks, bookmarkOrder := r.bookmarkOrder)
  {
    if !s.docOpen || s.currentPage in s.bookmarks then s
    else s.(bookmarks := s.bookmarks[s.currentPage := BookmarkLabel(s.currentPage)],
            bookmarkOrder := s.bookmarkOrder + [s.currentPage])
  }

  function AddBookmarkNotice(s: ReaderState): (n: Notice)
    ensures n.Silent? <==> !s.docOpen
    ensures !n.Silent? ==> n.shownPage == s.currentPage + 1
    ensures n.BookmarkAdded? ==> s.currentPage !in s.bookmarks
  {
    if !s.docOpen then Silent
    else if s.currentPage in s.bookmarks then BookmarkExists(s.currentPage + 1)
    else BookmarkAdded(s.currentPage + 1)
  }

  function StartSelection(s: ReaderState, p: Point): (r: ReaderState)
    ensures WellFormed(s) ==> WellFormed(r)
    ensures r.selectionStart == Some(p) && r == s.(selectionStart := r.selectionStart)
  {
    s.(selectionStart := Some(p))
  }

  function UpdateSelection(s: ReaderState, p: Point): (r: ReaderState)
    ensures WellFormed(s) ==> WellFormed(r)
    ensures r.selectionEnd == Some(p) && r == s.(selectionEnd := r.selectionEnd)
  {
    s.(selectionEnd := Some(p))
  }

  /** The highlight list of a page, empty where the page has none. */
  function HighlightsOf(s: ReaderState, page: int): seq<Rect> {
    if page in s.highlights then s.highlights[page] else []
  }

  /** end_selection: records the drag end, then (if a drag start exists) appends the rectangle;
      without a drag start, building the rectangle raises TypeError after the end is recorded. */
  function EndSelection(s: ReaderState, p: Point): (r: ReaderState)
    ensures WellFormed(s) ==> WellFormed(r)
    ensures forall k :: k != s.currentPage ==> HighlightsOf(r, k) == HighlightsOf(s, k)
    ensures |HighlightsOf(s, s.currentPage)| <= |HighlightsOf(r, s.currentPage)| <= |HighlightsOf(s, s.currentPage)| + 1
    ensures HighlightsOf(r, s.currentPage)[..|HighlightsOf(s, s.currentPage)|] == HighlightsOf(s, s.currentPage)
    ensures r == s.(highlights := r.highlights, selectionEnd := r.selectionEnd)
  {
    if !s.docOpen then s
    else
      match s.selectionStart
      case None => s.(selectionEnd := Some(p))
      case Some(a) =>
        var rect := Rect(a.x, a.y, p.x, p.y);
        s.(selectionEnd := Some(p),
           highlights := s.highlights[s.currentPage := HighlightsOf(s, s.currentPage) + [rect]])
  }

  function EndSelectionOutcome(s: ReaderState): (o: Outcome)
    ensures o.Raised? ==> o.error == TypeError && s.docOpen
  {
    if s.docOpen && s.selectionStart.None? then Raised(TypeError) else Completed
  }

  /** go_to_bookmark on the entries of a bookmark listing, with the listbox selection (an index
      into entries, or none): the page read back from the label is assigned without a bounds check. */
  function GoToBookmark(s: ReaderState, entries: seq<string>, selected: Option<nat>): (r: ReaderState)
    requires selected.Some? ==> selected.value < |entries|
    ensures WellFormed(s) ==> WellFormed(r)
    ensures r == s.(currentPage := r.currentPage)
    ensures selected.None? ==> r == s
  {
    match selected
    case None => s
    case Some(i) =>
      match PageOfLabel(entries[i])
      case Success(page) => s.(currentPage := page)
      case Failure(_) => s
  }

  function GoToBookmarkOutcome(entries: seq<string>, selected: Option<nat>): (o: Outcome)
    requires selected.Some? ==> selected.value < |entries|
    ensures o.Raised? ==> selected.Some? && o.error != TypeError
    ensures o == Raised(IndexError) ==> forall i :: 0 <= i < |entries[selected.value]| ==> IsSpace(entries[selected.value][i])
  {
    match selected
    case None => Completed
    case Some(i) =>
      match PageOfLabel(entries[i])
      case Success(_) => Completed
      case Failure(e) => Raised(e)
  }

  /** next_page called k times in a row. */
  function NextPageTimes(s: ReaderState, k: nat): ReaderState {
    if k == 0 then s else NextPage(NextPageTimes(s, k - 1))
  }

  // ---------------------------------------------------------------------------
  // Lemmas

  lemma InitialIsWellFormed()
    ensures WellFormed(Initial()) && PageInRange(Initial())
    ensures !Initial().docOpen && Initial().currentPage == 0
  {}

  /** Loading resets the page to 0 and keeps every bookmark and highlight of the old document. */
  lemma LoadKeepsAnnotations(s: ReaderState, n: nat)
    requires WellFormed(s)
    ensures var t := Load(s, Opened(n));
      && t.docOpen && t.pageCount == n && t.currentPage == 0
      && t.bookmarks == s.bookmarks && t.bookmarkOrder == s.bookmarkOrder
      && t.highlights == s.highlights
      && t.selectionStart == s.selectionStart && t.selectionEnd == s.selectionEnd
      && WellFormed(t)
      && (PageInRange(t) <==> n >= 1)
    ensures Load(s, OpenFailed) == s
  {}

  /** next_page moves exactly when a document is open and a later page exists,
      by exactly one page, and changes nothing else. */
  lemma NextPageMovesByOne(s: ReaderState)
    ensures NextPage(s) == s.(currentPage := NextPage(s).currentPage)
    ensures NextPage(s).currentPage == s.currentPage + 1 <==> s.docOpen && s.currentPage < s.pageCount - 1
    ensures NextPage(s).currentPage != s.currentPage + 1 ==> NextPage(s) == s
  {}

  lemma PreviousPageMovesByOne(s: ReaderState)
    ensures PreviousPage(s) == s.(currentPage := PreviousPage(s).currentPage)
    ensures PreviousPage(s).currentPage == s.currentPage - 1 <==> s.docOpen && s.currentPage > 0
    ensures PreviousPage(s).currentPage != s.currentPage - 1 ==> PreviousPage(s) == s
  {}

  /** From a valid page p, next_page gives min(p + 1, pageCount - 1) and previous_page max(p - 1, 0). */
  lemma NavigationClamps(s: ReaderState)
    requires s.docOpen && PageInRange(s)
    ensures NextPage(s).currentPage == Min(s.currentPage + 1, s.pageCount - 1)
    ensures PreviousPage(s).currentPage == Max(s.currentPage - 1, 0)
  {}

  /** Navigation keeps the page-index invariant and the well-formedness of the annotations. */
  lemma NavigationKeepsInvariants(s: ReaderState, delta: int)
    requires PageInRange(s) && WellFormed(s)
    ensures PageInRange(NextPage(s)) && WellFormed(NextPage(s))
    ensures PageInRange(PreviousPage(s)) && WellFormed(PreviousPage(s))
    ensures PageInRange(ScrollPage(s, delta)) && WellFormed(ScrollPage(s, delta))
  {}

  /** scroll_page is next_page for a negative delta and previous_page otherwise, and does
      nothing without a document. */
  lemma ScrollDispatches(s: ReaderState, delta: int)
    ensures !s.docOpen ==> ScrollPage(s, delta) == s
    ensures s.docOpen && delta < 0 ==> ScrollPage(s, delta) == NextPage(s)
    ensures s.docOpen && delta >= 0 ==> ScrollPage(s, delta) == PreviousPage(s)
  {}

  /** Repeated next_page from a valid page walks forward and then stays on the last page. */
  lemma {:induction false} NextPageTimesStopsAtLastPage(s: ReaderState, k: nat)
    requires s.docOpen && PageInRange(s)
    ensures NextPageTimes(s, k).currentPage == Min(s.currentPage + k, s.pageCount - 1)
    ensures NextPageTimes(s, k) == s.(currentPage := NextPageTimes(s, k).currentPage)
  {
    if k > 0 {
      NextPageTimesStopsAtLastPage(s, k - 1);
    }
  }

  /** Opening a 10-page document, nine next_page calls reach page 9; a tenth stays there. */
  lemma TenPageWalk(s: ReaderState)
    ensures NextPageTimes(Load(s, Opened(10)), 9).currentPage == 9
    ensures NextPageTimes(Load(s, Opened(10)), 10).currentPage == 9
  {
    var t := Load(s, Opened(10));
    NextPageTimesStopsAtLastPage(t, 9);
    NextPageTimesStopsAtLastPage(t, 10);
  }

  /** add_bookmark without a document changes nothing and shows nothing. */
  lemma AddBookmarkWithoutDocument(s: ReaderState)
    requires !s.docOpen
    ensures AddBookmark(s) == s && AddBookmarkNotice(s) == Silent
  {}

  /** On a page without a bookmark, add_bookmark stores "Page {p + 1}" for it, appends it to the
      listing order, and leaves every other bookmark as it was. */
  lemma AddBookmarkInserts(s: ReaderState)
    requires s.docOpen && s.currentPage !in s.bookmarks
    ensures var t := AddBookmark(s);
      && t.bookmarks.Keys == s.bookmarks.Keys + {s.currentPage}
      && t.bookmarks[s.currentPage] == "Page " + ShowInt(s.currentPage + 1)
      && (forall k :: k in s.bookmarks ==> t.bookmarks[k] == s.bookmarks[k])
      && t.bookmarkOrder == s.bookmarkOrder + [s.currentPage]
      && t == s.(bookmarks := t.bookmarks, bookmarkOrder := t.bookmarkOrder)
    ensures AddBookmarkNotice(s) == BookmarkAdded(s.currentPage + 1)
  {}

  /** On a page that has a bookmark, add_bookmark keeps the stored label and says so. */
  lemma AddBookmarkKeepsExisting(s: ReaderState)
    requires s.docOpen && s.currentPage in s.bookmarks
    ensures AddBookmark(s) == s
    ensures AddBookmarkNotice(s) == BookmarkExists(s.currentPage + 1)
  {}

  /** A second add_bookmark changes nothing more, and with a document open reports "already exists". */
  lemma AddBookmarkIdempotent(s: ReaderState)
    ensures AddBookmark(AddBookmark(s)) == AddBookmark(s)
    ensures s.docOpen ==> AddBookmarkNotice(AddBookmark(s)) == BookmarkExists(s.currentPage + 1)
  {}

  lemma AddBookmarkKeepsWellFormed(s: ReaderState)
    requires WellFormed(s)
    ensures WellFormed(AddBookmark(s))
    ensures AddBookmark(s).currentPage == s.currentPage && AddBookmark(s).pageCount == s.pageCount
  {
    var t := AddBookmark(s);
    if t != s {
      var cp := s.currentPage;
      assert cp !in s.bookmarkOrder;
      forall i, j | 0 <= i < j < |t.bookmarkOrder|
        ensures t.bookmarkOrder[i] != t.bookmarkOrder[j]
      {
        if j == |s.bookmarkOrder| {
          assert t.bookmarkOrder[j] == cp;
          assert t.bookmarkOrder[i] == s.bookmarkOrder[i];
        }
      }
    }
  }

  /** start_selection and update_selection set one end of the drag and touch nothing else. */
  lemma SelectionEndsOnly(s: ReaderState, p: Point)
    ensures StartSelection(s, p).selectionStart == Some(p)
    ensures StartSelection(s, p) == s.(selectionStart := StartSelection(s, p).selectionStart)
    ensures UpdateSelection(s, p).selectionEnd == Some(p)
    ensures UpdateSelection(s, p) == s.(selectionEnd := UpdateSelection(s, p).selectionEnd)
    ensures WellFormed(s) ==> WellFormed(StartSelection(s, p)) && WellFormed(UpdateSelection(s, p))
  {}

  /** end_selection without a document changes nothing. */
  lemma EndSelectionWithoutDocument(s: ReaderState, p: Point)
    requires !s.docOpen
    ensures EndSelection(s, p) == s && EndSelectionOutcome(s) == Completed
  {}

  /** end_selection after a drag start appends exactly the rectangle (start, end) to the end of the
      current page's list (creating it if absent); every other page's list is unchanged. */
  lemma EndSelectionAppends(s: ReaderState, p: Point)
    requires s.docOpen && s.selectionStart.Some?
    ensures var t := EndSelection(s, p); var a := s.selectionStart.value;
      && t.highlights.Keys == s.highlights.Keys + {s.currentPage}
      && HighlightsOf(t, s.currentPage) == HighlightsOf(s, s.currentPage) + [Rect(a.x, a.y, p.x, p.y)]
      && (forall k :: k != s.currentPage ==> HighlightsOf(t, k) == HighlightsOf(s, k))
      && t.selectionEnd == Some(p)
      && t == s.(highlights := t.highlights, selectionEnd := t.selectionEnd)
    ensures EndSelectionOutcome(s) == Completed
  {}

  /** end_selection with no drag start records the end point and then raises TypeError,
      leaving the highlights as they were. */
  lemma EndSelectionWithoutStartRaises(s: ReaderState, p: Point)
    requires s.docOpen && s.selectionStart.None?
    ensures EndSelection(s, p) == s.(selectionEnd := Some(p))
    ensures EndSelectionOutcome(s) == Raised(TypeError)
  {}

  lemma EndSelectionKeepsWellFormed(s: ReaderState, p: Point)
    requires WellFormed(s)
    ensures WellFormed(EndSelection(s, p))
  {}

  /** go_to_bookmark on an entry that is the label of page k goes to page k; the page-index
      invariant then holds exactly when k is a page of the open document. */
  lemma GoToLabelledPage(s: ReaderState, entries: seq<string>, i: nat, k: int)
    requires i < |entries| && entries[i] == BookmarkLabel(k)
    ensures GoToBookmark(s, entries, Some(i)) == s.(currentPage := k)
    ensures GoToBookmarkOutcome(entries, Some(i)) == Completed
    ensures s.docOpen ==> (PageInRange(GoToBookmark(s, entries, Some(i))) <==> 0 <= k < s.pageCount)
  {
    LabelRoundTrip(k);
  }

  /** go_to_bookmark changes nothing but the current page. */
  lemma GoToBookmarkOnlyMovesPage(s: ReaderState, entries: seq<string>, selected: Option<nat>)
    requires selected.Some? ==> selected.value < |entries|
    ensures GoToBookmark(s, entries, selected) == s.(currentPage := GoToBookmark(s, entries, selected).currentPage)
    ensures WellFormed(s) ==> WellFormed(GoToBookmark(s, entries, selected))
  {}

  /** The source's unchecked jump in action: bookmark page 9 of a 10-page document, open a
      2-page document, and go to that bookmark; the current page is then outside the document. */
  lemma StaleBookmarkEscapesDocument()
    ensures var t := AddBookmark(NextPageTimes(Load(Initial(), Opened(10)), 9));
      var u := Load(t, Opened(2));
      && u.bookmarks == map[9 := BookmarkLabel(9)]
      && GoToBookmark(u, [BookmarkLabel(9)], Some(0)).currentPage == 9
      && !PageInRange(GoToBookmark(u, [BookmarkLabel(9)], Some(0)))
  {
    var s := Load(Initial(), Opened(10));
    NextPageTimesStopsAtLastPage(s, 9);
    GoToLabelledPage(Load(AddBookmark(NextPageTimes(s, 9)), Opened(2)), [BookmarkLabel(9)], 0, 9);
  }
}
