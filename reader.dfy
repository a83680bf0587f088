/**
 * The EbookReader controller as a class whose fields are the session state the source
 * keeps on self. Each event handler is a method that updates those fields in place; its
 * contract ties the new state to the matching transition of module Session, whose lemmas
 * state what the transition means. Rendering, dialogs and speech are not modelled.
 */
module Reader {
  import opened Wrappers
  import opened Labels
  import opened Session

  /** What view_bookmarks shows: the "no bookmarks" message, or a listbox holding these entries. */
  datatype BookmarkView = NoBookmarks | Listed(entries: seq<string>)

  class EbookReader {
    var docOpen: bool
    var pageCount: nat
    var currentPage: int
    var bookmarks: map<int, string>
    var bookmarkOrder: seq<int>
    var highlights: map<int, seq<Rect>>
    var selectionStart: Option<Point>
    var selectionEnd: Option<Point>

    /** The fields as a Session value. */
    function State(): ReaderState
      reads this
    {
      ReaderState(docOpen, pageCount, currentPage, bookmarks, bookmarkOrder,
                  highlights, selectionStart, selectionEnd)
    }

    predicate Valid()
      reads this
    {
      WellFormed(State())
    }

    /** The page-index invariant of the current state. */
    predicate PageValid()
      reads this
    {
      PageInRange(State())
    }

    constructor ()
      ensures Valid() && PageValid()
      ensures State() == Initial()
    {
      docOpen, pageCount, currentPage := false, 0, 0;
      bookmarks, bookmarkOrder, highlights := map[], [], map[];
      selectionStart, selectionEnd := None, None;
    }

    /** load_ebook; OpenFailed stands for the open call raising before any field is assigned. */
    method LoadEbook(result: OpenResult)
      requires Valid()
      modifies this
      ensures Valid()
      ensures State() == Load(old(State()), result)
      ensures result.Opened? ==> currentPage == 0 && (PageValid() <==> result.pages >= 1)
    {
      LoadKeepsAnnotations(State(), if result.Opened? then result.pages else 0);
      match result {
        case Opened(n) =>
          docOpen, pageCount := true, n;
          currentPage := 0;
        case OpenFailed =>
      }
    }

    method PreviousPage()
      requires Valid()
      modifies this
      ensures Valid()
      ensures State() == Session.PreviousPage(old(State()))
      ensures old(PageValid()) ==> PageValid()
    {
      if docOpen && currentPage > 0 {
        currentPage := currentPage - 1;
      }
    }

    method NextPage()
      requires Valid()
      modifies this
      ensures Valid()
      ensures State() == Session.NextPage(old(State()))
      ensures old(PageValid()) ==> PageValid()
    {
      if docOpen && currentPage < pageCount - 1 {
        currentPage := currentPage + 1;
      }
    }

    /** scroll_page with the wheel event's delta. */
    method ScrollPage(delta: int)
      requires Valid()
      modifies this
      ensures Valid()
      ensures State() == Session.ScrollPage(old(State()), delta)
      ensures old(PageValid()) ==> PageValid()
    {
      if docOpen {
        if delta < 0 {
          NextPage();
        } else {
          PreviousPage();
        }
      }
    }

    method AddBookmark() returns (notice: Notice)
      requires Valid()
      modifies this
      ensures Valid()
      ensures State() == Session.AddBookmark(old(State()))
      ensures notice == AddBookmarkNotice(old(State()))
    {
      AddBookmarkKeepsWellFormed(State());
      if !docOpen {
        return Silent;
      }
      if currentPage !in bookmarks {
        bookmarks := bookmarks[currentPage := BookmarkLabel(currentPage)];
        bookmarkOrder := bookmarkOrder + [currentPage];
        notice := BookmarkAdded(currentPage + 1);
      } else {
        notice := BookmarkExists(currentPage + 1);
      }
    }

    method StartSelection(p: Point)
      requires Valid()
      modifies this
      ensures Valid()
      ensures State() == Session.StartSelection(old(State()), p)
    {
      selectionStart := Some(p);
    }

    method UpdateSelection(p: Point)
      requires Valid()
      modifies this
      ensures Valid()
      ensures State() == Session.UpdateSelection(old(State()), p)
    {
      selectionEnd := Some(p);
    }

    method EndSelection(p: Point) returns (outcome: Outcome)
      requires Valid()
      modifies this
      ensures Valid()
      ensures State() == Session.EndSelection(old(State()), p)
      ensures outcome == EndSelectionOutcome(old(State()))
    {
      if !docOpen {
        return Completed;
      }
      selectionEnd := Some(p);
      match selectionStart {
        case None =>
          outcome := Raised(TypeError);
        case Some(a) =>
          var rect := Rect(a.x, a.y, p.x, p.y);
          if currentPage !in highlights {
            highlights := highlights[currentPage := []];
          }
          highlights := highlights[currentPage := highlights[currentPage] + [rect]];
          outcome := Completed;
      }
    }

    /** view_bookmarks: the listbox entries are the stored labels in insertion order, and each
        entry reads back as its bookmark's page. */
    method ViewBookmarks() returns (view: BookmarkView)
      requires Valid()
      ensures view.NoBookmarks? <==> bookmarks == map[]
      ensures view.Listed? ==>
        && |view.entries| == |bookmarkOrder|
        && (forall i :: 0 <= i < |view.entries| ==> view.entries[i] == bookmarks[bookmarkOrder[i]])
        && (forall i :: 0 <= i < |view.entries| ==> PageOfLabel(view.entries[i]) == Success(bookmarkOrder[i]))
    {
      if bookmarks == map[] {
        return NoBookmarks;
      }
      var entries: seq<string> := [];
      var i := 0;
      while i < |bookmarkOrder|
        invariant 0 <= i <= |bookmarkOrder|
        invariant |entries| == i
        invariant forall j :: 0 <= j < i ==> entries[j] == bookmarks[bookmarkOrder[j]]
      {
        var title := bookmarks[bookmarkOrder[i]];
        entries := entries + [title];
        i := i + 1;
      }
      forall j | 0 <= j < |entries|
        ensures PageOfLabel(entries[j]) == Success(bookmarkOrder[j])
      {
        LabelRoundTrip(bookmarkOrder[j]);
      }
      view := Listed(entries);
    }

    /** go_to_bookmark on a listbox holding `entries`, with the listbox selection. */
    method GoToBookmark(entries: seq<string>, selected: Option<nat>) returns (outcome: Outcome)
      requires Valid()
      requires selected.Some? ==> selected.value < |entries|
      modifies this
      ensures Valid()
      ensures State() == Session.GoToBookmark(old(State()), entries, selected)
      ensures outcome == GoToBookmarkOutcome(entries, selected)
    {
      outcome := Completed;
      if selected.Some? {
        var bookmark := entries[selected.value];
        match PageOfLabel(bookmark) {
          case Success(pageNum) =>
            currentPage := pageNum;
          case Failure(e) =>
            outcome := Raised(e);
        }
      }
    }

    /** Listing the bookmarks and picking entry i goes to the i-th bookmarked page, and
        changes nothing else. */
    method ViewAndGoTo(i: nat) returns (outcome: Outcome)
      requires Valid() && i < |bookmarkOrder|
      modifies this
      ensures Valid()
      ensures outcome == Completed
      ensures State() == old(State()).(currentPage := old(bookmarkOrder[i]))
    {
      var view := ViewBookmarks();
      assert bookmarkOrder[i] in bookmarks;
      outcome := GoToBookmark(view.entries, Some(i));
    }
  }

  /** The unchecked jump through the class: bookmark the last page of a 10-page document,
      open a 2-page document, list the bookmarks and pick the first. */
  method StaleBookmarkDemo() returns (page: int, pages: nat)
    ensures page == 9 && pages == 2 && page >= pages
  {
    var r := new EbookReader();
    r.LoadEbook(Opened(10));
    var k := 0;
    while k < 9
      invariant 0 <= k <= 9
      invariant r.Valid() && r.State() == Load(Initial(), Opened(10)).(currentPage := k)
    {
      r.NextPage();
      k := k + 1;
    }
    var notice := r.AddBookmark();
    r.LoadEbook(Opened(2));
    var outcome := r.ViewAndGoTo(0);
    page, pages := r.currentPage, r.pageCount;
  }
}
