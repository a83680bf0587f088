# Ebook reader viewer session, modelled in Dafny

This project models the session state machine of the `EbookReader` controller of a
desktop document viewer (`ebook_reader.py`). The controller keeps these on `self`:
the open document, the current page index, a dict from page to highlight rectangles,
a dict from page to bookmark label, and the two ends of the mouse drag in progress.
Its event handlers change that state in place. All of those handlers are modelled
here, along with the bookmark label that `add_bookmark` writes and `go_to_bookmark`
parses back.

- `wrappers.dfy`: module `Wrappers`, holding `Option` and `Result`.
- `labels.dfy`: module `Labels`. It models the label `f"Page {p + 1}"` and how it is
  read back with `int(title.split()[-1]) - 1`. That means Python's `str()` of an int,
  `str.split()` with no separator (Python's whitespace set) and `int()` of a token
  (an optional sign, ASCII digits with single underscores between them, leading zeros
  allowed). The main result is `LabelRoundTrip`: for every page `p`, the read-back of
  `p`'s label is `p`.
- `session.dfy`: module `Session`. The controller state is a value here, `ReaderState`.
  Each handler is a transition function on it. The lemmas state what each transition
  does: the clamped navigation, the page-index invariant, the scroll dispatch,
  bookmark insert-if-absent and idempotence, highlight append with "every other page
  unchanged", and the fact that nothing else changes.
- `reader.dfy`: module `Reader`. It holds the class `EbookReader`, whose fields mirror
  the controller's. Its methods update the fields in place. Each method's contract
  ties the new state, and any notice or exception, to the matching `Session`
  transition of the old state, and says it keeps `Valid()`. `ViewBookmarks` runs the
  source's listing loop and proves that each entry reads back as its bookmark's page.

How the source is mapped:
- The document is represented by `docOpen` (the `self.ebook` field is set and truthy)
  and `pageCount` (its `len()`).
- `currentPage` is an unbounded `int`, like Python's. `go_to_bookmark` assigns
  whatever the label parses to.
- Dict insertion order is the sequence `bookmarkOrder`, kept next to the `bookmarks` map.
- Message boxes become a `Notice` value.
- When `end_selection` or `go_to_bookmark` raises a Python exception, the handler's result is
  `Raised(TypeError | IndexError | ValueError)`. The model keeps the field assignments made
  before the exception.
- A file that cannot be opened is the input `OpenFailed` to `LoadEbook`. `load_ebook` does
  not catch the exception from the open call, which comes before any field is assigned.
  The state is therefore unchanged, no message box is shown, and the model reports nothing.

## Source behaviours the model keeps

These are modelled as written, not corrected:
- `load_ebook` never clears the page-keyed dicts (ebook_reader.py:86-89). Bookmarks
  and highlights of the previous document survive a load (`Session.LoadKeepsAnnotations`).
- `go_to_bookmark` assigns the parsed page with no bounds check (ebook_reader.py:221-222).
  The page-index invariant `0 <= currentPage < pageCount` is kept by load (for
  documents of at least one page) and by navigation. Going to a bookmark keeps it only
  when the bookmarked page exists in the current document (`Session.GoToLabelledPage`).
  A bookmark left over from a larger document breaks it
  (`Session.StaleBookmarkEscapesDocument`, `Reader.StaleBookmarkDemo`).
- `end_selection` with no drag start records the drag end, then raises `TypeError`
  while building the rectangle (ebook_reader.py:174-175).
- `highlight_text` reads `self.highlight_var`, which is never assigned anywhere in the
  class (ebook_reader.py:151). It therefore raises `AttributeError`, and the three
  selection handlers are never bound to mouse events. They are modelled anyway, as the
  handlers they were meant to be.
- Annotation keys are not limited to pages of the current document. Nothing in the class
  removes a bookmark or a highlight, or checks a key against the page count.
- A failed open is not reported to the user: no handler catches the exception
  (ebook_reader.py:86-87).

## Model

| member | source | states |
|---|---|---|
| Labels.ShowNat | ebook_reader.py:197 | str() of a page number is a non-empty string of decimal digits |
| Labels.Words | ebook_reader.py:221 | every word str.split() returns is non-empty and has no whitespace |
| Labels.ShowInt | ebook_reader.py:197 | str() of an int is one non-empty word without whitespace, and starts with '-' exactly for a negative number |
| Labels.BookmarkLabel | ebook_reader.py:197 | the label of page p splits into exactly two words: "Page" and str(p + 1) |
| Labels.ParseInt | ebook_reader.py:221 | int() accepts a token only if it ends in a digit, and gives a negative value only for a token starting with '-' |
| Labels.PageOfLabel | ebook_reader.py:221 | the read-back raises IndexError exactly for a label made only of whitespace, and never raises TypeError |
| Labels.WordsEmptyIffBlank | ebook_reader.py:221 | str.split() returns no word exactly when the string is all whitespace |
| Labels.WordsOfPair | ebook_reader.py:221 | two words joined by a space split back into exactly those two words |
| Labels.DigitsValueOfShowNat | ebook_reader.py:221 | int() gives back the value whose digits str() wrote |
| Labels.ParseShowInt | ebook_reader.py:221 | int(str(n)) == n for every integer n, negatives included |
| Labels.LabelRoundTrip | ebook_reader.py:221 | the last word of "Page {p + 1}", read as an int, minus one, is p, for every page p |
| Labels.LabelInjective | ebook_reader.py:197 | different pages get different labels |
| Labels.BlankLabelRaises | ebook_reader.py:221 | a label with no words makes the read-back raise IndexError |
| Labels.WordyLabelRaises | ebook_reader.py:221 | a label whose last word is not an integer makes the read-back raise ValueError |
| Labels.LeadingZerosParse | ebook_reader.py:221 | int() accepts leading zeros ("007" is 7) |
| Labels.UnderscoresParse | ebook_reader.py:221 | int() accepts single underscores between digits and rejects doubled ones |
| Labels.LabelWithLeadingZerosReadsBack | ebook_reader.py:221 | labels not written by add_bookmark ("Page 007", "Page 1_0") still read back as pages |
| Session.Load | ebook_reader.py:86-89 | a successful load opens the document at page 0; bookmarks and highlights are never changed, and well-formedness is kept |
| Session.PreviousPage | ebook_reader.py:124-127 | only the page changes, by 0 or -1; the page-index invariant and well-formedness are kept |
| Session.NextPage | ebook_reader.py:129-132 | only the page changes, by 0 or +1; the page-index invariant and well-formedness are kept |
| Session.ScrollPage | ebook_reader.py:117-122 | only the page changes, never backwards for a negative delta and never forwards otherwise; both invariants are kept |
| Session.AddBookmark | ebook_reader.py:193-197 | with a document open, the current page is bookmarked afterwards; every existing bookmark keeps its label; the only key that can be new is the current page; only the bookmarks and their order change |
| Session.AddBookmarkNotice | ebook_reader.py:193-200 | a message is shown exactly when a document is open, its page is the 1-based current page, and "added" is shown only for a page that had no bookmark |
| Session.StartSelection | ebook_reader.py:161-163 | the drag start becomes the point and nothing else changes |
| Session.UpdateSelection | ebook_reader.py:165-168 | the drag end becomes the point and nothing else changes |
| Session.EndSelection | ebook_reader.py:170-179 | every other page's highlight list is unchanged; the current page's old list is a prefix of its new list, which is at most one longer; only the highlights and the drag end change; well-formedness is kept |
| Session.EndSelectionOutcome | ebook_reader.py:170-175 | the only exception end_selection raises is TypeError, and only with a document open |
| Session.GoToBookmark | ebook_reader.py:217-223 | only the current page changes, not at all without a selection; well-formedness is kept |
| Session.GoToBookmarkOutcome | ebook_reader.py:217-223 | an exception comes only with a selection and is never TypeError; IndexError only for an all-whitespace entry |
| Session.InitialIsWellFormed | ebook_reader.py:63-75 | the initial state has no document, page 0, no annotations, and satisfies both invariants |
| Session.LoadKeepsAnnotations | ebook_reader.py:86-89 | a load sets the document and page 0, keeps every bookmark, highlight and selection, keeps well-formedness, and gives a valid page exactly for a document of at least one page; a failed open changes nothing |
| Session.NextPageMovesByOne | ebook_reader.py:129-132 | next_page adds exactly one to the page exactly when a document is open and the page is before the last; otherwise the state is unchanged; nothing but the page ever changes |
| Session.PreviousPageMovesByOne | ebook_reader.py:124-127 | previous_page subtracts exactly one exactly when a document is open and the page is above 0; otherwise unchanged; nothing but the page changes |
| Session.NavigationClamps | ebook_reader.py:124-132 | from a valid page p, next gives min(p + 1, pageCount - 1) and previous gives max(p - 1, 0) |
| Session.NavigationKeepsInvariants | ebook_reader.py:117-132 | next, previous and scroll keep the page-index invariant and well-formedness |
| Session.ScrollDispatches | ebook_reader.py:117-122 | scroll does nothing without a document; with one, a negative delta is exactly next_page and any other delta exactly previous_page |
| Session.NextPageTimesStopsAtLastPage | ebook_reader.py:129-132 | k next_page calls from a valid page p reach min(p + k, pageCount - 1) and change nothing else |
| Session.TenPageWalk | ebook_reader.py:129-132 | after opening a 10-page document, nine next_page calls reach page 9 and a tenth stays on 9 |
| Session.AddBookmarkWithoutDocument | ebook_reader.py:193-195 | with no document, add_bookmark changes nothing and shows no message |
| Session.AddBookmarkInserts | ebook_reader.py:196-198 | on an unbookmarked page p, add_bookmark stores "Page {p + 1}" under p, appends p to the listing order, keeps every other bookmark, and reports the bookmark as added |
| Session.AddBookmarkKeepsExisting | ebook_reader.py:199-200 | on a bookmarked page, add_bookmark keeps the stored label and reports that it already exists |
| Session.AddBookmarkIdempotent | ebook_reader.py:193-200 | a second add_bookmark changes nothing more, and with a document open it reports "already exists" |
| Session.AddBookmarkKeepsWellFormed | ebook_reader.py:196-197 | add_bookmark keeps the key order duplicate-free and in step with the dict, and keeps every label in the fixed format |
| Session.SelectionEndsOnly | ebook_reader.py:161-168 | start_selection sets only the drag start and update_selection sets only the drag end |
| Session.EndSelectionWithoutDocument | ebook_reader.py:170-172 | with no document, end_selection changes nothing |
| Session.EndSelectionAppends | ebook_reader.py:174-179 | after a drag start, end_selection records the end and appends exactly (start.x, start.y, end.x, end.y) to the end of the current page's list, creating it if absent; every other page's list, and everything else, is unchanged |
| Session.EndSelectionWithoutStartRaises | ebook_reader.py:174-175 | with no drag start, end_selection records the end point and then raises TypeError, leaving the highlights as they were |
| Session.EndSelectionKeepsWellFormed | ebook_reader.py:177-179 | highlight lists stay non-empty and exist only with a document open |
| Session.GoToLabelledPage | ebook_reader.py:217-223 | picking an entry that is page k's label goes to page k and raises nothing; the page is then valid exactly when k is a page of the open document |
| Session.GoToBookmarkOnlyMovesPage | ebook_reader.py:217-223 | go_to_bookmark changes nothing but the current page |
| Session.StaleBookmarkEscapesDocument | ebook_reader.py:221-222 | a page-9 bookmark made in a 10-page document still exists after opening a 2-page document, and going to it sets page 9, outside the document |
| Reader.EbookReader.constructor | ebook_reader.py:63-75 | the fields start as the initial session state |
| Reader.EbookReader.LoadEbook | ebook_reader.py:86-89 | the fields become the load transition of the old state; page 0; a valid page exactly for a non-empty document |
| Reader.EbookReader.PreviousPage | ebook_reader.py:124-127 | the fields become the previous-page transition of the old state; the page-index invariant is kept |
| Reader.EbookReader.NextPage | ebook_reader.py:129-132 | the fields become the next-page transition of the old state; the page-index invariant is kept |
| Reader.EbookReader.ScrollPage | ebook_reader.py:117-122 | the fields become the scroll transition of the old state; the page-index invariant is kept |
| Reader.EbookReader.AddBookmark | ebook_reader.py:193-200 | the fields become the add-bookmark transition; the notice is the message box the source shows |
| Reader.EbookReader.StartSelection | ebook_reader.py:161-163 | only the drag start changes |
| Reader.EbookReader.UpdateSelection | ebook_reader.py:165-168 | only the drag end changes |
| Reader.EbookReader.EndSelection | ebook_reader.py:170-179 | the fields become the end-selection transition; the outcome is TypeError exactly when a document is open and there is no drag start |
| Reader.EbookReader.ViewBookmarks | ebook_reader.py:202-215 | "no bookmarks" exactly when the dict is empty; otherwise one entry per bookmark, the stored labels in insertion order, each reading back as its bookmark's page |
| Reader.EbookReader.GoToBookmark | ebook_reader.py:217-223 | the fields become the go-to-bookmark transition; the outcome is the IndexError or ValueError the parse raises, if any |
| Reader.EbookReader.ViewAndGoTo | ebook_reader.py:202-224 | listing the bookmarks and picking entry i sets the page to the i-th bookmarked page and changes nothing else |
| Reader.StaleBookmarkDemo | ebook_reader.py:214-223 | driven through the class, the stale bookmark leaves page 9 current in a 2-page document |

## Left out

- Widget construction, menus, canvas drawing, scrollbars, the file dialog, the bookmarks
  window and message boxes (ebook_reader.py:11-57, 77-84, 100-110, 181-191, 203-212, 224-226):
  GUI plumbing. Message boxes appear only as the `Notice` of `AddBookmark` and the
  `NoBookmarks` view.
- `show_page`: page loading and rasterisation by the document and imaging libraries
  (ebook_reader.py:91-115). Redrawing restored highlights is drawing too. An exception
  that `show_page` may raise for an out-of-range page after `go_to_bookmark` is not
  modelled. The page has already been assigned by then, and the model keeps that assignment.
- `draw_highlight_rectangle`, called by `update_selection` (ebook_reader.py:168, 183-191): canvas drawing only.
- Text to speech: `read_aloud`, `read_selected_text`, `toggle_tts` and the speech flag
  (ebook_reader.py:60, 113-115, 134-147, 228-233). This is a foreign engine whose output
  blocks, and the flag is owned by the toolkit's check button.
- `highlight_text` (ebook_reader.py:149-159): event binding only. As written it always
  raises `AttributeError`.
- `zoom_level` (ebook_reader.py:65): a constant float that is only passed to rendering.
- Canvas coordinates are floats from `canvasx`/`canvasy`. The model uses integer points,
  since no arithmetic is done on them.
- Labels.ParseInt: accepts only ASCII digits, while Python's int() also accepts other
  Unicode decimal digits. Labels written by add_bookmark use ASCII only.
- Reader.EbookReader.LoadEbook: an opened document is treated as truthy whatever its
  page count. A zero-page document gives a state outside the page-index invariant, which
  the contract says. Whether the library treats such a document as false is not modelled.
