# PDF manager core, modelled in Dafny

This project models the engine of a small desktop PDF tool (`src/pdf_merger_app.py`). The tool has three parts:

- **merge**: append the pages of several PDFs into one, with an optional bookmark for each file;
- **split**: cut one PDF into numbered files, one per page, per fixed-size chunk or per custom page range;
- **edit**: load one PDF's pages into a list, then delete, extract, rotate, duplicate and insert pages.

The page-range parser behind splitting and inserting, the reordering buttons of the merge list and the natural sort key of file names are modelled too.

The PDF library is replaced by *documents*. A document is a source that is missing, unreadable, locked (encrypted, and `decrypt("")` raises) or readable with a list of opaque page handles (`Documents.PageRef`). Two equal handles are the same page object, so a list may alias a page, as it does after a duplicate. `decrypt("")` reports a wrong password by its result instead of raising, so an encrypted file that the empty password does not open goes on to `reader.pages`, which raises: that file is *unreadable*, and takes each handler's generic error path.

Modules:

| module | file | what it holds |
|---|---|---|
| `Wrappers` | `wrappers.dfy` | `Option` |
| `Strings` | `strings.dfy` | the Python string builtins the core relies on: `strip`, `split`, `split(sep, 1)`, `join`, `int()`, `str()`, `zfill`, `lower`, `os.path.basename` |
| `Documents` | `documents.dfy` | page handles and sources |
| `RangeParser` | `ranges.dfy` | `parse_ranges` |
| `RangeExamples` | `range_examples.dfy` | worked examples for single tokens and whole texts |
| `Selection` | `selection.dfy` | `sorted(set of rows)` ascending and descending; the selected entries of a list; the list with them removed |
| `SplitEngine` | `split.dfy` | `SplitWorker`: the settings, the span plans of the three modes, `write_range`, the naming counter and the error outcomes |
| `MergeEngine` | `merge.dfy` | `MergeWorker.run` as a fold over the items |
| `PageEdits` | `page_edits.dfy` | the class `EditSession`, holding `_edit_pages` and the handlers that change it; one function per handler describing its effect |
| `PageEditLaws` | `page_edit_laws.dfy` | what the edit handlers guarantee, as lemmas |
| `MergeOrder` | `merge_list.dfy` | the class `MergeList` with `_move_selected`, `_move_top`, `_move_bottom`, `_remove_selected` and `_clear_list` |
| `NaturalKey` | `natural_key.dfy` | `natural_key` and how Python compares two keys |

How the code's kinds of logic are modelled:

- The loops of the source are methods with loop invariants:
  - the token loop of `parse_ranges`;
  - `write_range` and the split loop;
  - the merge loop;
  - the handlers' pop, insert and write loops;
  - the list-widget loops.
- Each such method is proved equal to a function of its inputs, or of the old state.
- The properties the code promises are lemmas about those functions.
- The page list of the editor and the entries of the merge list are fields of classes whose methods change them in place.

## Model

| member | source | states |
|---|---|---|
| Strings.Strip | src/pdf_merger_app.py:75 | `str.strip()` returns a text no longer than its input that neither starts nor ends with whitespace |
| Strings.StripBlank | src/pdf_merger_app.py:75-77 | the stripped text is empty exactly when every character is whitespace |
| Strings.StripInfix | src/pdf_merger_app.py:79 | `strip()` removes only whitespace, from the two ends |
| Strings.Split | src/pdf_merger_app.py:78 | `split(',')` gives at least one piece, and no piece holds the separator |
| Strings.JoinSplit | src/pdf_merger_app.py:78 | joining the pieces of a split with the separator gives the text back |
| Strings.SplitJoin | src/pdf_merger_app.py:78 | splitting a join of separator-free pieces gives the pieces back |
| Strings.SplitFirst | src/pdf_merger_app.py:83 | `split("-", 1)` gives the text before the first `-` (which holds no `-`) and the text after it, around that `-` |
| Strings.PyInt | src/pdf_merger_app.py:85 | `int()` reads a number only from text that is not blank, either after `strip()` or after skipping what `int()` skips |
| Strings.IntStrip | src/pdf_merger_app.py:85-97 | `int()` skips leading and trailing whitespace but not the separators U+001C to U+001F, so what it reads neither starts nor ends with a character it skips |
| Strings.IntStripInfix | src/pdf_merger_app.py:85-97 | `int()` reads one infix of its argument, and everything it drops on either side is skippable whitespace |
| Strings.IntStripIsStrip | src/pdf_merger_app.py:85-97 | on text without U+001C to U+001F, what `int()` skips is exactly what `strip()` removes |
| Strings.PyIntOfNumeral | src/pdf_merger_app.py:85-97 | `int()` reads a digit string as its decimal value, and a `-` followed by digits as its negation |
| Strings.PyIntOfTrimmed | src/pdf_merger_app.py:85-97 | on text without surrounding whitespace, `int()` is the numeral grammar itself |
| Strings.ZFill | src/pdf_merger_app.py:235 | `zfill(width)` pads to `width` characters and leaves longer text alone |
| Strings.ZFillIntRoundTrip | src/pdf_merger_app.py:235 | `int(str(n).zfill(w)) == n` for every integer `n` and width `w` |
| Strings.ZFillIntInjective | src/pdf_merger_app.py:235 | different integers get different zero-padded forms |
| Strings.LowerMeaning | src/pdf_merger_app.py:70 | `lower()` leaves no upper-case letter, changes nothing else, maps each upper-case letter to its own lower-case one, and a second `lower()` changes nothing |
| Strings.WithPdfSuffix | src/pdf_merger_app.py:930 | the extract path ends in `.pdf` in any letter case, and a path that already does is kept |
| Strings.WithPdfSuffixIdempotent | src/pdf_merger_app.py:930 | adding the suffix a second time changes nothing |
| Strings.BasenameIsLastComponent | src/pdf_merger_app.py:170 | `os.path.basename` is the last component of the path: a suffix without `/`, preceded by `/` unless it is the whole path |
| RangeParser.Clamp | src/pdf_merger_app.py:85 | `max(1, min(total, x))` is at least 1, at most `total` when there are pages, `x` itself when `x` is a page, and 1 when there are no pages |
| RangeParser.Ordered | src/pdf_merger_app.py:92-93 | the pair is put in order, and holds the same two endpoints |
| RangeParser.ParseToken | src/pdf_merger_app.py:82-100 | a token that survives gives an ordered pair from page 1 on: within the document when it has pages, `(1, 1)` when it has none |
| RangeParser.SplitAtJoinedDash | src/pdf_merger_app.py:83 | when `a` holds no `-`, `(a + "-" + b).split("-", 1)` gives back `a` and `b` |
| RangeParser.BadEndIsStartAlone | src/pdf_merger_app.py:83-91 | for `a` without `-`, the token `a-x` whose `x` is not an integer reads exactly as the token `a`: its single page, or nothing when `a` is not an integer either |
| RangeParser.BadStartDrops | src/pdf_merger_app.py:83-87 | for `a` without `-`, the token `a-b` whose `a` is not an integer is dropped, whatever `b` is |
| RangeParser.SamePageTwice | src/pdf_merger_app.py:83-97 | for `a` without `-`, the token `a-a` reads exactly as the token `a` |
| RangeParser.EndsInEitherOrder | src/pdf_merger_app.py:83-94 | for two integers `a` and `b` written without `-`, `a-b` always gives a pair, and the same pair as `b-a` |
| RangeParser.PieceRanges | src/pdf_merger_app.py:79-100 | one comma-separated piece contributes at most one pair, and that pair is in bounds |
| RangeParser.Collected | src/pdf_merger_app.py:78-100 | the first `n` pieces give at most `n` pairs |
| RangeParser.ParseRanges | src/pdf_merger_app.py:73-101 | the method returns the pairs the pieces of the stripped text give, piece after piece; blank text gives none |
| RangeParser.ParsePieces | src/pdf_merger_app.py:78-100 | the loop over the pieces collects each piece's pairs in input order |
| RangeParser.AppendPiece | src/pdf_merger_app.py:79-100 | one iteration appends exactly what the piece contributes |
| RangeParser.CollectedBounded | src/pdf_merger_app.py:85-98 | every collected pair is in bounds |
| RangeParser.RangesBounded | src/pdf_merger_app.py:85-98 | every returned pair is in bounds for the page count |
| RangeParser.RangesWithinDocument | src/pdf_merger_app.py:85-98 | with at least one page, `1 <= start <= end <= total_pages` for every pair |
| RangeParser.RangesWithoutPages | src/pdf_merger_app.py:85-97 | with no pages, every returned pair is `(1, 1)` |
| RangeParser.RangesCount | src/pdf_merger_app.py:75-81 | blank text gives `[]`; otherwise there is at most one pair per comma-separated token |
| RangeExamples.InvertedPairIsSwapped | src/pdf_merger_app.py:92-93 | `"5-2"` gives `(2, 5)` |
| RangeExamples.NegativeEndClampsAndSwaps | src/pdf_merger_app.py:83-93 | `"3--2"` splits at the first `-`, clamps `-2` to 1 and gives `(1, 3)` |
| RangeExamples.SpacedDash | src/pdf_merger_app.py:83-89 | `"1 - 3"` gives `(1, 3)`: the halves are not stripped, but `int()` strips them |
| RangeExamples.BadEndRepeatsStart | src/pdf_merger_app.py:88-91 | `"4-x"` gives `(4, 4)` |
| RangeExamples.ReadSeparatorThree | src/pdf_merger_app.py:89 | `int("\x1c3")` raises `ValueError`, although `strip()` would remove the U+001C |
| RangeExamples.SeparatorEndRepeatsStart | src/pdf_merger_app.py:83-91 | `"5-\x1c3"` over ten pages gives `(5, 5)`: the unstripped end half is not an integer for `int()` |
| RangeExamples.LettersAreDropped | src/pdf_merger_app.py:96-100 | `"abc"` is dropped |
| RangeExamples.PagePastTheEndClamps | src/pdf_merger_app.py:97 | `"99"` over ten pages gives `(10, 10)` |
| RangeExamples.NoPagesGivesPageOne | src/pdf_merger_app.py:97 | `"7"` over no pages gives `(1, 1)` |
| RangeExamples.DocumentedExample | src/pdf_merger_app.py:73-101 | `1-3,5,7-10` over ten pages gives `[(1, 3), (5, 5), (7, 10)]` |
| RangeExamples.BlankText | src/pdf_merger_app.py:75-77 | blank text gives `[]` |
| RangeExamples.EmptyTokensSkipped | src/pdf_merger_app.py:79-81 | `5,,` gives `[(5, 5)]` |
| RangeExamples.RangesOfThreePieces | src/pdf_merger_app.py:78-100 | a text of three pieces gives the pairs of the first, then the second, then the third |
| Selection.Ascending | src/pdf_merger_app.py:925 | `sorted(rows)` lists only selected rows of the list |
| Selection.AscendingFacts | src/pdf_merger_app.py:925 | `sorted(rows)` is strictly increasing and leaves out no selected row |
| Selection.DescendingFacts | src/pdf_merger_app.py:912 | `sorted(rows, reverse=True)` is strictly decreasing and leaves out no selected row |
| Selection.AscendingCardinality | src/pdf_merger_app.py:925 | `sorted(rows)` lists every selected row exactly once |
| Selection.PickAscending | src/pdf_merger_app.py:932-933 | the pages of the sorted rows are the selected entries in list order |
| Selection.KeepDropPartition | src/pdf_merger_app.py:912-933 | deleting and extracting the same rows split the list: every entry goes to exactly one side |
| Selection.DropLength | src/pdf_merger_app.py:915-916 | removing `k` selected rows shortens the list by `k` |
| Selection.DescendingPopStep | src/pdf_merger_app.py:915-916 | one `pop(r)` of the descending loop removes the next selected row and keeps the rest in order |
| Selection.PopDone | src/pdf_merger_app.py:915-916 | after the descending loop every selected row is gone and the others are in their old order |
| Selection.DescendingLast | src/pdf_merger_app.py:918 | `rows[-1]` of the descending list is the smallest selected row |
| SplitEngine.ModeOf | src/pdf_merger_app.py:241-254 | `"each"` and `"chunk"` select their modes; any other text selects custom ranges |
| SplitEngine.NewSplitConfig | src/pdf_merger_app.py:199-210 | the prefix defaults to `"split"`, chunk size and pad are at least 1 and kept when they already are, the other settings are kept |
| SplitEngine.ChunkStartsInside | src/pdf_merger_app.py:246-249 | chunk `c` starts inside the document exactly when `c < ceil(total / k)` |
| SplitEngine.EachSpansTile | src/pdf_merger_app.py:241-243 | each-page spans cover pages `1 .. total` in order, without gaps or overlaps |
| SplitEngine.ChunkSpansTile | src/pdf_merger_app.py:245-251 | chunk spans tile the document, all but the last hold exactly `k` pages, and the last holds between 1 and `k` |
| SplitEngine.WriteRange | src/pdf_merger_app.py:230-239 | the page loop succeeds exactly when the span fits the document, and then copies the span's pages |
| SplitEngine.FitPrefix | src/pdf_merger_app.py:230-261 | the spans before the first one that raises `IndexError` all fit, and that one does not |
| SplitEngine.WriteAll | src/pdf_merger_app.py:241-261 | the write loop writes the files of the plan in order, with the counter advancing by one per file, and stops with a crash at the first span that does not fit |
| SplitEngine.Run | src/pdf_merger_app.py:212-265 | `SplitWorker.run` gives what `SplitRun` describes: the source checks, the plan of the mode, an empty custom plan refused, then the files |
| SplitEngine.SplitRunWritesPlan | src/pdf_merger_app.py:241-261 | a readable source gets the files of its plan, unless custom mode parsed nothing |
| SplitEngine.SplitReassembles | src/pdf_merger_app.py:241-253 | each-page and chunk modes never fail on a readable source, write one file per span, and the files read in order hold the whole document |
| SplitEngine.EachPageFiles | src/pdf_merger_app.py:241-243 | in each-page mode file `i` holds exactly page `i + 1` |
| SplitEngine.CustomFiles | src/pdf_merger_app.py:255-261 | custom mode over a document with pages writes one file per parsed range, file `i` holding pages `s_i .. e_i` |
| SplitEngine.CustomWithoutRanges | src/pdf_merger_app.py:255-258 | custom mode with no valid range reports the error before any file is written |
| SplitEngine.CustomOnEmptyDocument | src/pdf_merger_app.py:233-234 | custom mode over a document without pages crashes at the first range, writing nothing |
| SplitEngine.UnusableSource | src/pdf_merger_app.py:214-225 | a missing, unreadable or locked source writes nothing and reports its own error |
| SplitEngine.FileNumbering | src/pdf_merger_app.py:228-239 | in every mode the counter starts at `start_index` and grows by one per written file |
| SplitEngine.FileNameInjective | src/pdf_merger_app.py:235 | two counter values give the same file name only when they are equal |
| SplitEngine.FileNamesDistinct | src/pdf_merger_app.py:235-239 | no two files of one run get the same name |
| SplitEngine.FileNumberReadsBack | src/pdf_merger_app.py:235 | the number in a name has at least `pad` digits and reads back as the counter |
| SplitEngine.ProgressCompletes | src/pdf_merger_app.py:244-261 | the last numerator of a complete run is the page count, or the number of ranges in custom mode |
| SplitEngine.PagesOfFiles | src/pdf_merger_app.py:233-234 | the files' pages, concatenated, are the spans' pages, concatenated |
| SplitEngine.WrittenTiling | src/pdf_merger_app.py:241-253 | spans that tile the document are all written, and together the files hold the document page for page |
| MergeEngine.Merge | src/pdf_merger_app.py:141-186 | `MergeWorker.run` gives what `MergeRun` describes: an empty list refused, then the fold over the items |
| MergeEngine.MergeItemInto | src/pdf_merger_app.py:151-178 | one iteration handles the item as `Step` says: pages and bookmark for a readable item, a skip for a bad one, two counts for a locked one |
| MergeEngine.AppendPages | src/pdf_merger_app.py:165-166 | `add_page` for each page appends the item's pages in order |
| MergeEngine.StepEffect | src/pdf_merger_app.py:151-178 | one item adds its pages, counts once (twice when locked), and adds a bookmark at the page count before it when it gets one |
| MergeEngine.MergeUpToDescribed | src/pdf_merger_app.py:151-178 | after `n` items: the pages of the readable ones in list order; `done` equal to `n` plus the locked ones; bookmark `t` belonging to the `t`-th bookmarked item and pointing at the page count of the items before it |
| MergeEngine.MergedPages | src/pdf_merger_app.py:164-166 | the merged document is the concatenation of the readable items' pages |
| MergeEngine.BookmarksPointAtTheirItems | src/pdf_merger_app.py:164-170 | every bookmark carries an item's file name, and its item's pages start at the page it points at |
| MergeEngine.DoneCount | src/pdf_merger_app.py:156-178 | `done` ends at the number of items plus the number of locked ones |
| MergeEngine.EmptyListRefused | src/pdf_merger_app.py:143-145 | an empty list is refused before anything is read |
| MergeEngine.SkippedItemChangesNoPages | src/pdf_merger_app.py:153-178 | a skipped item changes no page of the result: the run goes on as if it were not listed |
| MergeEngine.StepEvents | src/pdf_merger_app.py:151-178 | one item emits its messages and one progress report (two for a locked item), each above every report before it, and ends with the report of the new count |
| MergeEngine.ProgressReports | src/pdf_merger_app.py:151-178 | the progress numerators the merge emits strictly rise, none exceeds the final count, and the last event reports that count |
| MergeEngine.PagesBeforeGrow | src/pdf_merger_app.py:164-166 | an item's pages sit in the result right after the pages of the items before it |
| PageEdits.TurnAngle | src/pdf_merger_app.py:104-106 | turning a page changes the angle of that page object by `deg`, and of no other |
| PageEdits.TurnAllAngle | src/pdf_merger_app.py:945-946 | a page object listed `k` times is turned `k` times, by `k * deg` in all |
| PageEdits.NonEmptySelection | src/pdf_merger_app.py:912-913 | the sorted rows are empty exactly when nothing is selected |
| PageEdits.DeleteDone | src/pdf_merger_app.py:915-918 | after the pop loop the list and the cursor are those `DeleteRun` describes |
| PageEdits.InsertStep | src/pdf_merger_app.py:990-991 | one `insert(pos + offset, pg)` puts the next expanded page after the ones already inserted |
| PageEdits.EditSession.Load | src/pdf_merger_app.py:875-898 | a blank or missing path, or a file that does not open, empties the editor; a locked file is refused and the old pages stay; otherwise the file's pages become the list |
| PageEdits.EditSession.Delete | src/pdf_merger_app.py:909-920 | no document and no selection are refused; otherwise the selected rows are popped from the highest down; the list and the cursor become those `DeleteRun` describes |
| PageEdits.EditSession.Extract | src/pdf_merger_app.py:922-937 | no document, no selection and a dismissed dialog are refused; otherwise the selected pages, in ascending row order, are written to the path with `.pdf` added if needed |
| PageEdits.EditSession.Rotate | src/pdf_merger_app.py:939-950 | the page object of each selected row is turned by `deg`, in ascending row order; the list itself is unchanged |
| PageEdits.EditSession.Duplicate | src/pdf_merger_app.py:952-961 | the selected pages are appended, in ascending row order |
| PageEdits.EditSession.Insert | src/pdf_merger_app.py:963-994 | a dismissed dialog, a file that does not open, a locked file, blank text, no valid range and a page index past the end are refused; otherwise the expansion of the ranges is spliced in before the current row (or row 0) |
| PageEdits.SpliceIn | src/pdf_merger_app.py:990-991 | the insert loop gives `old[:pos] + expansion + old[pos:]` |
| PageEdits.Expand | src/pdf_merger_app.py:986-989 | the expansion loop gives pages `s..e` of each range, range after range with repeats kept, or stops when a page index is past the end |
| PageEdits.RangesStartAtPageOne | src/pdf_merger_app.py:983-989 | the parsed ranges all start at page 1 or later, so `range(s - 1, e)` never reads a negative index |
| PageEditLaws.DeleteRemovesSelected | src/pdf_merger_app.py:912-916 | a delete removes one page per selected row, and those pages together with the remaining ones are the old pages |
| PageEditLaws.DeleteCursor | src/pdf_merger_app.py:918 | the cursor is -1 exactly when no page is left; otherwise it is a row of the new list, no larger than any selected row, and either the smallest selected row or the last row |
| PageEditLaws.ExtractWritesSelectedInOrder | src/pdf_merger_app.py:925-933 | an extract writes one page per selected row, the page of the `i`-th smallest row in `i`-th place, to a `.pdf` path |
| PageEditLaws.DuplicateAppendsCopies | src/pdf_merger_app.py:955-959 | a duplicate keeps the old pages in place, grows the list by the number of selected rows and appends the page of the `i`-th smallest row in `i`-th place |
| PageEditLaws.KeepComesFromSelectedRows | src/pdf_merger_app.py:958 | every copied page object is the page of a selected row |
| PageEditLaws.RotateTurnsSelectedHandles | src/pdf_merger_app.py:942-946 | a rotate turns a page object once for each selected row holding it |
| PageEditLaws.RotateLeavesOthers | src/pdf_merger_app.py:945-946 | a page object on no selected row keeps its angle |
| PageEditLaws.InsertRunParsesText | src/pdf_merger_app.py:981-985 | once the file is open, blank text cancels the insert, and any other text inserts the ranges it parses to |
| PageEditLaws.InsertLayout | src/pdf_merger_app.py:986-993 | an insert puts its pages in one block at the insert position and sets the cursor there; the pages before stay in front, the others follow in their old order, and every inserted page is a page of the source document |
| PageEditLaws.InsertFromDocumentWithPages | src/pdf_merger_app.py:983-991 | from a document with pages, text with at least one valid range is always inserted |
| PageEditLaws.InsertFromEmptyDocument | src/pdf_merger_app.py:983-989 | from a document without pages, valid-looking text ends in the index error with the list unchanged |
| PageEditLaws.SpanPagesFromSource | src/pdf_merger_app.py:986-989 | every expanded page is a page of the source document |
| MergeOrder.TakePutPermutes | src/pdf_merger_app.py:718-719 | `takeItem` followed by `insertItem` keeps the same entries |
| MergeOrder.MoveAllPermutes | src/pdf_merger_app.py:715-719 | the up and down buttons only reorder the list |
| MergeOrder.BlockRows | src/pdf_merger_app.py:712 | `sorted(rows)` visits a selected block as its rows in order, for a move in either direction; the corrected move down (`MoveOrder`) visits it in reverse |
| MergeOrder.BlockDownPasses | src/pdf_merger_app.py:715-719 | after `m` bottom-up passes over a block, the entry under it has risen by `m` rows |
| MergeOrder.BlockUpPasses | src/pdf_merger_app.py:715-719 | after `m` top-down passes over a block, the entry over it has sunk by `m` rows |
| MergeOrder.MoveBlockDown | src/pdf_merger_app.py:711-720 | with the rows visited in the corrected, descending order, moving a block down keeps it together and in order, and the entry under it moves above it |
| MergeOrder.MoveBlockUp | src/pdf_merger_app.py:711-720 | with the rows visited in ascending order, as the code does, moving a block up keeps it together and in order, and the entry over it moves below it |
| MergeOrder.MoveUpSeparateRows | src/pdf_merger_app.py:715-719 | moving rows 1 and 3 of `a, b, c, d` up gives `b, a, d, c` |
| MergeOrder.MergeList.MoveSelected | src/pdf_merger_app.py:711-721 | the selected rows are visited in ascending order for either direction, and the entry at each moves by `delta` when the target row exists |
| MergeOrder.MoveTopAsWrittenReorders | src/pdf_merger_app.py:726-728 | as written, rows 1 and 2 of `a, b, c` moved to the top give `b, a, c` instead of `b, c, a` |
| MergeOrder.AscendingTopRows | src/pdf_merger_app.py:724-727 | the `idx`-th sorted row is at least `idx`, so `row - idx` is always a row of the list |
| MergeOrder.MergeList.MoveTop | src/pdf_merger_app.py:723-729 | as written: the `idx`-th sorted row is taken from row `row - idx` and inserted at row `idx`, pass after pass |
| MergeOrder.TopAsWrittenPermutes | src/pdf_merger_app.py:726-728 | the top move as written only reorders the list |
| MergeOrder.TopCorrectedPrefix | src/pdf_merger_app.py:726-728 | corrected: after `idx` passes that take each selected row from its own row, the selected entries above the next one are at the front in order, the unselected ones above it follow, and the rest is untouched |
| MergeOrder.TopCorrectedMeaning | src/pdf_merger_app.py:723-729 | corrected: the top move that takes each selected row from its own row puts the selected entries first in their old order and the others after them in theirs |
| MergeOrder.TopMoveMeaning | src/pdf_merger_app.py:723-729 | that order loses and repeats no entry, and its `i`-th entry is the entry of the `i`-th selected row |
| MergeOrder.MergeList.MoveBottom | src/pdf_merger_app.py:731-737 | the unselected entries stay in order, and the selected ones are appended in descending row order |
| MergeOrder.MoveBottomPermutes | src/pdf_merger_app.py:731-737 | the bottom move only reorders the list |
| MergeOrder.BottomStep | src/pdf_merger_app.py:734-736 | one take-and-append pass sends the next selected row, from the last one up, to the bottom |
| MergeOrder.MergeList.RemoveSelected | src/pdf_merger_app.py:739-743 | the selected rows are removed and the others keep their order |
| MergeOrder.RemoveDone | src/pdf_merger_app.py:740-742 | after the descending removal loop every selected row is gone |
| MergeOrder.MergeList.Clear | src/pdf_merger_app.py:745-747 | the list is emptied |
| MergeOrder.MoveDownAsWrittenSplitsBlock | src/pdf_merger_app.py:712-720 | as written, rows 1 and 2 of `a, b, c, d` moved down give `a, c, d, b`; the corrected order gives `a, d, b, c` |
| NaturalKey.RunEnd | src/pdf_merger_app.py:70 | the first run ends at or after `i`, within the text |
| NaturalKey.RunsSplit | src/pdf_merger_app.py:70 | `re.findall` of digit runs and non-digit runs cuts the text into runs that spell it, each all digits or all non-digits, neighbours of different kinds |
| NaturalKey.DigitsName | src/pdf_merger_app.py:70 | a name of digits only is the single number it spells |
| NaturalKey.KeyIgnoresCase | src/pdf_merger_app.py:70 | the key of a name and of its lower-cased form are equal |
| NaturalKey.CompareText | src/pdf_merger_app.py:684 | Python's ordering of two texts says `Same` exactly for equal texts |
| NaturalKey.ComparePartAsWritten | src/pdf_merger_app.py:684 | a number against a text has no answer (`TypeError`), and every other pair does |
| NaturalKey.MixedNamesCannotBeSorted | src/pdf_merger_app.py:684 | as written, the keys of `1a.pdf` and `a.pdf` cannot be compared, so sorting them raises |
| NaturalKey.CompareKeysExtends | src/pdf_merger_app.py:684 | where the comparison as written answers, the corrected one gives the same answer |
| NaturalKey.CompareKeysAntisymmetric | src/pdf_merger_app.py:684 | the corrected comparison answers for every pair of keys, says `Same` only for equal keys, and is reversed when the keys are swapped |
| NaturalKey.CompareTextTransitive | src/pdf_merger_app.py:684 | Python's order on texts is transitive |
| NaturalKey.ComparePartTransitive | src/pdf_merger_app.py:684 | the corrected order on key elements is transitive |
| NaturalKey.CompareKeysTransitive | src/pdf_merger_app.py:684 | the corrected order on keys is transitive, so with antisymmetry it is a total order |

## Left out

- The Qt window is not modelled: widgets, dialogs, message boxes, log and status text, menus and the preview with its zoom (floating point). Dialog results are parameters:
  - the extract path is a string, empty when the dialog is dismissed;
  - the insert file is an `Option<Source>`;
  - the range text is an `Option<string>`.
- `on_edit_save` is not modelled. Neither are `_render_preview` and `_set_zoom`, which are floating point.
- `QThread` and signals are not modelled. Both workers are synchronous. Their messages become `Event` values (merge) or a list of progress numerators (split).
- Progress percentages `int(done / total * 100)` are floating point. The model keeps the counts they are computed from.
- `pypdf` and PyMuPDF are replaced by `Documents.Source`. Whether `add_outline_item` raises is an input, `MergeItem.outlineFails`.
- File writes and `os.makedirs` are not modelled, and neither is the output directory. A split file is its counter, its pages and its span, and `NameOf` gives its name.
- `os.path.basename` is modelled with `/` as the only separator (POSIX).
- `_collect_pdfs` (walking the file system and sorting by date or size) is not modelled. Only the key of its sort by name is.
- `PdfItem.display` is not modelled: it formats a float.
- `_sync_model_from_list` is not modelled. It rebuilds `self.items` in list order, so the model keeps one list, `MergeList.entries`.
- `setCurrentRow` calls are left to Qt. The edit outcomes carry the cursor rows the handlers compute.
- `int()`, `isdigit` (`\d`) and `lower()` are modelled for ASCII digits and letters only. Other Unicode digits and case mappings are not.
- `Strings.PyInt`, `Strings.PyIntOfNumeral`, `Strings.PyIntOfTrimmed` and `Strings.ZFillIntRoundTrip` do not model CPython's limit on integer string conversion: `int()` and `str()` raise `ValueError` on more than 4300 digits. The model reads and writes numerals of any length. So a token of more than 4300 digits, which `parse_ranges` drops, is read as a number and clamped, and the round trip of a counter's name is stated for every integer.
- `parse_ranges(None, ...)` is not modelled: the callers always pass a string, and the model takes `text` as one.
- `rotate_page_inplace` falls back to `rotate_clockwise` and `rotate_counter_clockwise` when `rotate` raises. That fallback is library behaviour and is not modelled. A rotation adds `deg` to the page object's angle and nothing reduces it modulo 360, as `page.rotate` does; so angles are not normalised.
- `PageEdits.EditSession.Insert` has no outcome for "no document loaded". `_edit_pages` starts as `[]` and is never `None`, so the `is None` test never fires; inserting into an empty list is allowed.
- Inserted pages are the source document's handles, used as they are. Handles of two documents are not told apart.
- `PageEdits.EditSession.Delete`, `Extract`, `Rotate`, `Duplicate` and the `MergeList` buttons require the selected rows to be rows of the list, as a Qt selection always is. `Insert` requires the current row to be -1 or a row of the list.
- `SplitEngine.WriteRange` requires `s1 >= 1`. Every span of every mode starts at page 1 or later (`PlanFromPageOne`), so the Python negative index `reader.pages[-1]` is never reached.
- The three per-mode loops of `SplitWorker.run` are modelled as one write loop over the span plan, `WriteAll`. The modes differ only in the spans and in the progress numerator.
- The whole-text range examples are stated over `Join([...], ',')` of their tokens, so that the proof does not have to split a literal string.
- Locked items in the merge: `MergeEngine.DoneCount` states what the code does. A locked item is one whose `decrypt("")` raises. The `continue` inside the `try` also runs the `finally`, so such an item is counted twice, and `done` ends above `total`. Progress is meant to end at exactly 100%, and with a locked item it ends above it. An encrypted file that the empty password does not open is unreadable and counted once.
- `MergeOrder.MergeList.MoveSelected` and `MergeOrder.MergeList.MoveTop` model the code as written. The corrected moves exist only as functions and lemmas over the list: `MoveOrder` with `MoveBlockDown`, and `TopCorrected` with `TopCorrectedMeaning`. The class has no method for them.
- Rotation leaves angles unnormalised: angles are meant to stay in `[0, 360)`, but the code only adds, and the model follows the code.

## Findings

| source | as written | input that shows it | evidently intended | confidence | as-written member | corrected member |
|---|---|---|---|---|---|---|
| src/pdf_merger_app.py:727 | `_move_top` takes the `idx`-th selected row from `row - idx`, but moving entries from above to the top leaves the lower selected rows where they were | rows 1 and 2 of `a, b, c` give `b, a, c` | `b, c, a`: take from `row` | high, not executed | MergeOrder.MergeList.MoveTop, MergeOrder.MoveTopAsWrittenReorders | MergeOrder.TopCorrectedMeaning, MergeOrder.TopMoveMeaning |
| src/pdf_merger_app.py:712-720 | `_move_selected(+1)` visits the selected rows in ascending order, so an entry just moved down is moved again | rows 1 and 2 of `a, b, c, d` give `a, c, d, b` | `a, d, b, c`: visit the rows in descending order when moving down | high, not executed | MergeOrder.MergeList.MoveSelected, MergeOrder.MoveDownAsWrittenSplitsBlock | MergeOrder.MoveBlockDown |
| src/pdf_merger_app.py:684 | the name sort compares `natural_key` lists, and Python cannot compare `int` with `str` | file names `1a.pdf` and `a.pdf` in one folder: keys `[1, "a.pdf"]` and `["a.pdf"]`, and `sort` raises `TypeError` | a total order on keys, here with numbers before texts | medium, not executed | NaturalKey.MixedNamesCannotBeSorted | NaturalKey.CompareKeysExtends, NaturalKey.CompareKeysAntisymmetric, NaturalKey.CompareKeysTransitive |
