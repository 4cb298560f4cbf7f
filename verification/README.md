# Verification of the live grid and its companions

Ten pieces of the repository, modelled in Dafny and proved. The largest is the live grid: a table of any length on a
server, a Store that buffers a window of it, a GridView that scrolls over it with one asynchronous load at a time and
repaints incrementally, and a selection model that keeps a selection while records come and go. The others are the
staged publish of inventory bundles, the 64-bit string hashes, the Bezier curve of the animation library, the idle
timer of the web client, the soft-reference cache, the CRL store cache, reverse-order paging, the password reader and
the cron codec.

The form is the source's. Objects whose methods update fields are classes with those fields; each method is proved
equal to a specification function on a snapshot of the fields, and the theorems are lemmas about those functions, over
all inputs and all runs; each such function is also described without its own name, by what can be observed. Runs are
sequences of steps (user actions, answers and failures of the server, garbage collection, timer callbacks, file
writes), in any order the source allows.

| module | what it holds |
|---|---|
| `LiveStore`, `LiveWindow` | the Store object, and exactly when its window agrees with the remote table |
| `LiveScroll`, `LiveRebuffer` | the scroll, load and queue protocol, the windows it asks for, and when the view comes to rest |
| `LiveView` | the GridView object: the rows on screen and their selection marks under incremental repaint, on top of the store, protocol and selection |
| `LiveSelection`, `LiveSelectionModel` | the selection split between records and pending indexes, and its object |
| `LiveRemoval` | bulk removal and the reader's place |
| `InventoryBundler`, `InventoryPublishing` | bundling and backups over an abstract directory, and what one call leaves |
| `HashFunction`, `HashRecurrences`, `Bezier` | the hash loops on 64-bit words, the in-place de Casteljau loop over the reals |
| `Heartbeat`, `HeartbeatHistory` | heartbeat, timer, browser clock and timer queue, and what every run brings about |
| `SoftCache`, `CrlCache` | the two caches |
| `Pagination`, `PasswordReader`, `PasswordLines` | paging, the growing line buffer, where a line ends |
| `DailyCron`, `CronSpacing` | printing and parsing cron expressions, and the white space that parsing can take |
| `Sets`, `Sequences`, `Wrappers` | finite sets, reversal, the optional value |

## Main results

- The buffered window shows the table's own rows over every run: `LiveWindow.RunKeepsAgreement`.
- At most one load at a time, windows that stay on the table, and exactly when the view comes to rest:
  `LiveScroll.AtMostOneLoad`, `LiveScroll.StartsFitIff`, `LiveScroll.SettlesIff`, `LiveRebuffer.RebuffersIff`.
- An incremental repaint is a full one, through every scroll and answer: `LiveView.GridView.ReplaceLiveRows`,
  `LiveView.GridView.OnLiveScroll`, `LiveView.GridView.OnResponse`.
- The selection is what the user chose, and exactly when it is what is marked: `LiveSelection.RunSelectsWanted`,
  `LiveView.MarksFitIff`.
- Pending selections as the one canonical list of ranges: `LiveSelectionModel.RowSelectionModel.GetPendingRanges`,
  `LiveSelectionModel.CanonicalIsUnique`.
- Bulk removal keeps the reader's place: `LiveView.GridView.RemoveRecords`.
- Publishing is all or nothing over every run, and every call that can publishes:
  `InventoryPublishing.RunsPublishWhole`, `InventoryPublishing.CallPublishes`.
- One substituted character never collides: `HashFunction.NoHashCollides`.
- The in-place loop is the Bernstein sum: `Bezier.GetPosition`.
- Warnings and logouts come exactly on time, and they do come: `Heartbeat.RunsAreOrderly`,
  `HeartbeatHistory.TicksFollowUser`, `HeartbeatHistory.IdleUserIsLoggedOut`.
- Caches: `SoftCache.PutIsDurableIff`, `CrlCache.LoadsAreFresh`.
- Reading to the end, reading a line, reading a cron expression: `Pagination.Drain`, `PasswordReader.DoReadPassword`,
  `DailyCron.FormatParses`, `CronSpacing.ReadsEveryTimeIff`.

## Where the code differs from what one would expect

Comments and names in the source promise more than the code does in these places. The model follows the code. A lemma
says exactly when the promise is kept, and where failing inputs are not plain from it another one gives a run or an
input that the code can receive.

- A multi-record insert lands in reverse, since the loop reuses one index; order is kept for at most one record
  (`LiveWindow.InsertAllReverses`, `LiveWindow.OrderedInsertAgreesIff`).
- An insert into a window that does not start at row 0 and is not full can move the end of the range away from the
  data, and records split off at the end of the buffer are missing from totalLength (`LiveWindow.InsertAgreesIff`;
  `LiveWindow.ShortWindowInsert`, `LiveWindow.SplitInsert`).
- A failed load blanks the range but keeps the old data, which a later insert shows again unless it fills the buffer
  (`LiveWindow.FailedLoadIsBlank`, `LiveWindow.BlankInsertAgreesIff`).
- Scrolling back to the rows on screen leaves the older row in the queue, so the grid can rest on rows other than
  those of the scrollbar (`LiveScroll.SettlesIff`; `LiveScroll.StaleQueueStrandsView`), and marks the selection on the
  wrong nodes (`LiveView.MarksFitIff`; `LiveView.StaleQueueMismarks`).
- The documentation of bufferSize asks only for more than nearLimit plus visibleRows. When visibleRows is more than
  half of bufferSize, a view far from the end loads for ever (`LiveScroll.SettlesInTwoIff`;
  `LiveScroll.FarRowNeverSettles`). Where it is not, that demand is just what keeps the windows fetched while
  scrolling up on the table (`LiveScroll.StartsFitIff`).
- After a bulk removal that leaves fewer rows than the buffer takes, from a table of which only a part was buffered,
  scrolling asks for a negative start (`LiveScroll.RemovalStartsIff`; `LiveScroll.RemovalAsksNegativeStart`).
- A bulk removal that leaves the window sets lastRowIndex without painting. The forced repaint that follows draws
  every row only if the scrollbar has not moved, or by a page; otherwise removed rows stay on screen
  (`LiveScroll.SettlesIff`, `LiveView.RepaintedIff`; `LiveScroll.RemovalLeavesStaleScreen`,
  `LiveView.RemovedRowStays`).
- Deselecting or asking for a row index whose record was selected and has left the window has no effect or gives the
  wrong answer (`LiveSelection.DeselectRemovesIff`, `LiveSelection.IsSelectedIff`;
  `LiveSelection.ScrolledAwayStaysSelected`).
- A difference file with the stamp of the index overwrites the index bundle, and one that is newer makes every call
  bundle again (`InventoryBundler.IndexPublishedIff`, `InventoryBundler.SecondCallIdleIff`;
  `InventoryBundler.ClashHidesIndex`, `InventoryBundler.NewerDifferenceRepublishes`).
- A put to the heap leaves an older backing entry behind, which remove brings back and which put does not return
  (`SoftCache.RemoveForgetsIff`, `SoftCache.PutReturnsOriginalIff`; `SoftCache.ShadowedKey`).
- The CRL cache does not notice a deleted file (`CrlCache.DeletionUnnoticed`; `CrlCache.DeletedAfterLoad`).
- A password of more than 128 characters loses its first 128 (`PasswordReader.ReturnedIff`;
  `PasswordReader.LongPasswordIsLost`).
- The daily pattern accepts any white space, but parsing depends on it: without spaces it throws, and a second space
  before the hour gives another time (`DailyCron.ParsesIff`, `CronSpacing.ReadsEveryTimeIff`;
  `CronSpacing.RecognisedButNotParsed`, `CronSpacing.TwoSpacesReadWrong`).

## Model

| member | source | states |
|---|---|---|
| LiveStore.Store.LoadRecords | web/js/contrib/livegrid-all-debug.js:2998-3016 | The range is [start, min(start + limit, total) - 1] even when the read fails but was answered, [-1, -1] without an answer; the data changes only on success, record by record as add does |
| LiveStore.Store.Insert | web/js/contrib/livegrid-all-debug.js:2651-2701 | The new range, total and data for a position before, in or behind the buffer, including the records split off and the trimming loop |
| LiveStore.Store.Remove | web/js/contrib/livegrid-all-debug.js:2737-2771 | A buffered record goes, the range ends one earlier, one row fewer in total, and the index returned is where it stood |
| LiveStore.Store.BulkRemove | web/js/contrib/livegrid-all-debug.js:2792-2813 | Equal to removing the records one at a time; the listeners get the indexes from before any removal |
| LiveStore.TakenIs | web/js/contrib/livegrid-all-debug.js:2670-2675 | The records that fit behind the index into the buffer are taken, from the first on |
| LiveStore.UnreadAnswerMovesRange | web/js/contrib/livegrid-all-debug.js:2998-3016 | An answer that cannot be read sets the range by start, limit and total, and leaves data and totalLength |
| LiveStore.LoadedTotal | web/js/contrib/livegrid-all-debug.js:2998-3016 | totalLength is the total given, or the number of records when none is |
| LiveWindow.GetAtIsTableRow | web/js/contrib/livegrid-all-debug.js:3025-3034 | In an agreeing window getAt(i) is row i of the table for i in [lo, hi] and undefined for every other i |
| LiveWindow.InsertAllReverses | web/js/contrib/livegrid-all-debug.js:2687-2690 | The insert loop leaves the new records in reverse order at the index |
| LiveWindow.InsertedRows | web/js/contrib/livegrid-all-debug.js:2651-2701 | After an in-buffer insert the data are the rows of the table that has the taken records at that place, from lo on |
| LiveWindow.LoadAgreesIff | web/js/contrib/livegrid-all-debug.js:2998-3016 | A load agrees with the table if and only if the table is not empty and the start is not beyond its end |
| LiveWindow.FailedLoadIsBlank | web/js/contrib/livegrid-all-debug.js:2998-3006 | After a failed load getAt finds nothing, though the stale data stay |
| LiveWindow.InsertAgreesIff | web/js/contrib/livegrid-all-debug.js:2651-2701 | An in-buffer insert keeps data and range in agreement if and only if the window starts at 0, is full, or still ends below bufferSize; totalLength is right if and only if no record is split off |
| LiveWindow.BlankInsertAgreesIff | web/js/contrib/livegrid-all-debug.js:2673-2694 | An insert into a store without a range shows the records in front of the table if and only if there are no stale data or the insert fills the buffer; otherwise the window fits no table at all |
| LiveWindow.ShortWindowInsert | web/js/contrib/livegrid-all-debug.js:2680-2690 | One record inserted behind the first row of a freshly loaded last window leaves a range that is not that of its data |
| LiveWindow.SplitInsert | web/js/contrib/livegrid-all-debug.js:2672-2676 | Two records inserted near the end of a full window: totalLength is one short |
| LiveWindow.OrderedInsertAgreesIff | web/js/contrib/livegrid-all-debug.js:2687-2690 | With the records in their given order in the table, agreement is kept if and only if at most one was taken |
| LiveWindow.OutsideInsertAgrees | web/js/contrib/livegrid-all-debug.js:2656-2668 | Inserts announced before the window shift it, those after it leave it; agreement is kept |
| LiveWindow.RemoveAgrees | web/js/contrib/livegrid-all-debug.js:2737-2771 | Removing a buffered record keeps agreement with the table without that row |
| LiveWindow.StepKeepsAgreement | web/js/contrib/livegrid-all-debug.js:2651-2771 | Each load, failure and remove, each insert outside the buffer, and each insert into it after which its range follows, split or not, with a range before or without, keeps the window on the table or leaves none |
| LiveWindow.RunKeepsAgreement | web/js/contrib/livegrid-all-debug.js:2651-3034 | Over any run of loads, failed loads, removes and inserts, but for in-buffer inserts that InsertAgreesIff and BlankInsertAgreesIff show to leave a wrong window: data length is hi - lo + 1 <= bufferSize, getAt(i) is table row i exactly for i in [lo, hi], and totalLength falls short of the table by exactly the records split off since the last load |
| LiveScroll.StepKeepsInv | web/js/contrib/livegrid-all-debug.js:986-1071 | Every scroll, answer, failure and enabled removal keeps: one load at most, buffering exactly while it is under way, every index and start on the table, the range one that loads and removals leave |
| LiveScroll.AtMostOneLoad | web/js/contrib/livegrid-all-debug.js:1056-1524 | Whatever happens after the first load, removals at any time included: at most one load is under way, exactly while the view is buffering, and nothing is queued without one |
| LiveScroll.LoadsStartOnTable | web/js/contrib/livegrid-all-debug.js:1376-1524 | In every run every load starts on the table, and a table shorter than the buffer is never loaded again |
| LiveScroll.RemovalStartsIff | web/js/contrib/livegrid-all-debug.js:711-761 | After a bulk removal from an idle view every load of every run without another removal starts at 0 or more if and only if the table was left a buffer's worth of rows or had been buffered as a whole |
| LiveScroll.RebufferServesIff | web/js/contrib/livegrid-all-debug.js:1360-1392 | The window fetched for a row holds the rows visible from it if and only if the row was in range, or the last window is fetched, or the visible rows fit half the buffer |
| LiveScroll.StartsFitIff | web/js/contrib/livegrid-all-debug.js:1376-1392 | With visibleRows of at most half the buffer and a table of at least a buffer: in every run without a bulk removal every window fetched starts in [0, totalLength - bufferSize] if and only if nearLimit + visibleRows <= bufferSize, or visibleRows <= 2, or the buffer takes the whole table |
| LiveScroll.PredictedStartIff | web/js/contrib/livegrid-all-debug.js:1376-1392 | Of a single call with any arguments: when the predicted start lies in that interval |
| LiveScroll.PredictNegativeIff | web/js/contrib/livegrid-all-debug.js:1376-1392 | A negative start is predicted if and only if the row is out of range of a table shorter than the buffer |
| LiveScroll.RemovalAsksNegativeStart | web/js/contrib/livegrid-all-debug.js:711-761 | A removal from a table of 120 rows after which a scroll asks for start -30 |
| LiveScroll.RemovalLeavesStaleScreen | web/js/contrib/livegrid-all-debug.js:711-761 | Two runs that come to rest on a screen of old rows: a removal that leaves the window, and a scroll of three rows before the load is answered, or a load that fails |
| LiveScroll.StaysFresh | web/js/contrib/livegrid-all-debug.js:1573-1625 | Without a removal the screen is never stale |
| LiveScroll.SettlesInTwoIff | web/js/contrib/livegrid-all-debug.js:986-1026 | With nothing queued but rowIndex, two successful answers end all loading if and only if the window under way shows the rows of rowIndex, or visibleRows is at most half the buffer, or rowIndex + bufferSize reaches the end of the table; they are on screen if and only if moreover the screen was not stale or is drawn anew as a whole |
| LiveScroll.ScrollShowsOrLoads | web/js/contrib/livegrid-all-debug.js:1056-1071 | A scroll comes to rest at once, on a screen stale if and only if it was and the scroll is of less than a page, or leaves a load under way that settles under exactly those conditions, unless another row is queued |
| LiveScroll.SettlesIff | web/js/contrib/livegrid-all-debug.js:986-1026 | From any state with a load under way, whatever is queued: when loading ends at all, and when it ends with the rows of rowIndex on screen, by the guards of the branches on the windows fetched and on the repaints of a stale screen |
| LiveScroll.NeverSettles | web/js/contrib/livegrid-all-debug.js:1376-1392 | A row shown neither by the window under way nor by one fetched for it is loaded for ever, whatever is queued |
| LiveScroll.FarRowNeverSettles | web/js/contrib/livegrid-all-debug.js:1376-1392 | A run of one scroll, with bufferSize above nearLimit + visibleRows, after which no number of answers ends the loading |
| LiveScroll.StaleQueueStrandsView | web/js/contrib/livegrid-all-debug.js:1056-1071 | A run that rests on row 120 while the scrollbar is at row 80 |
| LiveRebuffer.InRangeIff | web/js/contrib/livegrid-all-debug.js:1360-1367 | A view is in range if and only if every row it shows is buffered |
| LiveRebuffer.RebuffersIff | web/js/contrib/livegrid-all-debug.js:1446-1481 | An idle view in range loads if and only if scrolling down leaves at most nearLimit rows below the view in a window that is not the last, or scrolling up at most nearLimit above in one that is not the first |
| LiveRebuffer.AskedWindow | web/js/contrib/livegrid-all-debug.js:1376-1392 | The one window asked for: the last one, or with the end of the view in its middle, after a jump; from the row on, or the last one, downwards; up to the end of the view upwards; cut at row 0 |
| LiveRebuffer.IdleUpdate | web/js/contrib/livegrid-all-debug.js:1429-1521 | All fields of an idle view after an update: it moves to the row, paints it if in range, and waits exactly if it has asked |
| LiveRebuffer.WaitingUpdate | web/js/contrib/livegrid-all-debug.js:1411-1427 | A waiting view queues the row, and paints it only while it re-buffers ahead and has the rows |
| LiveRebuffer.ScrollUpdates | web/js/contrib/livegrid-all-debug.js:1056-1071 | A scroll to the rows last painted sets rowIndex and nothing else |
| LiveRebuffer.AnsweredRange | web/js/contrib/livegrid-all-debug.js:2998-3016 | The range after an answer is that of the window asked for, cut at the end of the table; after a failure range, queue and flags are cleared and the screen is left |
| LiveRebuffer.RowAfterIsGreatest | web/js/contrib/livegrid-all-debug.js:751-752 | The rowIndex after a bulk removal is the greatest one not below the row's new place that leaves at most one visible row empty, or 0 |
| LiveRebuffer.HistoryGridRebuffers | web/js/user/history.js:38-57 | With the sizes of the history grid and 20 visible rows, row 54 is in the first window and row 60 asks for the next |
| LiveView.GridView.RemoveRows | web/js/contrib/livegrid-all-debug.js:607-613 | The child node at firstRow is removed as often as the range is long, missing nodes being passed over |
| LiveView.GridView.AppendRows | web/js/contrib/livegrid-all-debug.js:1600-1612 | Dropping spill rows in front and appending those that come into view shows the rows of the new cursor, short last pages included |
| LiveView.GridView.PrependRows | web/js/contrib/livegrid-all-debug.js:1613-1618 | Dropping the rows past the last visible one and prepending shows the rows of the new cursor |
| LiveView.GridView.ReplaceLiveRows | web/js/contrib/livegrid-all-debug.js:1573-1625 | From any screen what Repainted says, and the marks that processRows computes; exactly what a full repaint at the cursor draws if the screen was right or every row is drawn |
| LiveView.RepaintedIff | web/js/contrib/livegrid-all-debug.js:1592-1618 | A repaint of any screen is right if and only if it draws every row or the nodes it keeps are right |
| LiveView.ScreenRunsEmpty | web/js/contrib/livegrid-all-debug.js:1600-1612 | With too few nodes on screen a repaint near the end of the table leaves none at all |
| LiveView.RemovedRowStays | web/js/contrib/livegrid-all-debug.js:1600-1612 | After a removal, a repaint less than a page further down keeps the nodes of rows that are gone |
| LiveView.GridView.ProcessRows | web/js/contrib/livegrid-all-debug.js:1106-1132 | Node i is marked if and only if row rowIndex + i is buffered and its record selected |
| LiveView.MarksFitIff | web/js/contrib/livegrid-all-debug.js:1106-1132 | After a repaint at a cursor the marks are those of the rows shown, for every coherent selection, if and only if the cursor is rowIndex |
| LiveView.GridView.DrawRowIndex | web/js/contrib/livegrid-all-debug.js:1005-1009 | Drawing the rows of rowIndex keeps the marks on exactly the selected rows, or puts them there when it ends a stale screen |
| LiveView.GridView.Redraw | web/js/contrib/livegrid-all-debug.js:1005-1015 | So does the whole redraw unless another row is queued and the window has both; then the marks are those of the rows from rowIndex on |
| LiveView.StaleQueueMismarks | web/js/contrib/livegrid-all-debug.js:1011-1015 | In the run that rests on the wrong rows, the top row on screen is selected and its node not marked |
| LiveView.GridView.UpdateLiveRows | web/js/contrib/livegrid-all-debug.js:1407-1524 | Follows the protocol function and keeps the screen equal to the table's rows from lastRowIndex on |
| LiveView.GridView.OnLiveScroll | web/js/contrib/livegrid-all-debug.js:1056-1071 | Every scroll keeps window, protocol and screen valid, stale ones included, and a right screen and its marks right; back at the rows on screen it changes neither rows nor marks |
| LiveView.GridView.OnResponse | web/js/contrib/livegrid-all-debug.js:986-1026 | The whole path of an answer or failure through store, selection and view keeps all invariants and the selected rows; the screen is right unless the protocol calls it stale, and the marks but for the queued row above |
| LiveView.GridView.SelectRow | web/js/contrib/livegrid-all-debug.js:2245-2278 | The row becomes selected, alone or with the others, and with the rows of rowIndex on screen exactly the selected nodes are marked |
| LiveView.GridView.DeselectRow | web/js/contrib/livegrid-all-debug.js:2215-2235 | At most that row is deselected, and it is if and only if it is buffered or its record not in hand; with the rows of rowIndex on screen exactly the selected nodes are marked afterwards |
| LiveView.GridView.ClearSelections | web/js/contrib/livegrid-all-debug.js:2395-2416 | Nothing is selected unless locked, and with the rows of rowIndex on screen no node stays marked, although only those of buffered records are told |
| LiveView.GridView.OnBulkRemove | web/js/contrib/livegrid-all-debug.js:711-761 | The new rowIndex is the old one less the removals above it, clamped; an idle view whose window still covers it is repainted and marked, and any other keeps the old rows on screen |
| LiveView.GridView.RemoveRecords | web/js/contrib/livegrid-all-debug.js:2792-2813 | Store and view together follow the removal step of the runs; the window agrees with the smaller table; the row at the new rowIndex is the one at the old rowIndex if and only if it survives unclamped; after an enabled removal the view can go on scrolling, in range or not |
| LiveView.ShownIsSlice | web/js/contrib/livegrid-all-debug.js:1573-1625 | A full repaint shows table[cursor .. min(cursor + visibleRows, length)] |
| LiveView.AppendShows | web/js/contrib/livegrid-all-debug.js:1600-1612 | Kept rows and appended rows make up the repaint at the lower cursor, also when nothing is left to append |
| LiveView.PrependShows | web/js/contrib/livegrid-all-debug.js:1613-1618 | Prepended rows and kept rows make up the repaint at the upper cursor |
| LiveView.GridView.ScreenShows | web/js/contrib/livegrid-all-debug.js:1573-1625 | A screen that is not stale shows table[lastRowIndex .. min(lastRowIndex + visibleRows, length)] |
| LiveView.GridView.MarkingIff | web/js/contrib/livegrid-all-debug.js:1106-1132 | The marks are right if and only if node i is marked exactly when row lastRowIndex + i is selected |
| LiveSelection.SelectAddsRow | web/js/contrib/livegrid-all-debug.js:2245-2278 | selectRow adds the row to the selected ones, or makes it the only one, buffered or not |
| LiveSelection.DeselectRemovesIff | web/js/contrib/livegrid-all-debug.js:2215-2235 | deselectRow takes exactly that row out if and only if it is in the window or its record is not in hand; it never changes another row |
| LiveSelection.ReplacedAt | web/js/contrib/livegrid-all-debug.js:2311-2346 | What becomes of each row of the table in both loops |
| LiveSelection.ReplaceKeepsSelection | web/js/contrib/livegrid-all-debug.js:2311-2346 | For any new window the selected rows are the same, no pending index lies in the window, and selected records of the window are its own objects |
| LiveSelection.MarksAreSelected | web/js/contrib/livegrid-all-debug.js:1106-1132 | A row is marked if and only if it is buffered and selected |
| LiveSelection.IsSelectedIff | web/js/contrib/livegrid-all-debug.js:2142-2159 | isSelected(index) is right if and only if the row is buffered, pending, or has no record in hand |
| LiveSelection.ScrolledAwayStaysSelected | web/js/contrib/livegrid-all-debug.js:2215-2235 | A row is selected and the window moves away: isSelected then denies it and deselectRow leaves it selected |
| LiveSelection.StepKeepsCoherence | web/js/contrib/livegrid-all-debug.js:2215-2346 | Every select, in-window deselect, re-buffer and failure keeps coherence and does to the selected rows what the user asked |
| LiveSelection.RunSelectsWanted | web/js/contrib/livegrid-all-debug.js:2215-2346 | Over any run of them the split selection is exactly the set of rows the user chose |
| LiveSelection.SelectedOnce | web/js/contrib/livegrid-all-debug.js:2245-2278 | In any state a selected row is held by its record or by its index and not by both, and the other indexes stay or go with keepExisting |
| LiveSelection.DeselectedIndex | web/js/contrib/livegrid-all-debug.js:2215-2235 | In any state the row is no longer pending afterwards and no other index changes |
| LiveSelectionModel.RowSelectionModel.SelectRow | web/js/contrib/livegrid-all-debug.js:2245-2278 | Records and pending indexes after selecting, honouring locked, singleSelect and the table's bounds |
| LiveSelectionModel.RowSelectionModel.DeselectRow | web/js/contrib/livegrid-all-debug.js:2215-2235 | Records and pending indexes after deselecting |
| LiveSelectionModel.RowSelectionModel.ClearSelections | web/js/contrib/livegrid-all-debug.js:2395-2416 | Everything is cleared, whatever the loop over the records does, and nothing when locked |
| LiveSelectionModel.RowSelectionModel.SelectRange | web/js/contrib/livegrid-all-debug.js:2428-2447 | The rows of the range that exist become selected, in either direction; with singleSelect only the last one reached stays |
| LiveSelectionModel.RowSelectionModel.GetPendingSelections | web/js/contrib/livegrid-all-debug.js:2348-2370 | The pending indexes, ascending, each once |
| LiveSelectionModel.RowSelectionModel.GetPendingRanges | web/js/contrib/livegrid-all-debug.js:2348-2390 | The ranges are non-empty, ascending, separated by gaps and cover exactly the pending indexes |
| LiveSelectionModel.CanonicalIsUnique | web/js/contrib/livegrid-all-debug.js:2348-2390 | Only one list of ranges is of that form, so each range is a maximal run |
| LiveSelectionModel.RowSelectionModel.ReplaceSelections | web/js/contrib/livegrid-all-debug.js:2311-2346 | The object is coherent with the newly loaded window and selects the same rows |
| LiveRemoval.BulkRemoveAgrees | web/js/contrib/livegrid-all-debug.js:2792-2813 | Bulk removal of distinct buffered records keeps agreement with the table without their rows, and lo |
| LiveRemoval.WithoutAt | web/js/contrib/livegrid-all-debug.js:711-761 | A surviving row stands at the number of survivors above it |
| LiveRemoval.CountIsExact | web/js/contrib/livegrid-all-debug.js:731-740 | The count of removed indexes above row r is exactly the number of rows missing above it |
| LiveRemoval.KeepsPlaceIff | web/js/contrib/livegrid-all-debug.js:711-761 | The row at the new rowIndex is the row that was at the old one if and only if it survives and the clamps leave its place |
| LiveRemoval.RowAfterOnTable | web/js/contrib/livegrid-all-debug.js:751-752 | The new rowIndex is a row of the table if and only if some row is left and, with one visible row, some row is left from the old one on |
| InventoryBundler.PackagedInventory.BackUp | src/java/com/solers/delivery/inventory/InventoryBundler.java:261-289 | Without bundles nothing happens; otherwise they are saved, or the attempt breaks, and the newest numInventoryBackups of all backups remain |
| InventoryBundler.PackagedInventory.DropOldest | src/java/com/solers/delivery/inventory/InventoryBundler.java:279-288 | Those kept are unchanged, as many as allowed, and each one dropped is older than each one kept |
| InventoryBundler.PackagedInventory.BundleInventory | src/java/com/solers/delivery/inventory/InventoryBundler.java:106-191 | Nothing changes without an index or when up to date; otherwise no temporary file remains and the bundles are all of the publish if every archive was made, and the old ones if not |
| InventoryBundler.PackagedInventory.Package | src/java/com/solers/delivery/inventory/InventoryBundler.java:138-171 | On success every archive is made; on failure exactly those before the failing one are, and what that one left |
| InventoryBundler.PackagedInventory.DeleteBundles | src/java/com/solers/delivery/inventory/InventoryBundler.java:173-178 | Deleting the bundles listed before leaves none of the old set |
| InventoryBundler.PackagedInventory.FinishTemps | src/java/com/solers/delivery/inventory/InventoryBundler.java:180-190 | Every temporary file is gone: deleted after a failure, otherwise a bundle with the same content |
| InventoryBundler.PackedHolds | src/java/com/solers/delivery/inventory/InventoryBundler.java:138-171 | A publish is one bundle for the index and for each i one holding exactly diffs[i..] |
| InventoryBundler.IndexPublishedIff | src/java/com/solers/delivery/inventory/InventoryBundler.java:138-171 | The index bundle holds the index if and only if no difference has its stamp |
| InventoryBundler.SecondCallIdleIff | src/java/com/solers/delivery/inventory/InventoryBundler.java:120-131 | A second call finds nothing to do if and only if no difference is newer than the index |
| InventoryBundler.ClashHidesIndex | src/java/com/solers/delivery/inventory/InventoryBundler.java:138-171 | A first publish with a difference of the index's stamp: no bundle holds the index |
| InventoryBundler.NewerDifferenceRepublishes | src/java/com/solers/delivery/inventory/InventoryBundler.java:120-131 | After a publish with a newer difference the next call backs the same bundles up and publishes them again |
| InventoryBundler.CallKeepsSound | src/java/com/solers/delivery/inventory/InventoryBundler.java:106-191 | A call publishes everything or leaves the bundles as they were, failing or not |
| InventoryBundler.RunsStaySound | src/java/com/solers/delivery/inventory/InventoryBundler.java:106-289 | In every run of calls: no temporary file left, bundles always those of one publish, backups always of one publish unless broken, and never more than numInventoryBackups |
| InventoryPublishing.CallPublishes | src/java/com/solers/delivery/inventory/InventoryBundler.java:106-191 | A call on a directory that is behind, whatever bundles it has, leaves exactly a bundle for the index and for each i one with diffs[i] and the later ones in order, if every archive is made |
| InventoryPublishing.CallGivesUp | src/java/com/solers/delivery/inventory/InventoryBundler.java:163-186 | If an archive fails the bundles are those of before and no temporary file is left |
| InventoryPublishing.IdleCall | src/java/com/solers/delivery/inventory/InventoryBundler.java:114-132 | Without an index, or with the index's bundle the newest, nothing is changed |
| InventoryPublishing.CallBacksUp | src/java/com/solers/delivery/inventory/InventoryBundler.java:261-289 | The bundles there are join the backups of before; as many as allowed are kept unchanged, and each one dropped is older than each one kept |
| InventoryPublishing.NewestIsUnique | src/java/com/solers/delivery/inventory/InventoryBundler.java:279-288 | There is only one way to keep the newest backups |
| InventoryPublishing.CallIsDetermined | src/java/com/solers/delivery/inventory/InventoryBundler.java:106-191 | Files, time and fault determine what a call leaves |
| InventoryPublishing.RunsPublishWhole | src/java/com/solers/delivery/inventory/InventoryBundler.java:106-289 | In every run from an empty directory no temporary file is left, backups are within bounds, and the bundles, and those in every whole backup, are those of one publish by name and content |
| HashFunction.FNVHash | src/java/com/solers/util/HashFunction.java:285-295 | The loop computes the fold of multiply, then xor |
| HashFunction.FNV1aHash | src/java/com/solers/util/HashFunction.java:297-307 | The loop computes the fold of xor, then multiply |
| HashFunction.BKDRHash | src/java/com/solers/util/HashFunction.java:234-243 | The loop computes the fold of multiply by 131 and add |
| HashFunction.SDBMHash | src/java/com/solers/util/HashFunction.java:245-253 | The shift-and-add loop computes its fold |
| HashFunction.DJBHash | src/java/com/solers/util/HashFunction.java:255-263 | The shift-and-add loop computes its fold from 5381 |
| HashFunction.PJWHash | src/java/com/solers/util/HashFunction.java:199-216 | The branching loop equals the branchless fold of the low 28 bits, and stays in [0, 2^28) |
| HashFunction.PjwBranch | src/java/com/solers/util/HashFunction.java:206-213 | The branch for high bits, with Java's arithmetic shift, equals folding them in without a branch, below 2^28 |
| HashFunction.SdbmMultiplies | src/java/com/solers/util/HashFunction.java:245-253 | The shifts multiply by 65599 modulo 2^64 |
| HashFunction.DjbMultiplies | src/java/com/solers/util/HashFunction.java:255-263 | The shift multiplies by 33 modulo 2^64 |
| HashFunction.SubstitutionNeverCollides | src/java/com/solers/util/HashFunction.java:234-307 | Strings that differ in exactly one character never collide under such a hash |
| HashFunction.NoHashCollides | src/java/com/solers/util/HashFunction.java:234-307 | None of FNV, FNV1a, BKDR, SDBM and DJB collides on two strings of equal length that differ in exactly one character |
| HashRecurrences.FnvAppends | src/java/com/solers/util/HashFunction.java:285-295 | From 0, one more character multiplies by 0x811C9DC5, sign-extended, and then xors |
| HashRecurrences.Fnv1aAppends | src/java/com/solers/util/HashFunction.java:297-307 | From 0, one more character xors and then multiplies by the same |
| HashRecurrences.BkdrAppends | src/java/com/solers/util/HashFunction.java:234-243 | From 0, one more character multiplies by 131 and adds |
| HashRecurrences.SdbmAppends | src/java/com/solers/util/HashFunction.java:245-253 | From 0, one more character comes to multiplying by 65599 and adding |
| HashRecurrences.DjbAppends | src/java/com/solers/util/HashFunction.java:255-263 | From 5381, one more character comes to multiplying by 33 and adding |
| HashRecurrences.PjwAppends | src/java/com/solers/util/HashFunction.java:199-216 | From 0, one more character shifts by 4, adds, folds the bits from 28 on in at bit 4 and clears them |
| Bezier.GetPosition | web/ext/adapter/ext/ext-base.js:9 | The in-place triangular loop returns the Bernstein sum over the control points, in each coordinate, for any number of points |
| Bezier.RoundIsBernstein | web/ext/adapter/ext/ext-base.js:9 | After e rounds entry f holds the Bernstein sum of degree e over the points from f on |
| Bezier.CurveWithin | web/ext/adapter/ext/ext-base.js:9 | For t in [0, 1] each coordinate stays within any bounds of the control coordinates |
| Bezier.CurveEnds | web/ext/adapter/ext/ext-base.js:9 | The curve starts at the first point and ends at the last |
| Bezier.CurveBackwards | web/ext/adapter/ext/ext-base.js:9 | Reversed control points give the same curve run backwards |
| Bezier.CurveInterpolates | web/ext/adapter/ext/ext-base.js:9 | The curve at t lies t of the way from the curve of all points but the last to that of all but the first |
| Bezier.CurveOfOne | web/ext/adapter/ext/ext-base.js:9 | The curve of one point is that point |
| Heartbeat.Session.HeartbeatLoop | web/js/heartbeat.js:24-33 | An active tick stops a started timer, an idle one starts a stopped timer, and the next tick is scheduled |
| Heartbeat.Session.StartTimer | web/js/heartbeat.js:64-68 | The warning is scheduled for the timeout less 35 seconds, shown at once if that is zero, and due at once if it is less |
| Heartbeat.Session.StopTimer | web/js/heartbeat.js:70-84 | Nothing happens while the warning shows; otherwise both callbacks are cancelled |
| Heartbeat.Session.NoticeActivity | web/js/heartbeat.js:35-37 | A click makes the next tick an active one |
| Heartbeat.Session.ShowWarning | web/js/heartbeat.js:90-106 | The warning is up and the countdown of its seconds scheduled |
| Heartbeat.Session.CountDown | web/js/heartbeat.js:113-123 | At zero the session is logged out, before that the next second is scheduled |
| Heartbeat.Session.CancelWarning | web/js/heartbeat.js:108-111 | The warning goes and the timer is stopped |
| Heartbeat.StopRests | web/js/heartbeat.js:70-84 | Stopping a timer whose warning is down leaves nothing of it pending, whichever field names the callback |
| Heartbeat.StepKeepsInv | web/js/heartbeat.js:24-123 | Time, every callback, activity and Cancel keep the invariant of timer fields, queue and log |
| Heartbeat.RunsAreOrderly | web/js/heartbeat.js:24-123 | For every session timeout, in every run at most one countdown is pending and none while stopped; every warning comes timeout - 35 s, or no time, after a start with only idle ticks between; every logout exactly 30 s after a warning nobody cancelled |
| Heartbeat.WarningStays | web/js/heartbeat.js:70-123 | No single event but Cancel takes the warning down before the logout |
| Heartbeat.OnlyCancelStopsWarning | web/js/heartbeat.js:70-123 | Without Cancel the warning stays up whatever the activity, and time cannot pass its 30 seconds without the logout |
| HeartbeatHistory.TicksFollowUser | web/js/heartbeat.js:24-37 | In every run a tick comes every 5 seconds from the start on, and is active if and only if it is the first or the user has clicked since the one before |
| HeartbeatHistory.ClicksAreLogged | web/js/heartbeat.js:35-37 | Activity is logged as a click, and nothing else is |
| HeartbeatHistory.IdleUserIsLoggedOut | web/js/heartbeat.js:10-123 | A run without activity and Cancel has its warning 30 seconds before the session timeout, or at 5 seconds for a timeout below 35, cannot get past 30 seconds later, and is logged out exactly then |
| HeartbeatHistory.EveryWarningIsDue | web/js/heartbeat.js:64-106 | In every run a warning comes exactly timeout - 35 seconds, or none for less, after a start with only idle ticks since |
| HeartbeatHistory.EveryLogoutIsDue | web/js/heartbeat.js:113-123 | In every run a logout comes exactly 30 seconds after a warning with nothing but ticks and clicks since |
| HeartbeatHistory.NeverStuck | web/js/heartbeat.js:24-123 | As long as nobody is logged out a callback is due or time can go on |
| SoftCache.SoftMap.Get | src/java/com/solers/util/SoftCache.java:76-80 | The value under the key from heap, backing or reconstructor, and what is buried again |
| SoftCache.SoftMap.Remove | src/java/com/solers/util/SoftCache.java:102-110 | The value as get finds it, and only the region where it was found loses the key |
| SoftCache.SoftMap.PutValue | src/java/com/solers/util/SoftCache.java:60-69 | Null throws and changes nothing; otherwise the new regions and the value returned |
| SoftCache.RemoveForgetsIff | src/java/com/solers/util/SoftCache.java:102-110 | After remove the key is absent if and only if it was not in both regions; otherwise the hidden entry comes back; other keys are untouched |
| SoftCache.PutReturnsOriginalIff | src/java/com/solers/util/SoftCache.java:60-69 | put sets the key and no other, and returns what get found before if and only if the heap was full, held the key, or backing did not |
| SoftCache.HeapStaysBounded | src/java/com/solers/util/SoftCache.java:60-110 | Over every run of operations and collections the heap stays within heapSize |
| SoftCache.QuietKeeps | src/java/com/solers/util/SoftCache.java:60-110 | While a key is neither put nor removed its entry survives, in its region, any interleaving with collections |
| SoftCache.ShadowedKey | src/java/com/solers/util/SoftCache.java:60-110 | A run from the empty cache in which put does not return what get found, and remove brings an older value back |
| SoftCache.PutIsDurableIff | src/java/com/solers/util/SoftCache.java:60-110 | After a put every such interleaving finds the value put or the rebuilt one; always the value put if and only if it went to the heap or is what the reconstructor rebuilds |
| SoftCache.PutRegionIff | src/java/com/solers/util/SoftCache.java:60-69 | A put goes to the heap if and only if it has room, and otherwise to the backing map alone |
| SoftCache.PutOverlooks | src/java/com/solers/util/SoftCache.java:60-69 | With room in the heap, put returns null for a key that only the backing map has |
| SoftCache.GetRebuilds | src/java/com/solers/util/SoftCache.java:76-100 | A get of a cleared reference returns the rebuilt value and holds it again; any other changes nothing |
| CrlCache.PKIXParametersWrapper.StoreChanged | src/java/com/solers/security/CRLConfigurator.java:258-270 | True if and only if the directory has no store or some file's time is not the recorded one |
| CrlCache.PKIXParametersWrapper.LoadCertStore | src/java/com/solers/security/CRLConfigurator.java:214-256 | null, an exception or a store, and what is left in both maps, also when a file fails partway |
| CrlCache.LoadKeepsCoherence | src/java/com/solers/security/CRLConfigurator.java:214-256 | A load, throwing partway or not, keeps: a store not seen as changed equals a fresh parse, in every directory |
| CrlCache.StepKeepsInv | src/java/com/solers/security/CRLConfigurator.java:214-270 | Every write, new directory and load keeps: recorded times are those of files that parse, and a store not seen as changed equals a fresh parse |
| CrlCache.LoadsAreFresh | src/java/com/solers/security/CRLConfigurator.java:214-270 | After any run, including calls that threw partway, a load returns for every path exactly what a load without cache returns: the same store, null or an exception |
| CrlCache.DeletionUnnoticed | src/java/com/solers/security/CRLConfigurator.java:258-270 | After a deletion the old store is returned; it equals the fresh one if and only if another file holds the same CRL |
| CrlCache.DeletedAfterLoad | src/java/com/solers/security/CRLConfigurator.java:258-270 | A directory is loaded and a file whose CRL no other has is deleted: the next load is not what a load without cache returns |
| CrlCache.LoadAnswers | src/java/com/solers/security/CRLConfigurator.java:214-256 | After any such run: null where nothing is, an exception for a plain file or if some file does not parse, and otherwise exactly the CRLs that the files parse to |
| Pagination.PaginatedHitsList.SubList | src/java/com/solers/util/PaginatedList.java:83-85 | The page of the reversed hits, or an exception before initialize |
| Pagination.PaginatedHitsList.GetSubList | src/java/com/solers/lucene/PaginatedHitsList.java:53-80 | Gathering the descending window in ascending order and reversing gives reverse(hits)[from .. min(to, n)], for any from and to |
| Pagination.SliceReverses | src/java/com/solers/lucene/PaginatedHitsList.java:53-62 | The window computed from the size, reversed, is the ascending page of the reversed hits, clamps included |
| Pagination.PageEmptyIff | src/java/com/solers/lucene/PaginatedHitsList.java:53-80 | A page is empty if and only if it starts at or past the end or to is not above from |
| Pagination.PageAt | src/java/com/solers/lucene/PaginatedHitsList.java:53-80 | Which elements a page holds, by position, and how many |
| Pagination.PaginatedListIterator.HasNext | src/java/com/solers/util/PaginatedList.java:211-213 | True exactly while fewer elements than the size have been taken |
| Pagination.PaginatedListIterator.Next | src/java/com/solers/util/PaginatedList.java:215-221 | The next hit in reverse order across page borders, or an exception at the end, count advancing either way; an empty first page always throws |
| Pagination.ReadAll | src/java/com/solers/util/PaginatedList.java:206-226 | A search counted by initialize and read to the end by the iterator gives the hits in reverse if pageSize >= 1 or there are none, and throws at once otherwise |
| Pagination.Drain | src/java/com/solers/util/PaginatedList.java:206-226 | Reading to the end yields every hit exactly once in reverse collection order if and only if pageSize >= 1 or there are no hits |
| PasswordReader.LineIsFirst | src/java/com/solers/util/IOConsole.java:169-185 | The line is the one prefix that ends at a newline, a return with newline or end behind it, or the end, and meets none before |
| PasswordReader.NextChar | src/java/com/solers/util/IOConsole.java:169-185 | One round of the switch: a terminator, or the next character of the line with a lone return kept |
| PasswordReader.LineBuffers.Store | src/java/com/solers/util/IOConsole.java:187-196 | One more character is stored in bounds; before the first growth the two arrays are separate, afterwards they are one |
| PasswordReader.LineBuffers.Take | src/java/com/solers/util/IOConsole.java:203-211 | null for no characters, otherwise a copy of what was stored |
| PasswordReader.DoReadPassword | src/java/com/solers/util/IOConsole.java:156-214 | For every input: null for an empty line, the line itself up to 128 characters, and beyond that NULs in place of the first 128 |
| PasswordReader.ReturnedIff | src/java/com/solers/util/IOConsole.java:187-196 | The password read is the line if and only if it has at most 128 characters or its first 128 are NUL |
| PasswordReader.LongPasswordIsLost | src/java/com/solers/util/IOConsole.java:187-196 | No input of more than 128 ordinary characters that begins with another than NUL is read as typed |
| PasswordLines.LineEnds | src/java/com/solers/util/IOConsole.java:169-185 | Behind characters that are neither, a newline, a return with a newline, a return at the end and the end itself end the line there |
| PasswordLines.LoneReturnGoesOn | src/java/com/solers/util/IOConsole.java:176-187 | A return before any other character belongs to the line, which goes on with that character |
| PasswordLines.ReturnedAt | src/java/com/solers/util/IOConsole.java:187-196 | Each character returned: NUL among the first 128 of a longer line, and otherwise the line's own |
| DailyCron.ParseDaily | web/js/user/cron.js:14-63 | The time and days of a parsed expression, or the exception for too few parts; the loop collects the days in order |
| DailyCron.FormatParses | web/js/user/cron.js:5-63 | For any time value that reads as hour 0-23 and minute 0-59 and any non-empty day list: the printed expression is recognised, and parsing gives the padded HHMM and the same days |
| DailyCron.ClockRoundTrip | web/js/user/cron.js:5-63 | The same from a time shown as HH:MM |
| DailyCron.DaysRoundTrip | web/js/user/cron.js:40-57 | A printed day list is read back as the same list |
| DailyCron.ParsesIff | web/js/user/cron.js:17-40 | Parsing gets by if and only if the expression has five spaces or more |
| DailyCron.DaysReadAre | web/js/user/cron.js:40-57 | Of a list of digits exactly those from 1 to 7 are read as days, in their order |
| DailyCron.DayListIff | web/js/user/cron.js:67 | The day lists of the pattern are the digits with commas between them |
| DailyCron.StarHasNoTime | web/js/user/cron.js:29-34 | A star for the minute or the hour leaves the time out |
| DailyCron.CharacterClasses | web/js/user/cron.js:67 | Which characters count as white space and as digits |
| DailyCron.PrintedExample | web/js/user/cron.js:5-11 | The expression for 23:01 on days 1 and 2, character by character |
| CronSpacing.RecognisedIff | web/js/user/cron.js:65-72 | The recognised expressions are the matches of the pattern with white space around them |
| CronSpacing.ReadsEveryTimeIff | web/js/user/cron.js:14-72 | For the white space of a recognised expression: every time and day list in it is read back as matched if and only if there is no space in front, one before the minute, one before the hour, at least one behind the hour and before the days, and three from the hour to the days in all |
| CronSpacing.WellSpacedReads | web/js/user/cron.js:14-63 | An expression spaced like that is read as its matched minute, hour and days |
| CronSpacing.TwoSpacesReadWrong | web/js/user/cron.js:14-63 | With a second space before the hour a recognised expression is read as hour 00 on no day |
| CronSpacing.RecognisedButNotParsed | web/js/user/cron.js:65-72 | Without any space an expression is recognised, and parsing throws |

## Left out

Live grid
- DOM, CSS, events, masks and pixel arithmetic; visibleRows is constant (adjustVisibleRows, layout).
- onColumnMove and the view's onAdd and insertRows: they repaint outside the scroll and response protocol.
- The selection model's onAdd, onRemove, shiftSelections, deselectRecord, its last and lastActive fields and the
  beforerowselect vetoes.
- LiveStore.Store.Remove: only for a record whose id is buffered, because for another one findInsertIndex reports
  "before the buffer" with Number.MIN_VALUE, which is positive, and the branch for it is not reached.
- LiveStore.Store.BulkRemove: only for distinct buffered records, for the same reason.
- LiveWindow.RunKeepsAgreement: in-buffer inserts that leave a wrong window are no step of its runs; which these are
  is the subject of LiveWindow.InsertAgreesIff and LiveWindow.BlankInsertAgreesIff.
- Sorting and resets in the middle of a run, and an empty table in the scroll protocol.
- LiveView.GridView.RemoveRecords: some row must be left and, with one visible row, some row from rowIndex on, because
  otherwise the new rowIndex is not a row of the table. The same holds for LiveView.GridView.OnBulkRemove.
- LiveScroll.StepKeepsInv: removals with a load of the old table under way, and removals that leave the window while
  fewer rows are on screen than it then shows, are not enabled; after one of the latter kind the screen can run empty
  (LiveScroll.ShortPageGoesOnPossible, LiveView.ScreenRunsEmpty), and a prepend to an empty screen fails in the
  original.
- LiveScroll.StartsFitIff: for runs without bulk removals, because the window of a removal may end up near the new end
  of the table; LiveScroll.LoadsStartOnTable covers the others.
- LiveView.GridView.RemoveRecords: says nothing of the selection, whose onRemove is not part of this model.
- LiveView.GridView.UpdateLiveRows: the forceReload parameter is left out, because nothing passes it.
- LiveView.GridView.ProcessRows: the stripes are left out and only the selection marks are kept.
- LiveView.GridView.SelectRow: the marks are right at rest only; while a load is under way the node of another row can
  be marked, because getRow counts from rowIndex, and this is not followed further.
- Duplicate ids in the remote table. Object identity of records is modelled by a handle in the value.

Publishing
- File names are their numeric stamps: names of different length, content set names with a dot, and directories with
  ".tmp" in their path are not modelled.
- InventoryBundler.PackagedInventory.CreateTarGzip: tar bytes are left out, and so is a source file that cannot be
  read, whose error is logged and whose fate depends on the tar library.
- InventoryBundler.PackagedInventory.FinishTemps: deletes and renames that fail are left out, because the source
  ignores their results.
- Notification of observers, creation of the packaged directory, negative numInventoryBackups.

The others
- HashFunction: RS, JS, ELF, DEK, BP, AP, FORTH and the digests, which have no property of the same kind.
- Bezier.GetPosition: floating-point rounding is left out, and the empty list of points, on which the original fails.
- Heartbeat.RunsAreOrderly: callbacks that fire late and the page after the logout are left out; so is the server call
  in each tick.
- SoftCache.SoftMap.Get: a reconstructor that returns null is left out; so are the map's views and sizes.
- CrlCache.LoadsAreFresh: I/O errors other than those that follow from a file's contents are left out, and LDAP
  stores. A file rewritten with an old modification time is outside the theorem, as the cache cannot see it.
- Pagination.PaginatedHitsList.GetSubList: Lucene I/O errors, an index that changes between pages and overflow of int
  are left out.
- PasswordReader.DoReadPassword: the masking thread and I/O exceptions are left out.
- DailyCron: white space is that of ASCII, and numbers are unbounded.
- REST services, data access, encryption, inventory comparison and the remaining user interface.
