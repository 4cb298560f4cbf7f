/**
 * When the live grid asks for another window, which one, and what a view then shows: updateLiveRows in terms of the
 * rows and the sizes alone.
 */
module LiveRebuffer {
  import opened LiveStore
  import opened LiveRemoval
  import opened LiveScroll

  predicate Within(lo: int, hi: int, row: int) { lo <= row <= hi }

  /** A view is in range exactly when every row it shows is buffered. */
  lemma InRangeIff(c: Config, lo: int, hi: int, index: int)
    requires 0 < c.visible && 0 <= index < c.total
    ensures c.InRange(lo, hi, index) <==>
            forall row :: index <= row < index + c.visible && row < c.total ==> Within(lo, hi, row)
  {
    assert Within(lo, hi, index) <==> lo <= index <= hi;
    var last := Min(c.total - 1, index + c.visible - 1);
    assert Within(lo, hi, last) <==> lo <= last <= hi;
  }

  /**
   * An idle view with the rows in the window loads exactly when scrolling down leaves no more than nearLimit rows
   * below the view and the table goes on, or scrolling up no more than nearLimit above and it begins before.
   */
  lemma RebuffersIff(c: Config, g: Grid, index: int, force: bool)
    requires !g.buffering && g.inFlight == [] && c.InRange(g.lo, g.hi, index)
    ensures c.UpdateLiveRows(g, index, force).inFlight != [] <==>
            || (index > g.lastIndex && index + c.visible + c.near > g.hi && g.hi + 1 < c.total)
            || (index < g.lastIndex && 0 < g.lo && index - c.near <= g.lo)
  {
  }

  /** The window asked for, if any, by where the view lies in it. */
  lemma AskedWindow(c: Config, g: Grid, index: int, force: bool)
    requires c.Sane() && !g.buffering && g.inFlight == [] && 0 <= index < c.total
    requires c.UpdateLiveRows(g, index, force).inFlight != []
    ensures var after := c.UpdateLiveRows(g, index, force);
            var start := after.inFlight[0].start;
            && after.inFlight == [Request(start, force)]
            && (if !c.InRange(g.lo, g.hi, index) then
                  (if c.total <= index + c.size then start + c.size == c.total
                   else start >= 0 && (start + (c.size + 1) / 2 == index + c.visible ||
                                       (start == 0 && index + c.visible < (c.size + 1) / 2)))
                else if index > g.lastIndex then
                  start >= 0 && start <= index
                  && (start == index || start + c.size == c.total || (start == 0 && c.total < c.size))
                  && (start < index ==> c.total < index + c.size)
                else start >= 0 && (start + c.size == index + c.visible || (start == 0 && index + c.visible < c.size)))
  {
  }

  /** A page or more lies between the rows. */
  predicate Apart(row: int, other: int, page: nat) { page <= other - row || page <= row - other }

  /** An idle view moves to the row, paints it if it can, and waits exactly if it has asked for a window. */
  lemma IdleUpdate(c: Config, g: Grid, index: int, force: bool)
    requires !g.buffering && !g.prebuffering && g.inFlight == []
    ensures var after, inRange := c.UpdateLiveRows(g, index, force), c.InRange(g.lo, g.hi, index);
            && after.lastIndex == index && after.rowIndex == g.rowIndex && after.queue == g.queue
            && after.lo == g.lo && after.hi == g.hi
            && after.lastRowIndex == (if inRange then index else g.lastRowIndex)
            && after.buffering == (after.inFlight != []) && after.prebuffering == (after.buffering && inRange)
            && (!inRange ==> after.buffering)
            && after.stale == (g.stale && !(inRange && (Apart(g.lastRowIndex, index, c.visible) ||
                                                        (index == g.lastRowIndex && force))))
  {
  }

  /** A view that waits queues the row, and paints it only if it waits for a re-buffer and has the rows. */
  lemma WaitingUpdate(c: Config, g: Grid, index: int, force: bool)
    requires g.buffering
    ensures var after, paints := c.UpdateLiveRows(g, index, force), g.prebuffering && c.InRange(g.lo, g.hi, index);
            && after.queue == index && after.inFlight == g.inFlight && after.buffering
            && after.prebuffering == g.prebuffering
            && after.lastIndex == g.lastIndex && after.rowIndex == g.rowIndex && after.lo == g.lo && after.hi == g.hi
            && after.lastRowIndex == (if paints then index else g.lastRowIndex)
            && after.stale == (g.stale && !(paints && Apart(g.lastRowIndex, index, c.visible)))
  {
  }

  /** A scroll back to the rows last painted does nothing else; any other is an update. */
  lemma ScrollUpdates(c: Config, g: Grid, cursor: int)
    ensures c.Scroll(g, cursor).rowIndex == cursor
    ensures cursor == g.lastRowIndex ==> c.Scroll(g, cursor) == g.(rowIndex := cursor)
    ensures cursor != g.lastRowIndex ==> c.Scroll(g, cursor) == c.UpdateLiveRows(g.(rowIndex := cursor), cursor, false)
  {
  }

  /**
   * The range after an answer is that of the window asked for, cut at the table's end; after a failure there is none.
   */
  lemma AnsweredRange(c: Config, g: Grid)
    requires c.Sane() && g.inFlight != [] && 0 <= g.inFlight[0].start < c.total
    ensures var after, start := c.Succeed(g), g.inFlight[0].start;
            after.lo == start && after.hi == (if start + c.size <= c.total then start + c.size - 1 else c.total - 1)
    ensures var failed := c.Fail(g);
            && failed.lo == failed.hi == failed.queue == -1 && !failed.buffering && !failed.prebuffering
            && failed.inFlight == g.inFlight[1..] && failed.lastRowIndex == g.lastRowIndex
            && failed.rowIndex == g.rowIndex && failed.stale == g.stale
  {
  }

  /** The grid of the synchronization history with 20 rows visible re-buffers at row 60 and not at row 54. */
  lemma HistoryGridRebuffers()
    ensures var c := Config(1000, 20, 100, 25);
            && c.Scroll(Initial(c).g, 54).inFlight == []
            && c.Scroll(Initial(c).g, 60).inFlight == [Request(60, false)]
  {
  }

  /**
   * The rowIndex after a bulk removal is the greatest that is no further down than the row's new place and leaves at
   * most one of the visible rows empty, or 0.
   */
  lemma RowAfterIsGreatest(rowIndex: int, removedBefore: int, total: int, visible: nat, other: int)
    requires 0 <= removedBefore <= rowIndex
    ensures var row := RowAfter(rowIndex, removedBefore, total, visible);
            && 0 <= row && (row == 0 || (row <= rowIndex - removedBefore && row + visible - 1 <= total))
            && (other <= rowIndex - removedBefore && other + visible - 1 <= total ==> other <= row)
  {
  }
}
