/**
 * The GridView object: the rows on screen and their selection marks, repainted incrementally, over a Store.
 *
 * Each method follows the protocol of LiveScroll and keeps the rows on screen equal to those of the
 * remote table from lastRowIndex on, as a full repaint would draw them, unless a bulk removal has left the
 * screen stale.  The marks are those of the selected rows unless a repaint was for another row than rowIndex.
 */
module LiveView {
  import opened Wrappers
  import opened LiveStore
  import opened LiveWindow
  import opened LiveScroll
  import LiveSelection
  import opened LiveSelectionModel
  import opened LiveRemoval

  /** What a full repaint at cursor shows: the table's rows from there on, visible of them or fewer at its end. */
  function Shown(table: seq<Row>, cursor: nat, visible: nat): seq<Row>
    decreases visible
  {
    if visible == 0 || |table| <= cursor then [] else [table[cursor]] + Shown(table, cursor + 1, visible - 1)
  }

  lemma {:induction false} ShownIsSlice(table: seq<Row>, cursor: nat, visible: nat)
    requires cursor <= |table|
    ensures Shown(table, cursor, visible) == table[cursor..Min(cursor + visible, |table|)]
    decreases visible
  {
    if visible > 0 && cursor < |table| {
      ShownIsSlice(table, cursor + 1, visible - 1);
    }
  }

  lemma {:induction false} ShownSplit(table: seq<Row>, cursor: nat, a: nat, b: nat)
    ensures Shown(table, cursor, a + b) == Shown(table, cursor, a) + Shown(table, cursor + a, b)
    decreases a
  {
    if a > 0 {
      ShownSplit(table, cursor + 1, a - 1, b);
    }
  }

  /** renderRows of the superclass: the buffered records start..end, clamped to the buffer's end. */
  function RenderRows(data: seq<Record>, start: nat, end: int): seq<Row>
    requires data == [] || start <= Min(end, |data| - 1)
  {
    if data == [] then [] else Rows(data[start..Min(end, |data| - 1) + 1])
  }

  /** The rows left when the node at first is removed n times; a node that is not there is passed over. */
  function Dropped(rows: seq<Row>, first: nat, n: nat): seq<Row>
    decreases n
  {
    if n == 0 then rows
    else Dropped(if first < |rows| then rows[..first] + rows[first + 1..] else rows, first, n - 1)
  }

  /** Removing the first nodes leaves the others; removing nodes from v on leaves the first v. */
  lemma {:induction false} DroppedPart(a: seq<Row>, b: seq<Row>, n: nat)
    ensures n == |a| ==> Dropped(a + b, 0, n) == b
    ensures n >= |b| ==> Dropped(a + b, |a|, n) == a
    decreases n
  {
    if n == 0 {
      assert a + b == if a == [] then b else a + b;
      assert |b| == 0 ==> a + b == a;
    } else {
      if n == |a| {
        assert (a + b)[..0] + (a + b)[1..] == a[1..] + b;
        DroppedPart(a[1..], b, n - 1);
      }
      if n >= |b| {
        if b == [] {
          DroppedPart(a, b, n - 1);
        } else {
          assert (a + b)[..|a|] + (a + b)[|a| + 1..] == a + b[1..];
          DroppedPart(a, b[1..], n - 1);
        }
      }
    }
  }

  lemma {:induction false} DroppedBeyond(rows: seq<Row>, first: nat, n: nat)
    requires |rows| <= first
    ensures Dropped(rows, first, n) == rows
    decreases n
  {
    if n > 0 {
      DroppedBeyond(rows, first, n - 1);
    }
  }

  /** The window holds every row that the view at cursor shows. */
  ghost predicate Covers(size: nat, w: Window, table: seq<Row>, cursor: int, visible: nat) {
    Agrees(size, w, table) && w.lo <= cursor < |table| && 0 < visible && Min(|table| - 1, cursor + visible - 1) <= w.hi
  }

  /** Rendering the part of the window that the view at cursor shows. */
  lemma RenderShows(size: nat, w: Window, table: seq<Row>, cursor: nat, visible: nat, end: int)
    requires Covers(size, w, table, cursor, visible)
    requires Min(end, w.hi - w.lo) == Min(cursor - w.lo + visible - 1, w.hi - w.lo)
    ensures cursor - w.lo <= Min(end, |w.data| - 1)
    ensures RenderRows(w.data, cursor - w.lo, end) == Shown(table, cursor, visible)
  {
    ShownIsSlice(table, cursor, visible);
    var got, start := RenderRows(w.data, cursor - w.lo, end), cursor - w.lo;
    forall i | 0 <= i < |got| ensures got[i] == table[cursor..Min(cursor + visible, |table|)][i] {
      GetAtIsTableRow(size, w, table, cursor + i);
    }
  }

  /** What the append branch adds are the rows below those on screen, as many as there are. */
  lemma AppendedPart(size: nat, w: Window, table: seq<Row>, last: nat, visible: nat, spill: nat, end: int)
    requires Covers(size, w, table, last + spill, visible) && 0 < spill < visible
    requires end == Min(last + spill - w.lo + visible - 1, w.hi - w.lo)
    ensures var first := last - w.lo + visible;
            if first <= w.hi - w.lo
            then 0 <= first <= Min(end, |w.data| - 1)
                && RenderRows(w.data, first, end) == Shown(table, last + visible, spill)
            else Shown(table, last + visible, spill) == []
  {
    if last - w.lo + visible <= w.hi - w.lo {
      RenderShows(size, w, table, last + visible, spill, end);
    } else {
      assert |table| <= last + visible;
    }
  }

  /**
   * Scrolling down by spill rows: drop as many nodes in front, append the rows that come into view, if there are any.
   */
  lemma {:induction false} AppendShows(size: nat, w: Window, table: seq<Row>, last: nat, visible: nat, spill: nat,
      end: int)
    requires Covers(size, w, table, last + spill, visible) && 0 < spill < visible
    requires end == Min(last + spill - w.lo + visible - 1, w.hi - w.lo)
    ensures var kept, first := Dropped(Shown(table, last, visible), 0, spill), last - w.lo + visible;
            if first <= w.hi - w.lo
            then 0 <= first <= Min(end, |w.data| - 1)
                && kept + RenderRows(w.data, first, end) == Shown(table, last + spill, visible)
            else kept == Shown(table, last + spill, visible)
  {
    AppendedPart(size, w, table, last, visible, spill, end);
    KeptShows(table, last, spill, visible);
    NothingAdded(Dropped(Shown(table, last, visible), 0, spill), Shown(table, last + visible, spill));
  }

  lemma {:induction false} KeptShows(table: seq<Row>, last: nat, spill: nat, visible: nat)
    requires 0 < spill < visible && last + spill < |table|
    ensures Dropped(Shown(table, last, visible), 0, spill) + Shown(table, last + visible, spill) ==
            Shown(table, last + spill, visible)
  {
    KeptDown(table, last, last + spill, visible);
    ShownSplit(table, last + spill, visible - spill, spill);
  }

  lemma NothingAdded(a: seq<Row>, b: seq<Row>)
    ensures b == [] ==> a + b == a
  {
  }

  lemma DroppedEnd(table: seq<Row>, last: nat, keep: nat, spill: nat)
    requires last < |table| && keep > 0
    ensures Dropped(Shown(table, last, keep + spill), keep, spill) == Shown(table, last, keep) != []
  {
    var kept, gone := Shown(table, last, keep), Shown(table, last + keep, spill);
    ShownSplit(table, last, keep, spill);
    ShownIsSlice(table, last, keep);
    if |table| <= last + keep {
      assert gone == [] && kept + gone == kept;
      DroppedBeyond(kept, keep, spill);
    } else {
      ShownIsSlice(table, last + keep, spill);
      DroppedPart(kept, gone, spill);
    }
  }

  /** Scrolling up by spill rows: drop the nodes past the last visible one, prepend the rows that come into view. */
  lemma PrependShows(size: nat, w: Window, table: seq<Row>, cursor: nat, visible: nat, spill: nat)
    requires Covers(size, w, table, cursor, visible) && 0 < spill < visible && cursor + spill < |table|
    ensures var kept, first := Dropped(Shown(table, cursor + spill, visible), visible - spill, spill), cursor - w.lo;
            && kept != [] && first <= Min(first + spill - 1, |w.data| - 1)
            && RenderRows(w.data, first, first + spill - 1) + kept == Shown(table, cursor, visible)
  {
    DroppedEnd(table, cursor + spill, visible - spill, spill);
    ShownSplit(table, cursor, spill, visible - spill);
    RenderShows(size, w, table, cursor, spill, cursor - w.lo + spill - 1);
  }

  /** What an answered load leaves in the store. */
  lemma {:induction false} AnswerHolds(size: nat, w: Window, table: seq<Row>, start: nat, res: Response)
    requires size > 0 && DistinctRows(table) && Serves(table, start, size, res) && start < |table|
    ensures var loaded := Loaded(w, Some(res), start, size, true);
            && Agrees(size, loaded, table) && LiveSelection.Sees(loaded, table) && loaded.data == res.records
            && loaded.lo == start && loaded.hi == Max(0, Min(start + size - 1, |table| - 1))
  {
    LoadAgreesIff(size, w, table, start, res);
    LoadedData(w, table, start, size, res);
    HoldsWhereShown(size, Loaded(w, Some(res), start, size, true), table);
  }

  // ---------------------------------------------------------------- any screen

  /** The nodes that replaceLiveRows keeps, scrolling less than a page. */
  function Kept(rows: seq<Row>, last: nat, cursor: nat, visible: nat): seq<Row>
    requires last - visible < cursor < last + visible && cursor != last
  {
    if cursor > last then Dropped(rows, 0, cursor - last)
    else Dropped(rows, visible - (last - cursor), last - cursor)
  }

  /** The rows they should be. */
  function ShouldKeep(table: seq<Row>, last: nat, cursor: nat, visible: nat): seq<Row>
    requires last - visible < cursor < last + visible && cursor != last
  {
    if cursor > last then Shown(table, cursor, visible - (cursor - last))
    else Shown(table, last, visible - (last - cursor))
  }

  /** Every row is drawn. */
  predicate DrawsPage(last: nat, cursor: nat, visible: nat) {
    cursor == last || cursor - last >= visible || last - cursor >= visible
  }

  /** What replaceLiveRows makes of any rows on screen when it repaints. */
  function Repainted(rows: seq<Row>, table: seq<Row>, last: nat, cursor: nat, visible: nat): seq<Row> {
    if DrawsPage(last, cursor, visible) then Shown(table, cursor, visible)
    else if cursor > last then Kept(rows, last, cursor, visible) + Shown(table, last + visible, cursor - last)
    else Shown(table, cursor, last - cursor) + Kept(rows, last, cursor, visible)
  }

  lemma {:induction false} RepaintedDown(rows: seq<Row>, table: seq<Row>, last: nat, cursor: nat, visible: nat)
    requires last < cursor < last + visible
    ensures Repainted(rows, table, last, cursor, visible) ==
            Kept(rows, last, cursor, visible) + Shown(table, last + visible, cursor - last)
    ensures Kept(rows, last, cursor, visible) == Dropped(rows, 0, cursor - last)
  {
  }

  lemma {:induction false} RepaintedUp(rows: seq<Row>, table: seq<Row>, last: nat, cursor: nat, visible: nat)
    requires last - visible < cursor < last
    ensures Repainted(rows, table, last, cursor, visible) ==
            Shown(table, cursor, last - cursor) + Kept(rows, last, cursor, visible)
    ensures Kept(rows, last, cursor, visible) == Dropped(rows, visible - (last - cursor), last - cursor)
  {
  }

  /** What a right repaint consists of. */
  lemma {:induction false} ShownDown(table: seq<Row>, last: nat, cursor: nat, visible: nat)
    requires last < cursor < last + visible
    ensures Shown(table, cursor, visible) ==
            ShouldKeep(table, last, cursor, visible) + Shown(table, last + visible, cursor - last)
  {
    var keep, spill := visible - (cursor - last), cursor - last;
    assert keep + spill == visible && cursor + keep == last + visible;
    ShownSplit(table, cursor, keep, spill);
  }

  lemma {:induction false} ShownUp(table: seq<Row>, last: nat, cursor: nat, visible: nat)
    requires last - visible < cursor < last
    ensures Shown(table, cursor, visible) ==
            Shown(table, cursor, last - cursor) + ShouldKeep(table, last, cursor, visible)
  {
    var keep, spill := visible - (last - cursor), last - cursor;
    assert spill + keep == visible && cursor + spill == last;
    ShownSplit(table, cursor, spill, keep);
  }

  lemma {:induction false} RepaintedPage(rows: seq<Row>, table: seq<Row>, last: nat, cursor: nat, visible: nat)
    requires DrawsPage(last, cursor, visible)
    ensures Repainted(rows, table, last, cursor, visible) == Shown(table, cursor, visible)
  {
  }

  /** A repaint is right exactly when it draws every row or the nodes it keeps are right. */
  lemma {:induction false} RepaintedIff(rows: seq<Row>, table: seq<Row>, last: nat, cursor: nat, visible: nat)
    ensures Repainted(rows, table, last, cursor, visible) == Shown(table, cursor, visible) <==>
            DrawsPage(last, cursor, visible)
                || Kept(rows, last, cursor, visible) == ShouldKeep(table, last, cursor, visible)
  {
    var r, w := Repainted(rows, table, last, cursor, visible), Shown(table, cursor, visible);
    if DrawsPage(last, cursor, visible) {
      RepaintedPage(rows, table, last, cursor, visible);
    } else if cursor > last {
      RepaintedDown(rows, table, last, cursor, visible);
      ShownDown(table, last, cursor, visible);
      SameFront(Kept(rows, last, cursor, visible), ShouldKeep(table, last, cursor, visible),
                Shown(table, last + visible, cursor - last), r, w);
    } else {
      RepaintedUp(rows, table, last, cursor, visible);
      ShownUp(table, last, cursor, visible);
      SameBack(Kept(rows, last, cursor, visible), ShouldKeep(table, last, cursor, visible),
               Shown(table, cursor, last - cursor), r, w);
    }
  }

  lemma SameFront(a: seq<Row>, b: seq<Row>, back: seq<Row>, r: seq<Row>, w: seq<Row>)
    requires r == a + back && w == b + back
    ensures r == w <==> a == b
  {
    if r == w {
      assert a == (a + back)[..|a|] && b == (b + back)[..|b|];
    }
  }

  lemma SameBack(a: seq<Row>, b: seq<Row>, front: seq<Row>, r: seq<Row>, w: seq<Row>)
    requires r == front + a && w == front + b
    ensures r == w <==> a == b
  {
    if r == w {
      assert a == (front + a)[|front|..] && b == (front + b)[|front|..];
    }
  }

  /** How many rows a view at a row of the table shows. */
  function RowCount(table: seq<Row>, cursor: int, visible: nat): int { Min(visible, |table| - cursor) }

  lemma {:induction false} ShownLengthIs(table: seq<Row>, cursor: nat, visible: nat)
    ensures |Shown(table, cursor, visible)| == Max(0, RowCount(table, cursor, visible))
    decreases visible
  {
    if visible > 0 && cursor < |table| {
      ShownLengthIs(table, cursor + 1, visible - 1);
    }
  }

  lemma {:induction false} DroppedLength(rows: seq<Row>, first: nat, n: nat)
    ensures |Dropped(rows, first, n)| == if |rows| <= first then |rows| else Max(first, |rows| - n)
    decreases n
  {
    if n > 0 {
      DroppedLength(if first < |rows| then rows[..first] + rows[first + 1..] else rows, first, n - 1);
    }
  }

  lemma {:induction false} DownLength(rows: seq<Row>, table: seq<Row>, last: nat, cursor: nat, visible: nat)
    requires last < cursor < last + visible
    ensures |Repainted(rows, table, last, cursor, visible)| ==
            Max(0, |rows| - (cursor - last)) + Max(0, Min(cursor - last, |table| - (last + visible)))
  {
    RepaintedDown(rows, table, last, cursor, visible);
    ShownLengthIs(table, last + visible, cursor - last);
    DroppedLength(rows, 0, cursor - last);
  }

  lemma {:induction false} UpLength(rows: seq<Row>, table: seq<Row>, last: nat, cursor: nat, visible: nat)
    requires last - visible < cursor < last && |rows| <= visible
    ensures |Repainted(rows, table, last, cursor, visible)| ==
            Max(0, Min(last - cursor, |table| - cursor)) + Min(|rows|, visible - (last - cursor))
  {
    RepaintedUp(rows, table, last, cursor, visible);
    ShownLengthIs(table, cursor, last - cursor);
    DroppedLength(rows, visible - (last - cursor), last - cursor);
  }

  /** A screen with at least as many nodes as it should have, and no more than fit, stays one. */
  lemma {:induction false} RepaintedSize(rows: seq<Row>, table: seq<Row>, last: nat, cursor: nat, visible: nat)
    requires last < |table| && cursor < |table|
    requires RowCount(table, last, visible) <= |rows| <= visible
    ensures RowCount(table, cursor, visible) <= |Repainted(rows, table, last, cursor, visible)| <= visible
  {
    if DrawsPage(last, cursor, visible) {
      ShownLengthIs(table, cursor, visible);
      RepaintedPage(rows, table, last, cursor, visible);
    } else if cursor > last {
      DownLength(rows, table, last, cursor, visible);
    } else {
      UpLength(rows, table, last, cursor, visible);
    }
  }

  /** A screen that is right stays right. */
  lemma {:induction false} RepaintedRight(table: seq<Row>, last: nat, cursor: nat, visible: nat)
    requires last < |table| && cursor < |table|
    ensures Repainted(Shown(table, last, visible), table, last, cursor, visible) == Shown(table, cursor, visible)
  {
    RepaintedIff(Shown(table, last, visible), table, last, cursor, visible);
    if 0 < cursor - last < visible {
      KeptDown(table, last, cursor, visible);
    } else if 0 < last - cursor < visible {
      DroppedEnd(table, last, visible - (last - cursor), last - cursor);
    }
  }

  /**
   * Rows are removed while those of last are on screen, and the view is put to last again without being drawn: a
   * repaint less than a page further down keeps the node of row cursor + i, gone or not.
   */
  lemma {:induction false} RemovedRowStays(table: seq<Row>, left: seq<Row>, last: nat, cursor: nat, visible: nat,
      i: nat)
    requires 0 < cursor - last < visible && i < visible - (cursor - last) && cursor + i < |table|
    ensures var rows := Repainted(Shown(table, last, visible), left, last, cursor, visible);
            && i < |rows| && rows[i] == table[cursor + i]
            && (table[cursor + i] !in left ==> rows != Shown(left, cursor, visible))
  {
    var before := Shown(table, last, visible);
    KeptDown(table, last, cursor, visible);
    RepaintedDown(before, left, last, cursor, visible);
    ShownIsSlice(table, cursor, visible - (cursor - last));
    SameAt(Kept(before, last, cursor, visible), Shown(left, last + visible, cursor - last), i);
    ShownFrom(left, cursor, visible);
  }

  /** Scrolling down from a right screen keeps the rows that both show. */
  lemma {:induction false} KeptDown(table: seq<Row>, last: nat, cursor: nat, visible: nat)
    requires last < cursor < last + visible && cursor < |table|
    ensures Kept(Shown(table, last, visible), last, cursor, visible) == Shown(table, cursor, visible - (cursor - last))
  {
    var spill := cursor - last;
    ShownSplit(table, last, spill, visible - spill);
    ShownIsSlice(table, last, spill);
    DroppedPart(Shown(table, last, spill), Shown(table, cursor, visible - spill), spill);
  }

  lemma SameAt(a: seq<Row>, b: seq<Row>, i: nat)
    requires i < |a|
    ensures (a + b)[i] == a[i]
  {
  }

  lemma {:induction false} ShownFrom(table: seq<Row>, cursor: nat, visible: nat)
    ensures forall r :: r in Shown(table, cursor, visible) ==> r in table
    decreases visible
  {
    if visible > 0 && cursor < |table| {
      ShownFrom(table, cursor + 1, visible - 1);
    }
  }

  /** With too few nodes on screen a repaint near the table's end leaves none, although rows should be shown. */
  lemma {:induction false} ScreenRunsEmpty(rows: seq<Row>, table: seq<Row>, last: nat, cursor: nat, visible: nat)
    requires last < cursor < last + visible && cursor < |table| <= last + visible && |rows| <= cursor - last
    ensures Repainted(rows, table, last, cursor, visible) == [] != Shown(table, cursor, visible)
  {
    DownLength(rows, table, last, cursor, visible);
    ShownLengthIs(table, cursor, visible);
  }

  /** The view indexes of removed records. */
  function Absolute(recs: seq<(Record, int)>, lo: int): (idxs: seq<int>)
    ensures |idxs| == |recs| && forall i :: 0 <= i < |recs| ==> idxs[i] == recs[i].1 + lo
  {
    seq(|recs|, i requires 0 <= i < |recs| => recs[i].1 + lo)
  }

  /** They are the places in the table of the rows that go. */
  lemma RemovedPlaces(size: nat, w: Window, table: seq<Row>, records: seq<Record>, idxs: seq<int>)
    requires Agrees(size, w, table) && DistinctRows(table) && Removable(w.data, records) && |idxs| == |records|
    requires forall i :: 0 <= i < |idxs| ==> idxs[i] == w.lo + IndexOfId(w.data, records[i].row.id)
    ensures Distinct(idxs) && forall i :: 0 <= i < |idxs| ==> 0 <= idxs[i]
    ensures forall p :: 0 <= p < |table| ==> (table[p].id in Ids(records) <==> p in idxs)
  {
    assert forall i :: 0 <= i < |idxs| ==> table[idxs[i]].id == records[i].row.id;
    forall p | 0 <= p < |table| ensures table[p].id in Ids(records) <==> p in idxs {
      if table[p].id in Ids(records) {
        var i :| 0 <= i < |records| && records[i].row.id == table[p].id;
        assert table[idxs[i]].id == table[p].id;
        assert idxs[i] == p;
      }
      if p in idxs {
        var i :| 0 <= i < |idxs| && idxs[i] == p;
        assert records[i].row.id in Ids(records);
      }
    }
  }

  /** What onBulkRemove counts is the number of rows missing above the view. */
  lemma CountAfterRemoval(size: nat, w: Window, table: seq<Row>, records: seq<Record>, idxs: seq<int>, r: nat)
    requires Agrees(size, w, table) && DistinctRows(table) && Removable(w.data, records) && |idxs| == |records|
    requires forall i :: 0 <= i < |idxs| ==> idxs[i] == w.lo + IndexOfId(w.data, records[i].row.id)
    requires r < |table|
    ensures |Without(table[..r], Ids(records))| == r - CountBelow(idxs, r)
  {
    RemovedPlaces(size, w, table, records, idxs);
    CountIsExact(table, Ids(records), idxs, r);
  }

  /** After a removal that the runs allow the nodes on screen are still enough, or the rows are in range. */
  lemma {:induction false} NodesSuffice(c: Config, g: Grid, gone: nat, above: nat, was: seq<Row>, table: seq<Row>)
    requires Takes(Scene(c, g), gone, above) && |was| == c.total && |table| == c.total - gone && 0 <= g.lastRowIndex
    ensures var less := c.(total := c.total - gone);
            var row := RowAfter(g.rowIndex, above, less.total, less.visible);
            && row >= 0
            && (less.InRange(g.lo, g.hi - gone, row)
               || RowCount(table, row, c.visible) <= RowCount(was, g.lastRowIndex, c.visible))
  {
  }

  // ---------------------------------------------------------------- marks

  /** What processRows leaves on n nodes: node i is marked as row top + i of the store is. */
  function MarksFrom(s: LiveSelection.Selection, w: Window, top: int, n: nat): seq<bool>
    decreases n
  {
    if n == 0 then [] else MarksFrom(s, w, top, n - 1) + [LiveSelection.Marked(s, w, top + n - 1)]
  }

  /** The marks of n nodes that show the rows from top on. */
  ghost function RightMarks(chosen: set<int>, top: int, n: nat): seq<bool>
    decreases n
  {
    if n == 0 then [] else RightMarks(chosen, top, n - 1) + [top + n - 1 in chosen]
  }

  lemma {:induction false} RightMarksAt(chosen: set<int>, top: int, n: nat)
    ensures |RightMarks(chosen, top, n)| == n
    ensures forall i :: 0 <= i < n ==> (RightMarks(chosen, top, n)[i] <==> top + i in chosen)
    decreases n
  {
    if n > 0 {
      RightMarksAt(chosen, top, n - 1);
    }
  }

  lemma {:induction false} MarksAreRight(size: nat, w: Window, table: seq<Row>, s: LiveSelection.Selection, top: nat,
      n: nat)
    requires Agrees(size, w, table) && DistinctRows(table) && LiveSelection.Coherent(w, table, s)
    requires w.lo <= top && top + n - 1 <= w.hi
    ensures MarksFrom(s, w, top, n) == RightMarks(LiveSelection.Selected(table, s), top, n)
    decreases n
  {
    if n > 0 {
      MarksAreRight(size, w, table, s, top, n - 1);
      HoldsWhereShown(size, w, table);
      GetAtIsTableRow(size, w, table, top + n - 1);
      LiveSelection.MarksAreSelected(w, table, s, top + n - 1);
    }
  }

  lemma {:induction false} FirstMark(s: LiveSelection.Selection, w: Window, top: int, n: nat)
    requires n > 0
    ensures MarksFrom(s, w, top, n) != [] && (MarksFrom(s, w, top, n)[0] <==> LiveSelection.Marked(s, w, top))
    decreases n
  {
    if n > 1 {
      FirstMark(s, w, top, n - 1);
    }
  }

  /**
   * processRows marks node i by row rowIndex + i, but the node shows row cursor + i: the marks are right for
   * every selection exactly when the repaint was at rowIndex.
   */
  lemma {:induction false} MarksFitIff(size: nat, w: Window, table: seq<Row>, cursor: nat, rowIndex: nat, visible: nat)
    requires Covers(size, w, table, cursor, visible) && DistinctRows(table) && rowIndex < |table|
    ensures var n := |Shown(table, cursor, visible)|;
            (forall s :: LiveSelection.Coherent(w, table, s) ==>
               MarksFrom(s, w, rowIndex, n) == RightMarks(LiveSelection.Selected(table, s), cursor, n)) <==>
                   rowIndex == cursor
  {
    ShownIsSlice(table, cursor, visible);
    var n := |Shown(table, cursor, visible)|;
    if rowIndex == cursor {
      forall s | LiveSelection.Coherent(w, table, s)
        ensures MarksFrom(s, w, rowIndex, n) == RightMarks(LiveSelection.Selected(table, s), cursor, n) {
        MarksAreRight(size, w, table, s, cursor, n);
      }
    } else {
      var s := OnlyRow(w, cursor);
      OnlyRowMarked(size, w, table, cursor, rowIndex);
      FirstMark(s, w, rowIndex, n);
      RightMarksAt(LiveSelection.Selected(table, s), cursor, n);
    }
  }

  /** The marks after the node of a row has been marked or unmarked, if it has one among those from top on. */
  function MarkedAt(marks: seq<bool>, top: int, visible: nat, row: int, mark: bool): seq<bool> {
    if 0 <= row - top <= visible && row - top < |marks| then marks[row - top := mark] else marks
  }

  lemma {:induction false} MarkedAtIsRight(before: set<int>, after: set<int>, top: int, n: nat, visible: nat,
      row: int, mark: bool)
    requires n <= visible
    requires forall i :: top <= i < top + n ==> (i in after <==> if i == row then mark else i in before)
    ensures MarkedAt(RightMarks(before, top, n), top, visible, row, mark) == RightMarks(after, top, n)
  {
    RightMarksAt(before, top, n);
    RightMarksAt(after, top, n);
  }

  lemma {:induction false} MarkedAtAdds(before: set<int>, top: int, n: nat, visible: nat, row: int)
    requires n <= visible
    ensures MarkedAt(RightMarks(before, top, n), top, visible, row, true) == RightMarks(before + {row}, top, n)
  {
    MarkedAtIsRight(before, before + {row}, top, n, visible, row, true);
  }

  /** The nodes of all these places unmarked one after another. */
  function Unmarked(marks: seq<bool>, top: int, visible: nat, places: seq<int>): seq<bool>
    decreases |places|
  {
    if places == [] then marks
    else MarkedAt(Unmarked(marks, top, visible, places[..|places| - 1]), top, visible, places[|places| - 1], false)
  }

  lemma {:induction false} UnmarkedAt(marks: seq<bool>, top: int, visible: nat, places: seq<int>, i: nat)
    requires i < |marks| <= visible
    ensures |Unmarked(marks, top, visible, places)| == |marks|
    ensures Unmarked(marks, top, visible, places)[i] <==> marks[i] && top + i !in places
    decreases |places|
  {
    if places != [] {
      var n := |places| - 1;
      UnmarkedAt(marks, top, visible, places[..n], i);
      assert places == places[..n] + [places[n]];
    }
  }

  /** Nothing stays marked if every row that was has its place among these. */
  lemma {:induction false} AllUnmarked(chosen: set<int>, top: int, n: nat, visible: nat, places: seq<int>)
    requires n <= visible && forall row :: top <= row < top + n && row in chosen ==> row in places
    ensures Unmarked(RightMarks(chosen, top, n), top, visible, places) == RightMarks({}, top, n)
  {
    RightMarksAt(chosen, top, n);
    RightMarksAt({}, top, n);
    var marks := RightMarks(chosen, top, n);
    UnmarkedLength(marks, top, visible, places);
    forall i | 0 <= i < n ensures !Unmarked(marks, top, visible, places)[i] {
      UnmarkedAt(marks, top, visible, places, i);
    }
  }

  lemma {:induction false} UnmarkedLength(marks: seq<bool>, top: int, visible: nat, places: seq<int>)
    ensures |Unmarked(marks, top, visible, places)| == |marks|
    decreases |places|
  {
    if places != [] {
      UnmarkedLength(marks, top, visible, places[..|places| - 1]);
    }
  }

  /** Where the record's row is buffered, or just above the screen. */
  function Place(w: Window, top: int, r: Record): int {
    var ind := IndexOfId(w.data, r.row.id);
    if ind == -1 then top - 1 else ind + w.lo
  }

  function Places(w: Window, top: int, s: seq<Record>): (places: seq<int>)
    ensures |places| == |s| && forall i :: 0 <= i < |s| ==> places[i] == Place(w, top, s[i])
  {
    seq(|s|, i requires 0 <= i < |s| => Place(w, top, s[i]))
  }

  /** A selected row of the window has the place of a selected record. */
  lemma ChosenHasPlace(size: nat, w: Window, table: seq<Row>, s: LiveSelection.Selection, top: int, row: nat)
    requires Agrees(size, w, table) && DistinctRows(table) && LiveSelection.Coherent(w, table, s)
    requires w.lo <= row <= w.hi && row in LiveSelection.Selected(table, s)
    ensures row in Places(w, top, s.records)
  {
    GetAtIsTableRow(size, w, table, row);
    var j := IndexOfId(s.records, table[row].id);
    assert s.records[j].row.id == table[row].id;
    var ind := IndexOfId(w.data, table[row].id);
    assert w.data[row - w.lo].row == table[row];
    assert w.data[ind].row == table[w.lo + ind];
    assert Places(w, top, s.records)[j] == row;
  }

  /** The selection of one buffered row. */
  function OnlyRow(w: Window, row: int): LiveSelection.Selection
    requires w.lo <= row < w.lo + |w.data|
  {
    LiveSelection.Selection([w.data[row - w.lo]], {})
  }

  /** It is coherent, and only that row's own mark is set. */
  lemma OnlyRowMarked(size: nat, w: Window, table: seq<Row>, row: nat, other: nat)
    requires Agrees(size, w, table) && DistinctRows(table) && w.lo <= row <= w.hi && other < |table|
    ensures var s := OnlyRow(w, row);
            && LiveSelection.Coherent(w, table, s) && row in LiveSelection.Selected(table, s)
            && (LiveSelection.Marked(s, w, other) <==> other == row)
  {
    HoldsWhereShown(size, w, table);
    GetAtIsTableRow(size, w, table, row);
    var s := OnlyRow(w, row);
    forall i | 0 <= i < |table| ensures LiveSelection.Find(s.records, table[i].id).Some? <==> i == row {
      assert table[row].id == s.records[0].row.id;
    }
    if GetAt(w, other).Some? {
      assert GetAt(w, other).value.row == table[other];
    }
  }

  /** In the run that strands the view, the row at the top is selected and its node is not marked. */
  lemma StaleQueueMismarks(w: Window, table: seq<Row>)
    requires |table| == 1000 && DistinctRows(table) && Agrees(100, w, table) && w.lo == 80 && w.hi == 179
    ensures var es := [Scrolled(80), Scrolled(120), Scrolled(80), Succeeded];
            var start := Initial(Config(1000, 10, 100, 25));
            LiveScroll.Run(start, es) && var g := LiveScroll.RunTo(start, es).g;
            && g.lo == w.lo && g.hi == w.hi && g.lastRowIndex == 120
            && LiveSelection.Coherent(w, table, OnlyRow(w, 120))
               && 120 in LiveSelection.Selected(table, OnlyRow(w, 120))
            && !LiveSelection.Marked(OnlyRow(w, 120), w, g.rowIndex)
  {
    StaleQueueStrandsView();
    OnlyRowMarked(100, w, table, 120, 80);
  }

  /** The answer shows both rowIndex and another row that is queued, so the queued one is painted last. */
  predicate Misplaces(c: Config, g: Grid)
    requires g.inFlight != []
  {
    g.queue >= 0 && g.queue != g.rowIndex && c.Shows(g.inFlight[0].start, g.rowIndex)
        && c.Shows(g.inFlight[0].start, g.queue)
  }

  class GridView {
    const store: Store
    const selModel: RowSelectionModel
    const visibleRows: nat
    const nearLimit: nat
    var rows: seq<Row>
    var marks: seq<bool>   // the nodes with class x-grid3-row-selected
    var rowIndex: int
    var lastRowIndex: int
    var lastIndex: int
    var isBuffering: bool
    var isPrebuffering: bool
    var requestQueue: int
    var inFlight: seq<Request>
    ghost var stale: bool
    ghost var table: seq<Row>

    function Cfg(): Config
      reads store
    {
      Config(store.totalLength, visibleRows, store.bufferSize, nearLimit)
    }

    ghost function View(): Grid
      reads store, this`rowIndex, this`lastRowIndex, this`lastIndex, this`isBuffering, this`isPrebuffering,
          this`requestQueue, this`inFlight, this`stale
    {
      Grid(store.lo, store.hi, rowIndex, lastRowIndex, lastIndex, isBuffering, isPrebuffering, requestQueue,
          inFlight, stale)
    }

    /** The store's window agrees with the table, unless a failed load blanked it. */
    ghost predicate Synced()
      reads this`table, store
    {
      && DistinctRows(table) && store.totalLength == |table| && Cfg().Sane()
      && ((store.lo == -1 && store.hi == -1) || Agrees(store.bufferSize, store.Snapshot(), table))
    }

    ghost predicate Painted()
      reads this`rows, this`lastRowIndex, this`table
    {
      lastRowIndex >= 0 && rows == Shown(table, lastRowIndex, visibleRows)
    }

    /** As many nodes as there should be or more, and they are right unless the screen is stale. */
    ghost predicate Screen()
      reads this`rows, this`lastRowIndex, this`table, this`stale
    {
      && lastRowIndex >= 0 && RowCount(table, lastRowIndex, visibleRows) <= |rows| <= visibleRows
      && (!stale ==> Painted())
    }

    /**
     * A screen that is not stale shows the table's rows from lastRowIndex on, visibleRows of them or fewer at its
     * end.
     */
    lemma ScreenShows()
      requires Screen() && !stale && lastRowIndex <= |table|
      ensures rows == table[lastRowIndex..Min(lastRowIndex + visibleRows, |table|)]
    {
      ShownIsSlice(table, lastRowIndex, visibleRows);
    }

    /** Its marks are right when exactly the nodes of selected rows have one. */
    lemma MarkingIff()
      ensures Marking() <==> |marks| == |rows| && forall i :: 0 <= i < |rows| ==>
          (marks[i] <==> lastRowIndex + i in Chosen())
    {
      RightMarksAt(Chosen(), lastRowIndex, |rows|);
    }

    /** The selection is that of this store, and coherent with its window. */
    ghost predicate Choosing()
      reads this`table, store, selModel
    {
      selModel.store == store && selModel.Valid(table)
    }

    /** The rows the user has selected. */
    ghost function Chosen(): set<int>
      reads this`table, selModel
    {
      LiveSelection.Selected(table, selModel.Sel())
    }

    /** Exactly the nodes of selected rows are marked. */
    ghost predicate Marking()
      reads this`marks, this`rows, this`lastRowIndex, this`table, selModel
    {
      marks == RightMarks(Chosen(), lastRowIndex, |rows|)
    }

    /** The marks that processRows sets. */
    function Processed(): seq<bool>
      reads this`rows, this`rowIndex, store, selModel
    {
      MarksFrom(selModel.Sel(), store.Snapshot(), rowIndex, |rows|)
    }

    /** What scrolling needs and keeps. */
    ghost predicate Scrollable()
      reads this`table, this`rows, store, this`rowIndex, this`lastRowIndex, this`lastIndex, this`isBuffering,
          this`isPrebuffering, this`requestQueue, this`inFlight, this`stale
    {
      Synced() && Cfg().Inv(View()) && Screen()
    }

    ghost predicate Valid()
      reads this`table, this`rows, store, selModel, this`rowIndex, this`lastRowIndex, this`lastIndex,
          this`isBuffering, this`isPrebuffering, this`requestQueue, this`inFlight, this`stale
    {
      Scrollable() && Choosing()
    }

    /** The rows at rowIndex are on screen and in the window. */
    ghost predicate Resting()
      reads this`rowIndex, this`lastRowIndex, this`stale, store
    {
      rowIndex == lastRowIndex && IsInRange(rowIndex) && !stale
    }

    /** The view after the initial load and its reset. */
    constructor (store: Store, selModel: RowSelectionModel, visibleRows: nat, nearLimit: nat, ghost table: seq<Row>)
      requires table != [] && DistinctRows(table) && 0 < visibleRows <= store.bufferSize
      requires Agrees(store.bufferSize, store.Snapshot(), table) && store.lo == 0
      requires store.hi == Min(store.bufferSize, |table|) - 1
      requires selModel.store == store && selModel.Valid(table)
      ensures this.store == store && this.selModel == selModel && this.visibleRows == visibleRows
          && this.nearLimit == nearLimit && this.table == table
      ensures Valid() && View() == Initial(Cfg()).g && Resting() && Marking()
    {
      this.store, this.selModel, this.visibleRows, this.nearLimit, this.table := store, selModel, visibleRows,
          nearLimit, table;
      rowIndex, lastRowIndex, lastIndex := 0, 0, 0;
      isBuffering, isPrebuffering, requestQueue, inFlight := false, false, -1, [];
      rows, marks, stale := [], [], false;
      new;
      InitialInv(Cfg());
      FirstPaint();
    }

    /** The repaint of a reset. */
    method FirstPaint()
      requires Synced() && Choosing() && rowIndex == lastRowIndex == 0 < |table| && IsInRange(0)
      modifies this`rows, this`marks, this`lastRowIndex, this`stale
      ensures lastRowIndex == 0 && Screen() && Marking() && View() == old(View()).(stale := false)
    {
      ReplaceLiveRows(0, true);
      MarkedIsMarking();
    }

    lemma SyncedCovers(index: int)
      requires Synced() && 0 <= index < |table|
      ensures IsInRange(index) ==> Covers(store.bufferSize, store.Snapshot(), table, index, visibleRows)
    {
    }

    /** Marks set for the rows on screen are right when these are in the window. */
    lemma MarkedIsMarking()
      requires Choosing() && Painted() && rowIndex == lastRowIndex && marks == Processed()
      requires Covers(store.bufferSize, store.Snapshot(), table, lastRowIndex, visibleRows)
      ensures Marking()
    {
      ShownIsSlice(table, lastRowIndex, visibleRows);
      MarksAreRight(store.bufferSize, store.Snapshot(), table, selModel.Sel(), rowIndex, |rows|);
    }

    predicate IsInRange(index: int)
      reads store
    {
      store.lo <= index && Min(store.totalLength - 1, index + visibleRows - 1) <= store.hi
    }

    // ---------------------------------------------------------------- painting

    /** Removing a child node that is not there does nothing. */
    method RemoveRows(firstRow: nat, lastRow: int)
      requires firstRow <= lastRow + 1
      modifies this`rows
      ensures rows == Dropped(old(rows), firstRow, lastRow + 1 - firstRow)
    {
      for row := firstRow to lastRow + 1
        invariant Dropped(rows, firstRow, lastRow + 1 - row) == Dropped(old(rows), firstRow, lastRow + 1 - firstRow)
      {
        if firstRow < |rows| {
          rows := rows[..firstRow] + rows[firstRow + 1..];
        }
      }
    }

    /** processRows with paintSelections: every node's mark is set or removed. */
    method ProcessRows()
      modifies this`marks
      ensures marks == Processed()
    {
      marks := [];
      for i := 0 to |rows|
        invariant marks == MarksFrom(selModel.Sel(), store.Snapshot(), rowIndex, i)
      {
        marks := marks + [LiveSelection.Marked(selModel.Sel(), store.Snapshot(), rowIndex + i)];
      }
    }

    /** The append branch of replaceLiveRows. */
    method AppendRows(cursor: int, spill: nat, lpIndex: int)
      requires Covers(store.bufferSize, store.Snapshot(), table, cursor, visibleRows)
      requires 0 < spill < visibleRows && 0 <= lastRowIndex == cursor - spill
      requires lpIndex == Min(cursor - store.lo + visibleRows - 1, store.hi - store.lo)
      modifies this`rows
      ensures rows == Dropped(old(rows), 0, spill) + Shown(table, lastRowIndex + visibleRows, spill)
    {
      AppendedPart(store.bufferSize, store.Snapshot(), table, lastRowIndex, visibleRows, spill, lpIndex);
      ghost var kept, added := Dropped(rows, 0, spill), Shown(table, lastRowIndex + visibleRows, spill);
      var first := cursor - store.lo + visibleRows - spill;
      RemoveRows(0, spill - 1);
      assert rows == kept;
      if first <= store.hi - store.lo {
        var html := RenderRows(store.data, first, lpIndex);
        assert html == added;
        rows := rows + html;
      } else {
        NothingAdded(kept, added);
      }
    }

    /** The prepend branch of replaceLiveRows; to put rows before the first child there must be one. */
    method PrependRows(cursor: int, spill: nat)
      requires Covers(store.bufferSize, store.Snapshot(), table, cursor, visibleRows)
      requires 0 < spill < visibleRows && lastRowIndex == cursor + spill < |table| && rows != []
      modifies this`rows
      ensures rows == Shown(table, cursor, spill) + Dropped(old(rows), visibleRows - spill, spill)
    {
      DroppedLength(rows, visibleRows - spill, spill);
      RemoveRows(visibleRows - spill, visibleRows - 1);
      assert rows != [];
      RenderShows(store.bufferSize, store.Snapshot(), table, cursor, spill, cursor - store.lo + spill - 1);
      rows := RenderRows(store.data, cursor - store.lo, cursor - store.lo + spill - 1) + rows;
    }

    /** replaceLiveRows up to its last two statements. */
    method PaintRows(cursor: int, spill: int, append: bool)
      requires Covers(store.bufferSize, store.Snapshot(), table, cursor, visibleRows) && 0 <= lastRowIndex < |table|
      requires rows != [] || cursor == lastRowIndex
      requires spill == (if append then cursor - lastRowIndex else lastRowIndex - cursor)
          && (append <==> cursor > lastRowIndex)
      modifies this`rows
      ensures rows == Repainted(old(rows), table, lastRowIndex, cursor, visibleRows)
    {
      var cursorBuffer := cursor - store.lo;
      var lpIndex := Min(cursorBuffer + visibleRows - 1, store.hi - store.lo);
      if spill >= visibleRows || spill == 0 {
        RenderPage(cursor, cursorBuffer, lpIndex);
        RepaintedPage(old(rows), table, lastRowIndex, cursor, visibleRows);
      } else if append {
        RepaintedDown(rows, table, lastRowIndex, cursor, visibleRows);
        AppendRows(cursor, spill, lpIndex);
      } else {
        RepaintedUp(rows, table, lastRowIndex, cursor, visibleRows);
        PrependRows(cursor, spill);
      }
    }

    /** Every row drawn. */
    method RenderPage(cursor: int, cursorBuffer: int, lpIndex: int)
      requires Covers(store.bufferSize, store.Snapshot(), table, cursor, visibleRows)
      requires cursorBuffer == cursor - store.lo && lpIndex == Min(cursorBuffer + visibleRows - 1, store.hi - store.lo)
      modifies this`rows
      ensures rows == Shown(table, cursor, visibleRows)
    {
      RenderShows(store.bufferSize, store.Snapshot(), table, cursor, visibleRows, lpIndex);
      rows := RenderRows(store.data, cursorBuffer, lpIndex);
    }

    /** A repaint keeps a right screen right, and the number of nodes; drawing every row makes it right. */
    lemma ScreenRepainted(before: seq<Row>, last: int, cursor: int)
      requires 0 <= last < |table| && 0 <= cursor < |table|
      requires cursor == last || RowCount(table, last, visibleRows) <= |before| <= visibleRows
      ensures var after := Repainted(before, table, last, cursor, visibleRows);
              && RowCount(table, cursor, visibleRows) <= |after| <= visibleRows
              && (before == Shown(table, last, visibleRows) || Cfg().DrawsAll(last, cursor, true) ==>
                    after == Shown(table, cursor, visibleRows))
    {
      if cursor == last {
        ShownLengthIs(table, cursor, visibleRows);
        RepaintedPage(before, table, last, cursor, visibleRows);
      } else {
        RepaintedSize(before, table, last, cursor, visibleRows);
        RepaintedRight(table, last, cursor, visibleRows);
      }
    }

    /**
     * The incremental repaint leaves what a full repaint would, if the screen was right or every row is drawn, with
     * the marks of the rows from rowIndex on.
     */
    method ReplaceLiveRows(cursor: int, forceReplace: bool)
      requires Covers(store.bufferSize, store.Snapshot(), table, cursor, visibleRows) && 0 <= lastRowIndex < |table|
      requires Screen() || cursor == lastRowIndex
      modifies this`rows, this`lastRowIndex, this`marks, this`stale
      ensures View() == Cfg().Paint(old(View()), cursor, forceReplace)
      ensures old(Screen()) || forceReplace ==> Screen()
      ensures old(Painted()) || Cfg().DrawsAll(old(lastRowIndex), cursor, forceReplace) ==> Painted()
      ensures marks == if cursor != old(lastRowIndex) || forceReplace then Processed() else old(marks)
      ensures rows == if cursor != old(lastRowIndex) || forceReplace
                      then Repainted(old(rows), table, old(lastRowIndex), cursor, visibleRows) else old(rows)
    {
      var spill := cursor - lastRowIndex;
      if spill == 0 && !forceReplace {
        return;
      }
      Repaint(cursor, spill, forceReplace);
    }

    /** replaceLiveRows when there is something to do. */
    method Repaint(cursor: int, spill: int, ghost force: bool)
      requires Covers(store.bufferSize, store.Snapshot(), table, cursor, visibleRows) && 0 <= lastRowIndex < |table|
      requires Screen() || cursor == lastRowIndex
      requires spill == cursor - lastRowIndex && (spill != 0 || force)
      modifies this`rows, this`lastRowIndex, this`marks, this`stale
      ensures View() == Cfg().Paint(old(View()), cursor, force)
      ensures Screen() && marks == Processed()
      ensures rows == Repainted(old(rows), table, old(lastRowIndex), cursor, visibleRows)
      ensures old(Painted()) || Cfg().DrawsAll(old(lastRowIndex), cursor, force) ==> Painted()
    {
      ghost var before, last, wasStale := rows, lastRowIndex, stale;
      var append := spill > 0;
      PaintRows(cursor, if spill < 0 then -spill else spill, append);
      ProcessRows();
      stale := stale && !Cfg().DrawsAll(lastRowIndex, cursor, force);
      lastRowIndex := cursor;
      ScreenAfter(before, last, wasStale, force);
    }

    /** What a repaint leaves is a screen again. */
    lemma ScreenAfter(before: seq<Row>, last: int, wasStale: bool, force: bool)
      requires 0 <= last < |table| && 0 <= lastRowIndex < |table| && (lastRowIndex != last || force)
      requires rows == Repainted(before, table, last, lastRowIndex, visibleRows)
      requires stale == (wasStale && !Cfg().DrawsAll(last, lastRowIndex, force))
      requires || lastRowIndex == last
               || (RowCount(table, last, visibleRows) <= |before| <= visibleRows
                   && (wasStale || before == Shown(table, last, visibleRows)))
      ensures Screen()
      ensures before == Shown(table, last, visibleRows) || Cfg().DrawsAll(last, lastRowIndex, force) ==> Painted()
    {
      ScreenRepainted(before, last, lastRowIndex);
    }

    // ---------------------------------------------------------------- scrolling and loading

    /** A view that waits for a load paints what it can of a re-buffer ahead and queues the row. */
    method Enqueue(index: int)
      requires isBuffering && 0 <= lastRowIndex < |table|
      requires IsInRange(index) ==> Covers(store.bufferSize, store.Snapshot(), table, index, visibleRows)
      requires Screen() || index == lastRowIndex
      modifies this`rows, this`lastRowIndex, this`marks, this`stale, this`requestQueue
      ensures View() == Cfg().UpdateLiveRows(old(View()), index, false)
      ensures old(Screen()) ==> Screen()
      ensures marks == if lastRowIndex != old(lastRowIndex) then Processed() else old(marks)
      ensures lastRowIndex == old(lastRowIndex) ==> rows == old(rows)
    {
      if isPrebuffering && IsInRange(index) {
        ReplaceLiveRows(index, false);
      }
      requestQueue := index;
    }

    /** The load that ends updateLiveRows. */
    method Request(index: int, inRange: bool, down: bool, forceRepaint: bool)
      modifies this`isBuffering, this`inFlight
      ensures View() == Cfg().Load(old(View()), index, inRange, down, forceRepaint)
    {
      isBuffering := true;
      inFlight := inFlight + [LiveScroll.Request(Cfg().Predict(index, inRange, down), forceRepaint)];
    }

    method UpdateLiveRows(index: int, forceRepaint: bool)
      requires IsInRange(index) ==> Covers(store.bufferSize, store.Snapshot(), table, index, visibleRows)
      requires 0 <= lastRowIndex < |table|
      requires Screen() || index == lastRowIndex
      modifies this`rows, this`lastRowIndex, this`marks, this`stale
      modifies this`lastIndex, this`isBuffering, this`isPrebuffering, this`requestQueue, this`inFlight
      ensures View() == Cfg().UpdateLiveRows(old(View()), index, forceRepaint)
      ensures old(Screen()) || (forceRepaint && !old(isBuffering) && IsInRange(index)) ==> Screen()
      ensures var drawn := lastRowIndex != old(lastRowIndex) || (forceRepaint && !old(isBuffering) && IsInRange(index));
              marks == (if drawn then Processed() else old(marks)) && (!drawn ==> rows == old(rows))
    {
      if isBuffering {
        Enqueue(index);
        return;
      }
      var last := lastIndex;
      lastIndex := index;
      if IsInRange(index) {
        PaintAndRebuffer(index, last, forceRepaint);
      } else {
        Request(index, false, false, forceRepaint);
      }
    }

    /** updateLiveRows of an idle view for a row in range. */
    method PaintAndRebuffer(index: int, last: int, forceRepaint: bool)
      requires Covers(store.bufferSize, store.Snapshot(), table, index, visibleRows) && 0 <= lastRowIndex < |table|
      requires Screen() || index == lastRowIndex
      modifies this`rows, this`lastRowIndex, this`marks, this`stale, this`isBuffering, this`isPrebuffering,
          this`inFlight
      ensures var painted := Cfg().Paint(old(View()), index, forceRepaint);
              View() == if Cfg().Rests(store.lo, store.hi, last, index) then painted
                        else Cfg().Load(painted.(prebuffering := true), index, true, index > last, forceRepaint)
      ensures old(Screen()) || forceRepaint ==> Screen()
      ensures var drawn := index != old(lastRowIndex) || forceRepaint;
              marks == (if drawn then Processed() else old(marks)) && (!drawn ==> rows == old(rows))
    {
      ReplaceLiveRows(index, forceRepaint);
      if Cfg().Rests(store.lo, store.hi, last, index) {
        return;
      }
      isPrebuffering := true;
      Request(index, true, index > last, forceRepaint);
    }

    /** With the scrollbar back at the rows on screen nothing is done, not even their marks. */
    method OnLiveScroll(cursor: int)
      requires Scrollable() && 0 <= cursor < |table|
      modifies this`rowIndex, this`rows, this`lastRowIndex, this`marks, this`stale
      modifies this`lastIndex, this`isBuffering, this`isPrebuffering, this`requestQueue, this`inFlight
      ensures Scrollable() && (old(Valid()) ==> Valid())
      ensures View() == Cfg().Scroll(old(View()), cursor)
      ensures Choosing() && !stale && (old(Marking()) || lastRowIndex != old(lastRowIndex)) ==> Marking()
      ensures cursor == old(lastRowIndex) ==> rows == old(rows) && marks == old(marks)
    {
      StepKeepsInv(Scene(Cfg(), View()), Scrolled(cursor));
      rowIndex := cursor;
      if cursor == lastRowIndex {
        return;
      }
      PaintOrLoad();
    }

    /** The end of onLiveScroll: the rows of rowIndex are painted, or asked for, or queued. */
    method PaintOrLoad()
      requires Synced() && Screen() && 0 <= rowIndex < |table| && 0 <= lastRowIndex < |table|
      modifies this`rows, this`lastRowIndex, this`marks, this`stale
      modifies this`lastIndex, this`isBuffering, this`isPrebuffering, this`requestQueue, this`inFlight
      ensures Screen()
      ensures View() == Cfg().UpdateLiveRows(old(View()), rowIndex, false)
      ensures Choosing() && !stale && (old(Marking()) || lastRowIndex != old(lastRowIndex)) ==> Marking()
    {
      SyncedCovers(rowIndex);
      UpdateLiveRows(rowIndex, false);
      if Choosing() && !stale && lastRowIndex != old(lastRowIndex) {
        MarkedIsMarking();
      }
    }

    /** The selection is that of this store, and its pending rows are on the table. */
    ghost predicate Tracking()
      reads this`table, selModel
    {
      selModel.store == store && DistinctIds(selModel.selections) && forall i :: i in selModel.pendingSelections ==>
          0 <= i < |table|
    }

    method LiveBufferUpdate(records: seq<Record>, success: bool, force: bool)
      requires Synced() && Screen() && 0 <= rowIndex < |table| && 0 <= lastRowIndex < |table|
          && -1 <= requestQueue < |table|
      requires Tracking() && LiveSelection.Sees(store.Snapshot(), table)
      requires if success then records == store.data && store.lo >= 0 else store.lo == -1
      modifies this`rows, this`lastRowIndex, this`marks, this`stale
      modifies this`lastIndex, this`isBuffering, this`isPrebuffering, this`requestQueue, this`inFlight
      modifies selModel`selections, selModel`pendingSelections
      ensures Screen() && Choosing() && Chosen() == old(Chosen())
      ensures View() == if success then Cfg().LiveBufferUpdate(old(View()), force)
                        else old(View()).(queue := -1, buffering := false, prebuffering := false)
      ensures !stale && (old(Marking()) || old(stale)) && !(success && old(QueuePaints())) ==> Marking()
      ensures success && old(QueuePaints()) ==> marks == Processed() && lastRowIndex == old(requestQueue)
    {
      if success {
        TakeRecords(records);
        Redraw(force);
      } else {
        LiveSelection.BlankIsCoherent(store.Snapshot(), table, selModel.Sel());
        requestQueue, isBuffering, isPrebuffering := -1, false, false;
      }
    }

    /** The load is over, and the selection model takes the records in. */
    method TakeRecords(records: seq<Record>)
      requires Synced() && Tracking() && LiveSelection.Sees(store.Snapshot(), table)
      requires records == store.data && store.lo >= 0
      modifies this`isBuffering, this`isPrebuffering, selModel`selections, selModel`pendingSelections
      ensures !isBuffering && !isPrebuffering && Choosing() && Chosen() == old(Chosen())
    {
      isBuffering, isPrebuffering := false, false;
      selModel.ReplaceSelections(records, table);
    }

    /** Another row than rowIndex is queued, and the window has both. */
    predicate QueuePaints()
      reads this`rowIndex, this`requestQueue, store
    {
      requestQueue >= 0 && requestQueue != rowIndex && IsInRange(rowIndex) && IsInRange(requestQueue)
    }

    /**
     * The rest of liveBufferUpdate: the rows of rowIndex, then those of the queue, which are marked as those of
     * rowIndex.
     */
    method Redraw(force: bool)
      requires Synced() && Screen() && Choosing()
      requires 0 <= rowIndex < |table| && 0 <= lastRowIndex < |table| && -1 <= requestQueue < |table|
      requires !isBuffering && !isPrebuffering
      modifies this`rows, this`lastRowIndex, this`marks, this`stale
      modifies this`lastIndex, this`isBuffering, this`isPrebuffering, this`requestQueue, this`inFlight
      ensures Screen()
      ensures View() == Cfg().LiveBufferUpdate(old(View()), force)
      ensures !stale && (old(Marking()) || old(stale)) && !old(QueuePaints()) ==> Marking()
      ensures old(QueuePaints()) ==> marks == Processed() && lastRowIndex == old(requestQueue)
    {
      DrawRowIndex(force);
      if requestQueue >= 0 {
        ServeQueue();
      }
    }

    /** The rows of rowIndex are drawn or asked for. */
    method DrawRowIndex(force: bool)
      requires Synced() && Screen() && Choosing()
      requires 0 <= rowIndex < |table| && 0 <= lastRowIndex < |table|
      requires !isBuffering && !isPrebuffering
      modifies this`rows, this`lastRowIndex, this`marks, this`stale
      modifies this`lastIndex, this`isBuffering, this`isPrebuffering, this`requestQueue, this`inFlight
      ensures Screen()
      ensures View() == Cfg().DrawRowIndex(old(View()), force)
      ensures isBuffering == !IsInRange(rowIndex) && !isPrebuffering
      ensures lastRowIndex == if IsInRange(rowIndex) then rowIndex else old(lastRowIndex)
      ensures !stale && (old(Marking()) || old(stale)) ==> Marking()
    {
      SyncedCovers(rowIndex);
      if IsInRange(rowIndex) {
        ReplaceLiveRows(rowIndex, force);
        if !stale && (rowIndex != old(lastRowIndex) || force) {
          MarkedIsMarking();
        }
      } else {
        UpdateLiveRows(rowIndex, false);
      }
    }

    /** The end of liveBufferUpdate. */
    method ServeQueue()
      requires Synced() && Screen() && Choosing()
      requires 0 <= rowIndex < |table| && 0 <= lastRowIndex < |table| && 0 <= requestQueue < |table| && !isPrebuffering
      modifies this`rows, this`lastRowIndex, this`marks, this`stale
      modifies this`lastIndex, this`isBuffering, this`isPrebuffering, this`requestQueue, this`inFlight
      ensures Screen()
      ensures View() == Cfg().UpdateLiveRows(old(View()).(queue := -1), old(requestQueue), false)
      ensures lastRowIndex == if !old(isBuffering) && IsInRange(old(requestQueue)) then old(requestQueue)
          else old(lastRowIndex)
      ensures marks == if lastRowIndex != old(lastRowIndex) then Processed() else old(marks)
      ensures lastRowIndex == old(lastRowIndex) ==> rows == old(rows)
    {
      var offset := requestQueue;
      requestQueue := -1;
      SyncedCovers(offset);
      UpdateLiveRows(offset, false);
    }

    /** The store takes in the answer to the load under way. */
    method TakeAnswer(res: Response) returns (req: LiveScroll.Request)
      requires Synced() && inFlight != []
      requires 0 <= inFlight[0].start < |table| && Serves(table, inFlight[0].start, store.bufferSize, res)
      modifies store, this`inFlight
      ensures req == old(inFlight[0]) && Cfg() == old(Cfg())
      ensures Synced() && LiveSelection.Sees(store.Snapshot(), table)
      ensures store.data == res.records && store.lo >= 0
      ensures QueuePaints() == old(Misplaces(Cfg(), View()))
      ensures View() == old(View()).(lo := req.start, hi := Cfg().HiAfter(req.start), inFlight := old(inFlight)[1..])
    {
      req := inFlight[0];
      inFlight := inFlight[1..];
      ghost var w := store.Snapshot();
      store.LoadRecords(Some(res), req.start, store.bufferSize, true);
      AnswerHolds(store.bufferSize, w, table, req.start, res);
    }

    /** The store learns that the load under way has failed. */
    method TakeFailure() returns (req: LiveScroll.Request)
      requires Synced() && inFlight != []
      modifies store, this`inFlight
      ensures req == old(inFlight[0]) && Cfg() == old(Cfg())
      ensures Synced() && LiveSelection.Sees(store.Snapshot(), table) && store.lo == -1
      ensures View() == old(View()).(lo := -1, hi := -1, inFlight := old(inFlight)[1..])
    {
      req := inFlight[0];
      inFlight := inFlight[1..];
      store.LoadRecords(None, req.start, store.bufferSize, false);
    }

    /** The network answers the load under way, or fails it. */
    method OnResponse(o: Option<Response>)
      requires Scrollable() && Tracking() && inFlight != []
      requires o.Some? ==> inFlight[0].start >= 0 && Serves(table, inFlight[0].start, store.bufferSize, o.value)
      modifies store, this`rows, this`lastRowIndex, this`marks, this`stale
      modifies this`lastIndex, this`isBuffering, this`isPrebuffering, this`requestQueue, this`inFlight
      modifies selModel`selections, selModel`pendingSelections
      ensures Valid() && table == old(table) && Chosen() == old(Chosen())
      ensures View() == if o.Some? then Cfg().Succeed(old(View())) else Cfg().Fail(old(View()))
      ensures !stale && (old(Marking()) || (old(stale) && o.Some?)) ==>
                Marking() || (o.Some? && old(Misplaces(Cfg(), View())))
      ensures o.Some? && old(Misplaces(Cfg(), View())) ==> marks == Processed() && lastRowIndex == old(requestQueue)
    {
      if o.Some? {
        OnAnswer(o.value);
      } else {
        StepKeepsInv(Scene(Cfg(), View()), Failed);
        var req := TakeFailure();
        LiveBufferUpdate([], false, req.force);
      }
    }

    /** The load under way is answered. */
    method OnAnswer(res: Response)
      requires Scrollable() && Tracking() && inFlight != []
      requires inFlight[0].start >= 0 && Serves(table, inFlight[0].start, store.bufferSize, res)
      modifies store, this`rows, this`lastRowIndex, this`marks, this`stale
      modifies this`lastIndex, this`isBuffering, this`isPrebuffering, this`requestQueue, this`inFlight
      modifies selModel`selections, selModel`pendingSelections
      ensures Valid() && Chosen() == old(Chosen()) && View() == Cfg().Succeed(old(View()))
      ensures !stale && (old(Marking()) || old(stale)) && !old(Misplaces(Cfg(), View())) ==> Marking()
      ensures old(Misplaces(Cfg(), View())) ==> marks == Processed() && lastRowIndex == old(requestQueue)
    {
      ghost var c, g := Cfg(), View();
      var req := TakeAnswer(res);
      LiveBufferUpdate(res.records, true, req.force);
      assert Cfg().Inv(View()) by {
        assert View() == c.Succeed(g);
        SucceedKeepsInv(c, g);
      }
    }

    // ---------------------------------------------------------------- selecting

    /** onRowSelect and onRowDeselect: the node of the row, if there is one. */
    method MarkRow(row: int, mark: bool)
      modifies this`marks
      ensures marks == MarkedAt(old(marks), rowIndex, visibleRows, row, mark)
    {
      if row < rowIndex || row > rowIndex + visibleRows {
        return;
      }
      if row - rowIndex < |marks| {
        marks := marks[row - rowIndex := mark];
      }
    }

    /** Rows on screen at rest are in the window. */
    lemma OnScreen(i: nat)
      requires Synced() && Screen() && Resting() && 0 <= rowIndex < |table| && i < |rows|
      ensures i < visibleRows && rowIndex + i < |table| && store.lo <= rowIndex + i <= store.hi
      ensures GetAt(store.Snapshot(), rowIndex + i).Some?
    {
      ShownIsSlice(table, rowIndex, visibleRows);
      SyncedCovers(rowIndex);
      GetAtIsTableRow(store.bufferSize, store.Snapshot(), table, rowIndex + i);
    }

    /** After a deselection, of which an unbuffered row may not take notice. */
    lemma UnmarkedAfter(shown: seq<bool>, chosen: set<int>, row: int)
      requires shown == RightMarks(chosen, lastRowIndex, |rows|)
      requires Synced() && Screen() && Resting() && 0 <= rowIndex < |table|
      requires marks == MarkedAt(shown, rowIndex, visibleRows, row, false)
      requires chosen - {row} <= Chosen() <= chosen && (GetAt(store.Snapshot(), row).Some? ==> row !in Chosen())
      ensures Marking()
    {
      if rowIndex <= row < rowIndex + |rows| {
        OnScreen(row - rowIndex);
      }
      MarkedAtIsRight(chosen, Chosen(), rowIndex, |rows|, visibleRows, row, false);
    }

    /** deselectRow and what it tells the view: at rest the marks stay right. */
    method DeselectRow(index: int)
      requires Valid() && 0 <= index < |table|
      modifies this`marks, selModel`selections, selModel`pendingSelections
      ensures Valid()
      ensures selModel.locked ==> Chosen() == old(Chosen())
      ensures old(Chosen()) - {index} <= Chosen() <= old(Chosen())
      ensures !selModel.locked ==>
                (Chosen() == old(Chosen()) - {index} <==>
                 old(GetAt(store.Snapshot(), index).Some?
                     || LiveSelection.Find(selModel.selections, table[index].id).None?))
      ensures old(Marking()) && Resting() ==> Marking()
    {
      if selModel.locked {
        return;
      }
      ghost var shown, chosen, resting := marks, Chosen(), Marking() && Resting();
      Deselect(index);
      MarkRow(index, false);
      if resting {
        UnmarkedAfter(shown, chosen, index);
      }
    }

    /** deselectRow without the view. */
    method Deselect(index: int)
      requires Choosing() && 0 <= index < |table| && !selModel.locked
      modifies selModel`selections, selModel`pendingSelections
      ensures Choosing()
      ensures old(Chosen()) - {index} <= Chosen() <= old(Chosen())
      ensures GetAt(store.Snapshot(), index).Some? ==> index !in Chosen()
      ensures Chosen() == old(Chosen()) - {index} <==>
              old(GetAt(store.Snapshot(), index).Some?
                  || LiveSelection.Find(selModel.selections, table[index].id).None?)
    {
      ghost var after := LiveSelection.DeselectRow(selModel.Sel(), store.Snapshot(), index);
      LiveSelection.DeselectRemovesIff(store.Snapshot(), table, selModel.Sel(), index);
      selModel.DeselectRow(index);
      assert selModel.Sel() == after;
    }

    /** clearSelections and what it tells the view: the nodes of the buffered records. */
    method ClearSelections()
      requires Synced() && Choosing() && Screen() && 0 <= rowIndex < |table|
      modifies this`marks, selModel`selections, selModel`pendingSelections
      ensures Choosing()
      ensures Chosen() == if selModel.locked then old(Chosen()) else {}
      ensures old(Marking()) && Resting() ==> Marking()
    {
      if selModel.locked {
        return;
      }
      NoneLeftMarked();
      UnmarkBuffered(selModel.selections);
      selModel.ClearSelections();
    }

    /** The loop of clearSelections, as far as the view learns of it. */
    method UnmarkBuffered(s: seq<Record>)
      modifies this`marks
      ensures marks == Unmarked(old(marks), rowIndex, visibleRows, Places(store.Snapshot(), rowIndex, s))
    {
      for k := 0 to |s|
        invariant marks == Unmarked(old(marks), rowIndex, visibleRows, Places(store.Snapshot(), rowIndex, s)[..k])
      {
        assert Places(store.Snapshot(), rowIndex, s)[..k + 1][..k] == Places(store.Snapshot(), rowIndex, s)[..k];
        var ind := IndexOfId(store.data, s[k].row.id);
        if ind != -1 {
          MarkRow(ind + store.lo, false);
        }
      }
      assert Places(store.Snapshot(), rowIndex, s)[..|s|] == Places(store.Snapshot(), rowIndex, s);
    }

    /** At rest, unmarking the places of all selected records unmarks every node. */
    lemma NoneLeftMarked()
      requires Synced() && Choosing() && Screen() && 0 <= rowIndex < |table|
      ensures Resting() ==>
                Unmarked(RightMarks(Chosen(), rowIndex, |rows|), rowIndex, visibleRows,
                         Places(store.Snapshot(), rowIndex, selModel.selections)) == RightMarks({}, rowIndex, |rows|)
    {
      if Resting() {
        AllPlaced();
        AllUnmarked(Chosen(), rowIndex, |rows|, visibleRows, Places(store.Snapshot(), rowIndex, selModel.selections));
      }
    }

    /** Every selected row on screen has the place of a selected record. */
    lemma AllPlaced()
      requires Synced() && Choosing() && Screen() && Resting() && 0 <= rowIndex < |table|
      ensures forall row :: rowIndex <= row < rowIndex + |rows| && row in Chosen() ==>
          row in Places(store.Snapshot(), rowIndex, selModel.selections)
    {
      forall row | rowIndex <= row < rowIndex + |rows| && row in Chosen()
        ensures row in Places(store.Snapshot(), rowIndex, selModel.selections) {
        OnScreen(row - rowIndex);
        ChosenHasPlace(store.bufferSize, store.Snapshot(), table, selModel.Sel(), rowIndex, row);
      }
    }

    /** selectRow and what it tells the view: at rest the marks stay right. */
    method SelectRow(index: int, keepExisting: bool)
      requires Valid()
      modifies this`marks, selModel`selections, selModel`pendingSelections
      ensures Valid()
      ensures Chosen() == if selModel.locked || index < 0 || index >= |table| then old(Chosen())
                          else (if keepExisting && !selModel.singleSelect then old(Chosen()) else {}) + {index}
      ensures old(Marking()) && Resting() ==> Marking()
    {
      if selModel.locked || index < 0 || index >= store.totalLength {
        return;
      }
      if !keepExisting || selModel.singleSelect {
        ClearSelections();
      }
      AddSelection(index, keepExisting);
    }

    /** selectRow once everything else has been cleared that is to be. */
    method AddSelection(index: int, keepExisting: bool)
      requires Choosing() && |rows| <= visibleRows && !selModel.locked && 0 <= index < |table|
      requires (keepExisting && !selModel.singleSelect) || Chosen() == {}
      modifies this`marks, selModel`selections, selModel`pendingSelections
      ensures Choosing()
      ensures Chosen() == old(Chosen()) + {index}
      ensures old(Marking()) && rowIndex == lastRowIndex ==> Marking()
    {
      LiveSelection.SelectAddsRow(store.Snapshot(), table, selModel.Sel(), index,
                                  keepExisting && !selModel.singleSelect);
      ghost var before, n := Chosen(), |rows|;
      selModel.SelectRow(index, keepExisting);
      MarkRow(index, true);
      MarkedAtAdds(before, rowIndex, n, visibleRows, index);
    }

    // ---------------------------------------------------------------- removal

    /** onBulkRemove, once the store is without the records. */
    method OnBulkRemove(recs: seq<(Record, int)>)
      requires Agrees(store.bufferSize, store.Snapshot(), table) && store.totalLength == |table| && 0 < visibleRows
      requires 0 <= RowAfter(rowIndex, CountBelow(Absolute(recs, store.lo), rowIndex), |table|, visibleRows) < |table|
      modifies this`rowIndex, this`rows, this`lastRowIndex, this`marks, this`stale
      modifies this`lastIndex, this`isBuffering, this`isPrebuffering, this`requestQueue, this`inFlight
      ensures recs == [] ==> View() == old(View()) && rows == old(rows) && marks == old(marks)
      ensures recs != [] ==>
          rowIndex == RowAfter(old(rowIndex), CountBelow(Absolute(recs, store.lo), old(rowIndex)), |table|, visibleRows)
      ensures recs != [] ==> View() == Cfg().UpdateLiveRows(PutTo(old(View()), rowIndex), rowIndex, true)
      ensures recs != [] ==> if !old(isBuffering) && IsInRange(rowIndex) then Screen() && !stale && marks == Processed()
                             else rows == old(rows) && marks == old(marks) && stale
      ensures recs != [] ==> lastRowIndex == rowIndex
    {
      if |recs| == 0 {
        return;
      }
      var removedBefore := CountRemovedBefore(recs);
      MoveTo(RowAfter(rowIndex, removedBefore, store.totalLength, visibleRows));
    }

    /** The end of onBulkRemove. */
    method MoveTo(row: int)
      requires Agrees(store.bufferSize, store.Snapshot(), table) && store.totalLength == |table| && 0 < visibleRows
      requires 0 <= row < |table|
      modifies this`rowIndex, this`rows, this`lastRowIndex, this`marks, this`stale
      modifies this`lastIndex, this`isBuffering, this`isPrebuffering, this`requestQueue, this`inFlight
      ensures rowIndex == lastRowIndex == row
      ensures View() == Cfg().UpdateLiveRows(PutTo(old(View()), row), row, true)
      ensures if !old(isBuffering) && IsInRange(row) then Screen() && !stale && marks == Processed()
              else rows == old(rows) && marks == old(marks) && stale
    {
      rowIndex, lastRowIndex, stale := row, row, true;
      UpdateLiveRows(row, true);
    }

    /** The loop of onBulkRemove. */
    method CountRemovedBefore(recs: seq<(Record, int)>) returns (removedBefore: nat)
      ensures removedBefore == CountBelow(Absolute(recs, store.lo), rowIndex)
    {
      removedBefore := 0;
      ghost var idxs := Absolute(recs, store.lo);
      for i := 0 to |recs|
        invariant removedBefore == CountBelow(idxs[..i], rowIndex)
      {
        var viewIndex := recs[i].1 + store.lo;
        if viewIndex < rowIndex {
          removedBefore := removedBefore + 1;
        }
        assert idxs[..i + 1][..i] == idxs[..i] && idxs[..i + 1][i] == viewIndex;
      }
      assert idxs[..|recs|] == idxs;
    }

    /**
     * The store removes buffered records and the view follows, to a row of the table.  An idle view goes on scrolling
     * from there as the runs of LiveScroll do.
     */
    method RemoveRecords(records: seq<Record>) returns (ghost above: nat)
      requires Synced() && Agrees(store.bufferSize, store.Snapshot(), table) && Removable(store.data, records)
      requires |records| < |table| && 0 <= rowIndex < |table|
      requires visibleRows > 1 || |Without(table[..rowIndex], Ids(records))| < |table| - |records|
      modifies store, this
      ensures table == Without(old(table), Ids(records))
      ensures Synced() && Agrees(store.bufferSize, store.Snapshot(), table)
      ensures 0 <= rowIndex
      ensures above == old(rowIndex) - |Without(old(table)[..old(rowIndex)], Ids(records))|
      ensures records != [] ==> Scene(Cfg(), View()) == AfterRemoval(old(Cfg()), old(View()), |records|, above)
      ensures records != [] ==>
                (rowIndex < |table| && table[rowIndex] == old(table[rowIndex]) <==>
                 StaysPut(old(table), Ids(records), old(rowIndex), visibleRows))
      ensures records != [] ==> if !old(isBuffering) && IsInRange(rowIndex) then Painted() && marks == Processed()
                                else rows == old(rows) && marks == old(marks)
      ensures (records != [] && old(Scrollable())
               && Enabled(Scene(old(Cfg()), old(View())), Removed(|records|, above))) ==> Scrollable()
    {
      ghost var was, c, g, scrollable := table, Cfg(), View(), Scrollable();
      above := DropRecords(records);
      PlaceIff(was, Ids(records), g.rowIndex, above, visibleRows);
      if records != [] && scrollable && Enabled(Scene(c, g), Removed(|records|, above)) {
        StillScrollable(c, g, |records|, above, was);
      }
    }

    /** What an enabled removal leaves can be scrolled on. */
    lemma StillScrollable(c: Config, g: Grid, gone: nat, above: nat, was: seq<Row>)
      requires c.Sane() && c.Inv(g) && Enabled(Scene(c, g), Removed(gone, above))
          && Scene(Cfg(), View()) == AfterRemoval(c, g, gone, above)
      requires Synced() && |was| == c.total && |table| == c.total - gone && store.lo == g.lo && store.hi == g.hi - gone
      requires rowIndex == lastRowIndex == RowAfter(g.rowIndex, above, |table|, visibleRows) && visibleRows == c.visible
      requires if IsInRange(rowIndex) then Screen()
               else stale && RowCount(was, g.lastRowIndex, visibleRows) <= |rows| <= visibleRows
      ensures Scrollable()
    {
      RemovalKeepsInv(c, g, gone, above);
      NodesSuffice(c, g, gone, above, was, table);
    }

    /** The same, as far as store, protocol and nodes go. */
    method DropRecords(records: seq<Record>) returns (ghost above: nat)
      requires Synced() && Agrees(store.bufferSize, store.Snapshot(), table) && Removable(store.data, records)
      requires |records| < |table| && 0 <= rowIndex < |table|
      requires visibleRows > 1 || |Without(table[..rowIndex], Ids(records))| < |table| - |records|
      modifies store, this
      ensures table == Without(old(table), Ids(records)) && |table| == old(|table|) - |records|
      ensures Synced() && Agrees(store.bufferSize, store.Snapshot(), table)
      ensures store.lo == old(store.lo) && store.hi == old(store.hi) - |records|
      ensures above == old(rowIndex) - |Without(old(table)[..old(rowIndex)], Ids(records))| && 0 <= rowIndex
      ensures records == [] ==> rowIndex == old(rowIndex)
      ensures records != [] ==> rowIndex == lastRowIndex == RowAfter(old(rowIndex), above, |table|, visibleRows)
      ensures records != [] ==> Scene(Cfg(), View()) == AfterRemoval(old(Cfg()), old(View()), |records|, above)
      ensures records != [] ==>
          if !old(isBuffering) && IsInRange(rowIndex) then Screen() && !stale && marks == Processed()
                                else rows == old(rows) && marks == old(marks) && stale
    {
      ghost var c, g := Cfg(), View();
      var recs;
      recs, above := TakeOut(records);
      ghost var less, moved := Cfg(), View();
      AfterRemovalIs(c, g, less, moved, |records|, above);
      OnBulkRemove(recs);
    }

    /** The store and the table without the records; above of them stood over the view. */
    method TakeOut(records: seq<Record>) returns (recs: seq<(Record, int)>, ghost above: nat)
      requires Synced() && Agrees(store.bufferSize, store.Snapshot(), table) && Removable(store.data, records)
      requires |records| < |table| && 0 <= rowIndex < |table|
      requires visibleRows > 1 || |Without(table[..rowIndex], Ids(records))| < |table| - |records|
      modifies store, this`table
      ensures table == Without(old(table), Ids(records)) && |table| == old(|table|) - |records| && |recs| == |records|
      ensures Synced() && Agrees(store.bufferSize, store.Snapshot(), table)
      ensures store.lo == old(store.lo) && store.hi == old(store.hi) - |records| && store.hi >= -1
      ensures above == CountBelow(Absolute(recs, store.lo), rowIndex) ==
          rowIndex - |Without(old(table)[..rowIndex], Ids(records))|
      ensures above <= |records| <= old(store.hi) - store.lo + 1
      ensures 0 <= RowAfter(rowIndex, above, |table|, visibleRows) < |table|
    {
      ghost var was, w := table, store.Snapshot();
      BulkRemoveAgrees(store.bufferSize, w, was, records);
      recs := store.BulkRemove(records);
      table := Without(table, Ids(records));
      ghost var idxs := Absolute(recs, store.lo);
      above := CountBelow(idxs, rowIndex);
      CountAfterRemoval(store.bufferSize, w, was, records, idxs, rowIndex);
      RowAfterOnTable(was, Ids(records), rowIndex, above, visibleRows);
      CountAtMost(idxs, rowIndex);
    }
  }
}
