/**
 * The live grid view as a protocol: scrolling, one asynchronous load at a time, a queued row, and the
 * prediction of the window to fetch.
 *
 * Grid holds the indexes and flags of the GridView and the range of its store; Config the sizes, of which
 * only the table's length can change in a run, by a bulk removal.  The functions specify the methods of
 * class GridView in LiveView.dfy.
 */
module LiveScroll {
  import opened LiveStore
  import opened LiveRemoval

  /** A load under way: its start parameter and its forceRepaint option. */
  datatype Request = Request(start: int, force: bool)

  /** stale: the nodes on screen may not be those of the table's rows from lastRowIndex on. */
  datatype Grid = Grid(
    lo: int, hi: int, rowIndex: int, lastRowIndex: int, lastIndex: int,
    buffering: bool, prebuffering: bool, queue: int, inFlight: seq<Request>, stale: bool)

  /** JavaScript's Math.round of size / 2. */
  function RoundHalf(size: nat): nat { (size + 1) / 2 }

  datatype Config = Config(total: int, visible: nat, size: nat, near: nat) {

    /** The table has rows, and the buffer holds at least the visible ones, as its documentation demands. */
    ghost predicate Sane() { total > 0 && 0 < visible <= size }

    predicate InRange(lo: int, hi: int, index: int) {
      lo <= index && Min(total - 1, index + visible - 1) <= hi
    }

    /** getPredictedBufferIndex. */
    function Predict(index: int, inRange: bool, down: bool): int {
      if !inRange then
        if index + size >= total then total - size
        else Max(0, index + visible - RoundHalf(size))
      else if !down then Max(0, index - size + visible)
      else Max(0, Min(index, total - size))
    }

    /** The range a load from start leaves in the store. */
    function HiAfter(start: int): int { Max(0, Min(start + size - 1, total - 1)) }

    /** A load from start brings every row that the view at index shows. */
    predicate Shows(start: int, index: int) { InRange(start, HiAfter(start), index) }

    /** For a row in range, scrolling from last has not come near an end of the window beyond which there is more. */
    predicate Rests(lo: int, hi: int, last: int, index: int) {
      || index == last
      || (index > last && (index + visible + near <= hi || hi + 1 >= total))
      || (index < last && (lo <= 0 || index - near > lo))
    }

    function Load(g: Grid, index: int, inRange: bool, down: bool, force: bool): Grid {
      g.(buffering := true, inFlight := g.inFlight + [Request(Predict(index, inRange, down), force)])
    }

    /** replaceLiveRows draws every row anew, not only those that come into view. */
    predicate DrawsAll(last: int, cursor: int, force: bool) {
      cursor - last >= visible || last - cursor >= visible || (cursor == last && force)
    }

    /** replaceLiveRows: only drawing every row brings a stale screen up to date. */
    function Paint(g: Grid, cursor: int, force: bool): Grid {
      g.(lastRowIndex := cursor, stale := g.stale && !DrawsAll(g.lastRowIndex, cursor, force))
    }

    /** updateLiveRows. */
    function UpdateLiveRows(g: Grid, index: int, force: bool): Grid {
      var inRange := InRange(g.lo, g.hi, index);
      if g.buffering then (if g.prebuffering && inRange then Paint(g, index, false) else g).(queue := index)
      else if !inRange then Load(g.(lastIndex := index), index, false, false, force)
      else
        var painted := Paint(g.(lastIndex := index), index, force);
        if Rests(g.lo, g.hi, g.lastIndex, index) then painted
        else Load(painted.(prebuffering := true), index, true, index > g.lastIndex, force)
    }

    /** onLiveScroll with the scrollbar at row cursor. */
    function Scroll(g: Grid, cursor: int): Grid {
      if cursor == g.lastRowIndex then g.(rowIndex := cursor)
      else UpdateLiveRows(g.(rowIndex := cursor), cursor, false)
    }

    /** The rows of rowIndex are drawn or asked for. */
    function DrawRowIndex(g: Grid, force: bool): Grid {
      if InRange(g.lo, g.hi, g.rowIndex) then Paint(g, g.rowIndex, force)
      else UpdateLiveRows(g, g.rowIndex, false)
    }

    /** liveBufferUpdate with success, once the store holds the new range. */
    function LiveBufferUpdate(g: Grid, force: bool): Grid {
      var drawn := DrawRowIndex(g.(buffering := false, prebuffering := false), force);
      if drawn.queue >= 0 then UpdateLiveRows(drawn.(queue := -1), drawn.queue, false) else drawn
    }

    /** The answer to the load under way arrives. */
    function Succeed(g: Grid): Grid
      requires g.inFlight != []
    {
      var req := g.inFlight[0];
      LiveBufferUpdate(g.(lo := req.start, hi := HiAfter(req.start), inFlight := g.inFlight[1..]), req.force)
    }

    /** The load under way fails: the store has no range left. */
    function Fail(g: Grid): Grid
      requires g.inFlight != []
    {
      g.(lo := -1, hi := -1, inFlight := g.inFlight[1..], queue := -1, buffering := false, prebuffering := false)
    }

    // -------------------------------------------------------------- the invariant

    /** A range that a load, and removals from it, can leave, or none. */
    ghost predicate Buffered(lo: int, hi: int) {
      (0 <= lo <= total && lo - 1 <= hi <= HiAfter(lo)) || (lo == -1 && hi == -1)
    }

    /** The range is the whole table. */
    predicate Whole(g: Grid) { g.lo == 0 && g.hi == total - 1 }

    /** At most one load is under way, and exactly while the view is buffering; nothing is queued otherwise. */
    predicate Flags(g: Grid) {
      && g.buffering == (|g.inFlight| == 1) && |g.inFlight| <= 1
      && (!g.buffering ==> g.queue == -1 && !g.prebuffering)
      && -1 <= g.queue && 0 <= g.rowIndex
    }

    /** Every index is a row of the table; a table shorter than the buffer is in it. */
    ghost predicate Inv(g: Grid) {
      && Flags(g)
      && g.rowIndex < total && 0 <= g.lastRowIndex < total && g.queue < total
      && Buffered(g.lo, g.hi)
      && (forall r :: r in g.inFlight ==> 0 <= r.start < total)
      && (total < size ==> Whole(g) && !g.buffering)
    }
  }

  // ---------------------------------------------------------------- runs

  datatype Scene = Scene(c: Config, g: Grid)

  /** After the initial load from row 0 and the reset it brings. */
  function Initial(c: Config): Scene {
    Scene(c, Grid(0, c.HiAfter(0), 0, 0, 0, false, false, -1, [], false))
  }

  /** Removed takes out gone buffered records, above of them over the view. */
  datatype Event = Scrolled(cursor: int) | Succeeded | Failed | Removed(gone: nat, above: nat)

  /** onBulkRemove, once the store has dropped the records: the rows on screen are those of before. */
  function AfterRemoval(c: Config, g: Grid, gone: nat, above: nat): Scene {
    var less := c.(total := c.total - gone);
    var row := RowAfter(g.rowIndex, above, less.total, c.visible);
    Scene(less, less.UpdateLiveRows(PutTo(g.(hi := Max(-1, g.hi - gone)), row), row, true))
  }

  /** The view put to a row without being drawn. */
  function PutTo(g: Grid, row: int): Grid { g.(rowIndex := row, lastRowIndex := row, stale := true) }

  lemma {:induction false} AfterRemovalIs(c: Config, g: Grid, less: Config, moved: Grid, gone: nat, above: nat)
    requires less == c.(total := c.total - gone) && moved == g.(hi := g.hi - gone) && moved.hi >= -1
    ensures var row := RowAfter(g.rowIndex, above, less.total, less.visible);
            AfterRemoval(c, g, gone, above) == Scene(less, less.UpdateLiveRows(PutTo(moved, row), row, true))
  {
  }

  /** What can happen at all. */
  predicate Possible(s: Scene, e: Event) {
    match e
    case Scrolled(cursor) => 0 <= cursor
    case Removed(gone, above) => 0 < gone
    case _ => s.g.inFlight != []
  }

  /**
   * Buffered records go with no load under way; the new rowIndex is a row of the table, and it is in range or the
   * screen has as many rows as it then shows.
   */
  predicate Takes(s: Scene, gone: nat, above: nat) {
    var less := s.c.(total := s.c.total - gone);
    var row := RowAfter(s.g.rowIndex, above, less.total, less.visible);
    && 0 < gone < s.c.total && above <= gone <= s.g.hi - s.g.lo + 1 && s.g.lo >= 0 && !s.g.buffering
    && row < less.total
    && (|| less.InRange(s.g.lo, s.g.hi - gone, row)
        || Min(less.visible, s.c.total - s.g.lastRowIndex) >= Min(less.visible, less.total - row))
  }

  /** The table is left a buffer's worth of rows, or was buffered as a whole. */
  predicate LeavesRoom(c: Config, g: Grid, gone: nat) { c.size <= c.total - gone || c.Whole(g) }

  /** The steps of the runs: scrolls on the table, answers, failures, and removals like that. */
  predicate Enabled(s: Scene, e: Event) {
    match e
    case Scrolled(cursor) => 0 <= cursor < s.c.total
    case Removed(gone, above) => Takes(s, gone, above) && LeavesRoom(s.c, s.g, gone)
    case _ => s.g.inFlight != []
  }

  function Step(s: Scene, e: Event): Scene
    requires Possible(s, e)
  {
    match e
    case Scrolled(cursor) => s.(g := s.c.Scroll(s.g, cursor))
    case Succeeded => s.(g := s.c.Succeed(s.g))
    case Failed => s.(g := s.c.Fail(s.g))
    case Removed(gone, above) => AfterRemoval(s.c, s.g, gone, above)
  }

  predicate Happens(s: Scene, es: seq<Event>)
    decreases |es|
  {
    es == [] || (Possible(s, es[0]) && Happens(Step(s, es[0]), es[1..]))
  }

  predicate Run(s: Scene, es: seq<Event>): (run: bool)
    ensures run ==> Happens(s, es)
    decreases |es|
  {
    es == [] || (Enabled(s, es[0]) && Run(Step(s, es[0]), es[1..]))
  }

  function RunTo(s: Scene, es: seq<Event>): Scene
    requires Happens(s, es)
    decreases |es|
  {
    if es == [] then s else RunTo(Step(s, es[0]), es[1..])
  }

  // ---------------------------------------------------------------- one load at a time

  lemma {:induction false} UpdateKeepsFlags(c: Config, g: Grid, index: int, force: bool)
    requires c.Flags(g) && 0 <= index
    ensures c.Flags(c.UpdateLiveRows(g, index, force))
  {
  }

  lemma {:induction false} SucceedKeepsFlags(c: Config, g: Grid)
    requires c.Flags(g) && g.inFlight != []
    ensures c.Flags(c.Succeed(g))
  {
    var req := g.inFlight[0];
    var free := g.(lo := req.start, hi := c.HiAfter(req.start), inFlight := [],
                   buffering := false, prebuffering := false);
    assert g.inFlight[1..] == [];
    UpdateKeepsFlags(c, free.(queue := -1), g.rowIndex, false);
    var drawn := c.DrawRowIndex(free, req.force);
    if drawn.queue >= 0 {
      UpdateKeepsFlags(c, drawn.(queue := -1), drawn.queue, false);
    }
  }

  lemma {:induction false} StepKeepsFlags(s: Scene, e: Event)
    requires s.c.Flags(s.g) && Possible(s, e)
    ensures Step(s, e).c.Flags(Step(s, e).g)
  {
    match e
    case Scrolled(cursor) => UpdateKeepsFlags(s.c, s.g.(rowIndex := cursor), cursor, false);
    case Succeeded => SucceedKeepsFlags(s.c, s.g);
    case Failed =>
    case Removed(gone, above) =>
      var less := s.c.(total := s.c.total - gone);
      var row := RowAfter(s.g.rowIndex, above, less.total, less.visible);
      UpdateKeepsFlags(less, PutTo(s.g.(hi := Max(-1, s.g.hi - gone)), row), row, true);
  }

  lemma {:induction false} HappeningsKeepFlags(s: Scene, es: seq<Event>)
    requires s.c.Flags(s.g) && Happens(s, es)
    ensures RunTo(s, es).c.Flags(RunTo(s, es).g)
    decreases |es|
  {
    if es != [] {
      StepKeepsFlags(s, es[0]);
      HappeningsKeepFlags(Step(s, es[0]), es[1..]);
    }
  }

  /** Whatever happens from the initial load on, at most one load is under way, and nothing is queued without one. */
  lemma AtMostOneLoad(c: Config, es: seq<Event>)
    requires Happens(Initial(c), es)
    ensures var g := RunTo(Initial(c), es).g;
            |g.inFlight| == (if g.buffering then 1 else 0) && (!g.buffering ==> g.queue == -1)
  {
    HappeningsKeepFlags(Initial(c), es);
  }

  // ---------------------------------------------------------------- the invariant over runs

  lemma InitialInv(c: Config)
    requires c.Sane()
    ensures c.Inv(Initial(c).g)
  {
  }

  lemma {:induction false} UpdateKeepsInv(c: Config, g: Grid, index: int, force: bool)
    requires c.Sane() && c.Inv(g) && 0 <= index < c.total
    ensures c.Inv(c.UpdateLiveRows(g, index, force))
  {
  }

  lemma {:induction false} SucceedKeepsInv(c: Config, g: Grid)
    requires c.Sane() && c.Inv(g) && g.inFlight != []
    ensures c.Inv(c.Succeed(g))
  {
    var req := g.inFlight[0];
    var free := g.(lo := req.start, hi := c.HiAfter(req.start), inFlight := [],
                   buffering := false, prebuffering := false);
    assert g.inFlight[1..] == [];
    UpdateKeepsInv(c, free.(queue := -1), g.rowIndex, false);
    var drawn := c.DrawRowIndex(free, req.force);
    if drawn.queue >= 0 {
      UpdateKeepsInv(c, drawn.(queue := -1), drawn.queue, false);
    }
  }

  /** What a removal leaves before the view is updated. */
  lemma {:induction false} RemovedInv(c: Config, g: Grid, gone: nat, row: int)
    requires c.Sane() && c.Inv(g) && !g.buffering && 0 < gone < c.total && gone <= g.hi - g.lo + 1 && g.lo >= 0
    requires LeavesRoom(c, g, gone) && 0 <= row < c.total - gone
    ensures c.(total := c.total - gone).Inv(PutTo(g.(hi := g.hi - gone), row))
  {
    assert g.inFlight == [];
  }

  lemma {:induction false} RemovalKeepsInv(c: Config, g: Grid, gone: nat, above: nat)
    requires c.Sane() && c.Inv(g) && Enabled(Scene(c, g), Removed(gone, above))
    ensures AfterRemoval(c, g, gone, above).c.Sane()
    ensures AfterRemoval(c, g, gone, above).c.Inv(AfterRemoval(c, g, gone, above).g)
  {
    var less := c.(total := c.total - gone);
    AfterRemovalIs(c, g, less, g.(hi := g.hi - gone), gone, above);
    UpdateRemovedInv(c, g, gone, RowAfter(g.rowIndex, above, less.total, c.visible));
  }

  lemma {:induction false} UpdateRemovedInv(c: Config, g: Grid, gone: nat, row: int)
    requires c.Sane() && c.Inv(g) && !g.buffering && 0 < gone < c.total && gone <= g.hi - g.lo + 1 && g.lo >= 0
    requires LeavesRoom(c, g, gone) && 0 <= row < c.total - gone
    ensures var less := c.(total := c.total - gone);
            less.Sane() && less.Inv(less.UpdateLiveRows(PutTo(g.(hi := g.hi - gone), row), row, true))
  {
    RemovedInv(c, g, gone, row);
    UpdateKeepsInv(c.(total := c.total - gone), PutTo(g.(hi := g.hi - gone), row), row, true);
  }

  lemma StepKeepsInv(s: Scene, e: Event)
    requires s.c.Sane() && s.c.Inv(s.g) && Enabled(s, e)
    ensures Step(s, e).c.Sane() && Step(s, e).c.Inv(Step(s, e).g)
  {
    match e
    case Scrolled(cursor) => UpdateKeepsInv(s.c, s.g.(rowIndex := cursor), cursor, false);
    case Succeeded => SucceedKeepsInv(s.c, s.g);
    case Failed =>
    case Removed(gone, above) => RemovalKeepsInv(s.c, s.g, gone, above);
  }

  lemma {:induction false} RunKeepsInv(s: Scene, es: seq<Event>)
    requires s.c.Sane() && s.c.Inv(s.g) && Run(s, es)
    ensures RunTo(s, es).c.Sane() && RunTo(s, es).c.Inv(RunTo(s, es).g)
    decreases |es|
  {
    if es != [] {
      StepKeepsInv(s, es[0]);
      RunKeepsInv(Step(s, es[0]), es[1..]);
    }
  }

  /** In every run every load starts on the table, and a table shorter than the buffer is not loaded again. */
  lemma LoadsStartOnTable(c: Config, es: seq<Event>)
    requires c.Sane() && Run(Initial(c), es)
    ensures var s := RunTo(Initial(c), es);
            && (forall r :: r in s.g.inFlight ==> 0 <= r.start < s.c.total)
            && (s.c.total < s.c.size ==> s.g.inFlight == [])
  {
    RunKeepsInv(Initial(c), es);
  }

  // ---------------------------------------------------------------- prediction

  /** A window fetched for this row after a jump shows it. */
  predicate Refetchable(c: Config, index: int) {
    c.visible <= RoundHalf(c.size) || c.total <= index + c.size
  }

  /**
   * A re-buffer ahead of the scrollbar always serves the row it was asked for.  One for a row out of range
   * does exactly when the last window is fetched or the visible rows fit in half the buffer.
   */
  lemma RebufferServesIff(c: Config, index: int, inRange: bool, down: bool)
    requires c.Sane() && 0 <= index < c.total
    ensures c.Shows(c.Predict(index, inRange, down), index) <==> inRange || Refetchable(c, index)
  {
  }

  /**
   * Of one call, whatever it is asked: the start is that of a full window exactly when the table fills a buffer
   * and, scrolling up, the view ends within the table.
   */
  lemma PredictedStartIff(c: Config, index: int, inRange: bool, down: bool)
    requires c.Sane() && 0 <= index < c.total
    requires c.visible <= RoundHalf(c.size)
    ensures 0 <= c.Predict(index, inRange, down) <= c.total - c.size <==>
              c.size <= c.total && (!inRange || down || index + c.visible <= c.total)
  {
  }

  /** The predicted start is negative exactly for a row out of range of a table shorter than the buffer. */
  lemma PredictNegativeIff(c: Config, index: int, inRange: bool, down: bool)
    requires 0 <= index < c.total
    ensures c.Predict(index, inRange, down) < 0 <==> !inRange && c.total < c.size
  {
  }

  /**
   * A bulk removal that leaves part of the buffer, of a table now shorter than it, makes a scroll ask for a negative
   * start.
   */
  lemma RemovalAsksNegativeStart()
    ensures var c := Config(120, 10, 100, 25);
            var s := AfterRemoval(c, Initial(c).g, 50, 0);
            s.c.Scroll(s.g, 65).inFlight == [Request(-30, false)]
  {
  }

  /** A load for a row out of range of a short table starts before it. */
  lemma {:induction false} ShortTableLoad(c: Config, g: Grid, index: int, force: bool)
    requires 0 <= index < c.total < c.size && !g.buffering && !c.InRange(g.lo, g.hi, index) && g.inFlight == []
    ensures var after := c.UpdateLiveRows(g, index, force); after.inFlight == [Request(c.total - c.size, force)]
  {
  }

  /**
   * A row of the table other than the last one that the window of a removal's view does not show, if the view shows
   * its own.
   */
  function Elsewhere(c: Config, g: Grid): int { if g.lo > 0 then 0 else c.total - 1 }

  ghost predicate StartsOnTable(s: Scene) { forall r :: r in s.g.inFlight ==> 0 <= r.start }

  ghost predicate AllStartOnTable(s: Scene) {
    forall es :: Run(s, es) && NoRemoval(es) ==> StartsOnTable(RunTo(s, es))
  }

  lemma {:induction false} OneScroll(s: Scene, x: int)
    requires 0 <= x < s.c.total && AllStartOnTable(s)
    ensures StartsOnTable(s.(g := s.c.Scroll(s.g, x)))
  {
    var es := [Scrolled(x)];
    assert es[1..] == [];
    assert RunTo(s, es) == RunTo(Step(s, es[0]), []);
    assert Run(s, es) && NoRemoval(es);
  }

  lemma {:induction false} FailedScroll(s: Scene, x: int)
    requires 0 <= x < s.c.total && s.g.inFlight != [] && AllStartOnTable(s)
    ensures StartsOnTable(s.(g := s.c.Scroll(s.c.Fail(s.g), x)))
  {
    var es := [Failed, Scrolled(x)];
    assert es[1..] == [Scrolled(x)] && es[1..][1..] == [];
    var s1 := Step(s, es[0]);
    assert RunTo(s, es) == RunTo(s1, es[1..]) == RunTo(Step(s1, es[1]), []);
    assert Run(s, es) && NoRemoval(es);
  }

  /**
   * A short table, only part of it buffered: no load, a scroll, or a failed load and a scroll leads to a negative
   * start.
   */
  lemma {:induction false} ShortTableGoesWrong(c: Config, g: Grid, row: int)
    requires c.Sane() && c.total < c.size && 0 <= row < c.total && !g.buffering && g.inFlight == [] && g.queue == -1
    requires 0 <= g.lo && g.hi <= c.total - 1 && !c.Whole(g)
    ensures !AllStartOnTable(Scene(c, c.UpdateLiveRows(PutTo(g, row), row, true)))
  {
    var after := c.UpdateLiveRows(PutTo(g, row), row, true);
    var s := Scene(c, after);
    if AllStartOnTable(s) {
      var none: seq<Event> := [];
      assert Run(s, none) && NoRemoval(none) && RunTo(s, none) == s;
      if !c.InRange(g.lo, g.hi, row) {
        ShortTableLoad(c, PutTo(g, row), row, true);
      } else if !after.buffering {
        var x := Elsewhere(c, g);
        ShortTableLoad(c, after.(rowIndex := x), x, false);
        OneScroll(s, x);
      } else {
        var x, failed := Elsewhere(c, g), c.Fail(after);
        assert after.inFlight[1..] == [];
        ShortTableLoad(c, failed.(rowIndex := x), x, false);
        FailedScroll(s, x);
      }
    }
  }

  /**
   * After a removal from an idle view every later load starts on the table, in every run without another removal,
   * exactly when the table was left a buffer's worth of rows or had been buffered as a whole.
   */
  lemma {:induction false} RemovalStartsIff(c: Config, g: Grid, gone: nat, above: nat)
    requires c.Sane() && c.Inv(g) && Takes(Scene(c, g), gone, above)
    ensures AllStartOnTable(AfterRemoval(c, g, gone, above)) <==> LeavesRoom(c, g, gone)
  {
    var after := AfterRemoval(c, g, gone, above);
    if LeavesRoom(c, g, gone) {
      RemovalKeepsInv(c, g, gone, above);
      forall es | Run(after, es) && NoRemoval(es) ensures StartsOnTable(RunTo(after, es)) {
        RunKeepsInv(after, es);
      }
    } else {
      var less, moved := c.(total := c.total - gone), g.(hi := g.hi - gone);
      var row := RowAfter(g.rowIndex, above, less.total, less.visible);
      AfterRemovalIs(c, g, less, moved, gone, above);
      ShortTableGoesWrong(less, moved, row);
    }
  }

  /** The window and the load under way begin where a full window of the table can begin. */
  ghost predicate StartsFit(s: Scene) {
    s.g.lo <= s.c.total - s.c.size && forall r :: r in s.g.inFlight ==> 0 <= r.start <= s.c.total - s.c.size
  }

  /** The same, kept by every step: the last index is on the table, and a table that just fits the buffer is in it. */
  ghost predicate Fit(s: Scene) {
    StartsFit(s) && s.g.lastIndex < s.c.total && (s.c.size == s.c.total ==> s.c.Whole(s.g) && !s.g.buffering)
  }

  ghost predicate NoRemoval(es: seq<Event>) { forall e :: e in es ==> !e.Removed? }

  /** Scrolling up comes near the window's start only from rows whose view ends on the table. */
  predicate NearFits(c: Config) { c.visible <= 2 || c.near + c.visible <= c.size || c.size == c.total }

  lemma {:induction false} UpdateKeepsFit(c: Config, g: Grid, index: int, force: bool)
    requires c.Sane() && c.Inv(g) && c.size <= c.total && c.visible <= RoundHalf(c.size) && NearFits(c)
    requires Fit(Scene(c, g)) && 0 <= index < c.total
    ensures Fit(Scene(c, c.UpdateLiveRows(g, index, force)))
  {
  }

  lemma {:induction false} SucceedKeepsFit(c: Config, g: Grid)
    requires c.Sane() && c.Inv(g) && c.size <= c.total && c.visible <= RoundHalf(c.size) && NearFits(c)
    requires Fit(Scene(c, g)) && g.inFlight != []
    ensures Fit(Scene(c, c.Succeed(g)))
  {
    var start := g.inFlight[0].start;
    var free := g.(lo := start, hi := c.HiAfter(start), inFlight := [], buffering := false, prebuffering := false);
    assert g.inFlight[1..] == [];
    UpdateKeepsInv(c, free.(queue := -1), g.rowIndex, false);
    UpdateKeepsFit(c, free.(queue := -1), g.rowIndex, false);
    var drawn := c.DrawRowIndex(free, g.inFlight[0].force);
    if drawn.queue >= 0 {
      UpdateKeepsFit(c, drawn.(queue := -1), drawn.queue, false);
    }
  }

  lemma {:induction false} StepKeepsFit(s: Scene, e: Event)
    requires s.c.Sane() && s.c.Inv(s.g) && s.c.size <= s.c.total && s.c.visible <= RoundHalf(s.c.size) && NearFits(s.c)
    requires Fit(s) && Enabled(s, e) && !e.Removed?
    ensures Fit(Step(s, e))
  {
    match e
    case Scrolled(cursor) => UpdateKeepsFit(s.c, s.g.(rowIndex := cursor), cursor, false);
    case Succeeded => SucceedKeepsFit(s.c, s.g);
    case Failed =>
  }

  lemma {:induction false} RunKeepsFit(s: Scene, es: seq<Event>)
    requires s.c.Sane() && s.c.Inv(s.g) && s.c.size <= s.c.total && s.c.visible <= RoundHalf(s.c.size) && NearFits(s.c)
    requires Fit(s) && Run(s, es) && NoRemoval(es)
    ensures Fit(RunTo(s, es))
    decreases |es|
  {
    if es != [] {
      assert es[0] in es && forall e :: e in es[1..] ==> e in es;
      StepKeepsInv(s, es[0]);
      StepKeepsFit(s, es[0]);
      RunKeepsFit(Step(s, es[0]), es[1..]);
    }
  }

  /** Down to the last row and up again until the window's start is near. */
  function UpAgain(c: Config): seq<Event> {
    [Scrolled(c.total - 1), Succeeded, Scrolled(Min(c.total - 2, c.total - c.size + c.near))]
  }

  lemma {:induction false} RunOfThree(s: Scene, d: Event, e: Event, f: Event)
    requires Enabled(s, d) && Enabled(Step(s, d), e) && Enabled(Step(Step(s, d), e), f)
    ensures Run(s, [d, e, f]) && RunTo(s, [d, e, f]) == Step(Step(Step(s, d), e), f)
  {
    var s1 := Step(s, d);
    var s2 := Step(s1, e);
    assert [d, e, f][1..] == [e, f] && [e, f][1..] == [f] && [f][1..] == [];
    assert Run(s2, [f]) && RunTo(s2, [f]) == RunTo(Step(s2, f), []);
    assert Run(s1, [e, f]) && RunTo(s1, [e, f]) == RunTo(s2, [f]);
    assert Run(s, [d, e, f]) && RunTo(s, [d, e, f]) == RunTo(s1, [e, f]);
  }

  /** At the last row. */
  lemma {:induction false} AtTheEnd(c: Config)
    requires c.Sane() && c.size < c.total && c.visible <= RoundHalf(c.size)
    ensures var s1 := Step(Initial(c), Scrolled(c.total - 1));
            && s1.c == c && s1.g.inFlight != []
            && Step(s1, Succeeded).c == c
            && Step(s1, Succeeded).g == Grid(c.total - c.size, c.total - 1, c.total - 1, c.total - 1, c.total - 1,
                                             false, false, -1, [], false)
  {
    var s1 := Step(Initial(c), Scrolled(c.total - 1));
    assert s1.g.inFlight == [Request(c.total - c.size, false)] && s1.g.inFlight[1..] == [];
  }

  lemma {:induction false} UpAgainOvershoots(c: Config)
    requires c.Sane() && c.size <= c.total && c.visible <= RoundHalf(c.size) && !NearFits(c)
    ensures Run(Initial(c), UpAgain(c)) && !StartsFit(RunTo(Initial(c), UpAgain(c)))
  {
    AtTheEnd(c);
    var s2 := Step(Step(Initial(c), Scrolled(c.total - 1)), Succeeded);
    var up := Min(c.total - 2, c.total - c.size + c.near);
    RunOfThree(Initial(c), Scrolled(c.total - 1), Succeeded, Scrolled(up));
    assert Step(s2, Scrolled(up)).g.inFlight == [Request(up - c.size + c.visible, false)];
    assert Step(s2, Scrolled(up)).g.inFlight[0].start > c.total - c.size;
  }

  /**
   * With visible rows of at most half the buffer, in every run every window fetched begins in
   * [0, totalLength - bufferSize] exactly when nearLimit and the visible rows fit the buffer together, as its
   * documentation demands, or no more than two rows are visible, or the buffer takes the whole table.
   */
  lemma StartsFitIff(c: Config)
    requires c.Sane() && c.size <= c.total && c.visible <= RoundHalf(c.size)
    ensures (forall es :: Run(Initial(c), es) && NoRemoval(es) ==> StartsFit(RunTo(Initial(c), es))) <==> NearFits(c)
  {
    if NearFits(c) {
      forall es | Run(Initial(c), es) && NoRemoval(es) ensures StartsFit(RunTo(Initial(c), es)) {
        RunKeepsFit(Initial(c), es);
      }
    } else {
      UpAgainOvershoots(c);
      assert NoRemoval(UpAgain(c));
    }
  }

  // ---------------------------------------------------------------- coming to rest

  /** Nothing is loading or queued, and the view was last put to the scrollbar's row. */
  predicate AtRest(g: Grid) { !g.buffering && g.queue == -1 && g.lastRowIndex == g.rowIndex }

  /** And the rows on screen are those of the table. */
  predicate Settled(g: Grid) { AtRest(g) && !g.stale }

  /** Let successful answers come in until nothing is under way, at most n of them. */
  function Drain(c: Config, g: Grid, n: nat): Grid
    decreases n
  {
    if n == 0 || g.inFlight == [] then g else Drain(c, c.Succeed(g), n - 1)
  }

  /** The window under way or the one that is fetched next shows the scrollbar's rows. */
  predicate Served(c: Config, g: Grid)
    requires g.inFlight != []
  {
    c.Shows(g.inFlight[0].start, g.rowIndex) || Refetchable(c, g.rowIndex)
  }

  /** A row that no window fetched for it shows is asked for again and again, whatever is queued. */
  lemma {:induction false} NeverSettles(c: Config, g: Grid, n: nat)
    requires c.Sane() && c.Inv(g) && g.buffering && !Refetchable(c, g.rowIndex)
    requires !c.Shows(g.inFlight[0].start, g.rowIndex)
    ensures Drain(c, g, n).buffering && Drain(c, g, n).lastRowIndex == g.lastRowIndex
    decreases n
  {
    if n > 0 {
      RebufferServesIff(c, g.rowIndex, false, false);
      SucceedKeepsInv(c, g);
      NeverSettles(c, c.Succeed(g), n - 1);
    }
  }

  /** The rows of rowIndex are all drawn anew when they are drawn. */
  predicate Redrawn(c: Config, g: Grid)
    requires g.inFlight != []
  {
    var req := g.inFlight[0];
    c.DrawsAll(g.lastRowIndex, g.rowIndex, req.force && c.Shows(req.start, g.rowIndex))
  }

  /** What one answer does when nothing but rowIndex is queued, and its rows are in it. */
  lemma {:induction false} ServedAnswer(c: Config, g: Grid)
    requires c.Sane() && c.Inv(g) && g.buffering && (g.queue == -1 || g.queue == g.rowIndex)
    requires c.Shows(g.inFlight[0].start, g.rowIndex)
    ensures var one := c.Succeed(g);
            && one.rowIndex == one.lastRowIndex == g.rowIndex && one.stale == (g.stale && !Redrawn(c, g))
            && (g.queue == -1 || g.lastIndex == g.rowIndex ==> AtRest(one))
            && (AtRest(one) || (one.buffering && one.queue == -1 && one.lastIndex == g.rowIndex
                                && c.Shows(one.inFlight[0].start, g.rowIndex) && !one.inFlight[0].force))
  {
    assert g.inFlight[1..] == [];
    RebufferServesIff(c, g.rowIndex, true, false);
    RebufferServesIff(c, g.rowIndex, true, true);
  }

  /**
   * Once scrolling stops with nothing queued but the row shown, two answers end the loading exactly when the
   * window under way shows the rows of rowIndex, or one fetched for them does.  Then they are on screen, unless the
   * screen was stale and is only drawn in part.
   */
  lemma {:induction false} SettlesInTwoIff(c: Config, g: Grid, n: nat)
    requires c.Sane() && c.Inv(g) && g.buffering && (g.queue == -1 || g.queue == g.rowIndex) && n >= 2
    ensures Drain(c, g, n).inFlight == [] <==> Served(c, g)
    ensures Settled(Drain(c, g, n)) <==> Served(c, g) && (!g.stale || Redrawn(c, g))
  {
    if !Served(c, g) {
      NeverSettles(c, g, n);
      DrainKeepsInv(c, g, n);
    } else if c.Shows(g.inFlight[0].start, g.rowIndex) {
      ServedInTwo(c, g, n);
    } else {
      Refetched(c, g);
      SucceedKeepsInv(c, g);
      RebufferServesIff(c, g.rowIndex, false, false);
      ServedAnswer(c, c.Succeed(g));
      SucceedKeepsInv(c, c.Succeed(g));
      TwoAnswers(c, g, n);
    }
  }

  lemma {:induction false} TwoAnswers(c: Config, g: Grid, n: nat)
    requires c.Inv(g) && g.buffering && c.Inv(c.Succeed(g)) && c.Succeed(g).buffering && n >= 2
    requires c.Succeed(c.Succeed(g)).inFlight == []
    ensures Drain(c, g, n) == c.Succeed(c.Succeed(g))
  {
    var one := c.Succeed(g);
    assert g.inFlight != [] && one.inFlight != [];
    assert Drain(c, g, n) == Drain(c, one, n - 1);
    assert Drain(c, one, n - 1) == Drain(c, c.Succeed(one), n - 2);
  }

  lemma {:induction false} ServedInTwo(c: Config, g: Grid, n: nat)
    requires c.Sane() && c.Inv(g) && g.buffering && (g.queue == -1 || g.queue == g.rowIndex) && n >= 2
    requires c.Shows(g.inFlight[0].start, g.rowIndex)
    ensures Drain(c, g, n).inFlight == [] && (Settled(Drain(c, g, n)) <==> !g.stale || Redrawn(c, g))
  {
    var one := c.Succeed(g);
    ServedAnswer(c, g);
    SucceedKeepsInv(c, g);
    if one.buffering {
      ServedAnswer(c, one);
      SucceedKeepsInv(c, one);
      TwoAnswers(c, g, n);
    } else {
      assert Drain(c, g, n) == Drain(c, one, n - 1);
    }
  }

  lemma {:induction false} DrainKeepsInv(c: Config, g: Grid, n: nat)
    requires c.Sane() && c.Inv(g)
    ensures c.Inv(Drain(c, g, n))
    decreases n
  {
    if n > 0 && g.inFlight != [] {
      var one := c.Succeed(g);
      assert c.Inv(one) by {
        SucceedKeepsInv(c, g);
      }
      DrainKeepsInv(c, one, n - 1);
    }
  }

  /** A scroll shows its rows at once or leaves a load under way, which ends with them on screen as above. */
  lemma ScrollShowsOrLoads(c: Config, g: Grid, cursor: int)
    requires c.Sane() && c.Inv(g) && 0 <= cursor < c.total
    ensures var scrolled := c.Scroll(g, cursor);
            && (scrolled.buffering
                || (AtRest(scrolled) && scrolled.stale == (g.stale && !c.DrawsAll(g.lastRowIndex, cursor, false))))
            && (scrolled.buffering && (scrolled.queue == -1 || scrolled.queue == cursor) ==>
                  (Settled(Drain(c, scrolled, 2)) <==>
                      Served(c, scrolled) && (!scrolled.stale || Redrawn(c, scrolled))))
  {
    var scrolled := c.Scroll(g, cursor);
    StepKeepsInv(Scene(c, g), Scrolled(cursor));
    if scrolled.buffering && (scrolled.queue == -1 || scrolled.queue == cursor) {
      SettlesInTwoIff(c, scrolled, 2);
    }
  }

  // ---------------------------------------------------------------- another row in the queue

  /** The start of the window in which the rows of rowIndex are drawn, and lastIndex by then. */
  function DrawnFrom(c: Config, g: Grid): int
    requires g.inFlight != []
  {
    if c.Shows(g.inFlight[0].start, g.rowIndex) then g.inFlight[0].start else c.Predict(g.rowIndex, false, false)
  }

  function DrawnLast(c: Config, g: Grid): int
    requires g.inFlight != []
  {
    if c.Shows(g.inFlight[0].start, g.rowIndex) then g.lastIndex else g.rowIndex
  }

  /** Another row is queued, lies in that window and far enough from its ends. */
  predicate Strands(c: Config, g: Grid)
    requires g.inFlight != []
  {
    var s := DrawnFrom(c, g);
    && g.queue != -1 && g.queue != g.rowIndex
    && c.Shows(s, g.queue) && c.Rests(s, c.HiAfter(s), DrawnLast(c, g), g.queue)
  }

  /** The start of the window that is fetched for the queued row otherwise. */
  function QueuedFrom(c: Config, g: Grid): int
    requires g.inFlight != []
  {
    var shown := c.Shows(DrawnFrom(c, g), g.queue);
    c.Predict(g.queue, shown, shown && g.queue > DrawnLast(c, g))
  }

  /** All rows are drawn anew for rowIndex, or for the queued row on the way to it or from it. */
  predicate Refreshed(c: Config, g: Grid)
    requires g.inFlight != []
  {
    || Redrawn(c, g)
    || (g.queue != -1 && c.Shows(DrawnFrom(c, g), g.queue) && c.DrawsAll(g.rowIndex, g.queue, false))
  }

  /** Serving the queue once the rows of rowIndex are drawn. */
  lemma {:induction false} QueueServed(c: Config, g: Grid)
    requires c.Sane() && c.Inv(g) && g.buffering && g.queue != -1 && g.queue != g.rowIndex
    requires c.Shows(g.inFlight[0].start, g.rowIndex)
    ensures var one := c.Succeed(g);
            && one.queue == -1 && one.rowIndex == g.rowIndex
            && one.lastRowIndex == (if c.Shows(g.inFlight[0].start, g.queue) then g.queue else g.rowIndex)
            && one.stale == (g.stale && !Refreshed(c, g))
            && one.inFlight == if Strands(c, g) then [] else [Request(QueuedFrom(c, g), false)]
  {
    assert g.inFlight[1..] == [];
  }

  lemma {:induction false} SettlesIffDrawn(c: Config, g: Grid, n: nat)
    requires c.Sane() && c.Inv(g) && g.buffering && g.queue != -1 && g.queue != g.rowIndex && n >= 3
    requires c.Shows(g.inFlight[0].start, g.rowIndex)
    ensures var end, again := Drain(c, g, n), c.Shows(QueuedFrom(c, g), g.rowIndex) || Refetchable(c, g.rowIndex);
            && (end.inFlight == [] <==> Strands(c, g) || again)
            && (Settled(end) <==> !Strands(c, g) && again && (!g.stale || Refreshed(c, g)))
  {
    QueueServed(c, g);
    SucceedKeepsInv(c, g);
    var one := c.Succeed(g);
    assert Drain(c, g, n) == Drain(c, one, n - 1);
    if !Strands(c, g) {
      SettlesInTwoIff(c, one, n - 1);
    }
  }

  /**
   * From any state with a load under way: whether loading ever ends, and whether it ends with the rows of
   * rowIndex on screen.  Another row in the queue that lies well inside the window keeps the screen; one that
   * does not is fetched for, and the rows of rowIndex must be found again after that.  A stale screen must be drawn
   * anew as a whole on the way.
   */
  lemma {:induction false} SettlesIff(c: Config, g: Grid, n: nat)
    requires c.Sane() && c.Inv(g) && g.buffering && n >= 4
    ensures var end := Drain(c, g, n);
            var clear := g.queue == -1 || g.queue == g.rowIndex;
            var again := c.Shows(QueuedFrom(c, g), g.rowIndex) || Refetchable(c, g.rowIndex);
            && (end.inFlight == [] <==> Served(c, g) && (clear || Strands(c, g) || again))
            && (Settled(end) <==> Served(c, g) && (clear || (!Strands(c, g) && again)) && (!g.stale || Refreshed(c, g)))
  {
    if g.queue == -1 || g.queue == g.rowIndex {
      SettlesInTwoIff(c, g, n);
    } else if !Served(c, g) {
      NeverSettles(c, g, n);
      DrainKeepsInv(c, g, n);
    } else if c.Shows(g.inFlight[0].start, g.rowIndex) {
      SettlesIffDrawn(c, g, n);
    } else {
      RebufferServesIff(c, g.rowIndex, false, false);
      SucceedKeepsInv(c, g);
      Refetched(c, g);
      assert Drain(c, g, n) == Drain(c, c.Succeed(g), n - 1);
      SettlesIffDrawn(c, c.Succeed(g), n - 1);
    }
  }

  /** An answer that does not show rowIndex leads to a load for it, with the queue as it was. */
  lemma {:induction false} Refetched(c: Config, g: Grid)
    requires c.Sane() && c.Inv(g) && g.buffering && !c.Shows(g.inFlight[0].start, g.rowIndex)
    ensures var one := c.Succeed(g);
            && one.buffering && one.queue == g.queue && one.rowIndex == g.rowIndex && one.lastIndex == g.rowIndex
            && one.lastRowIndex == g.lastRowIndex && one.stale == g.stale
            && one.inFlight == [Request(c.Predict(g.rowIndex, false, false), false)]
  {
    assert g.inFlight[1..] == [];
  }

  // ---------------------------------------------------------------- runs that do not settle

  /**
   * A buffer larger than nearLimit and the visible rows together is not enough: from row 500 on this grid loads for
   * ever.
   */
  lemma FarRowNeverSettles(n: nat)
    ensures var c := Config(1000, 60, 100, 25);
            && c.near + c.visible < c.size
            && Run(Initial(c), [Scrolled(500)]) && Drain(c, RunTo(Initial(c), [Scrolled(500)]).g, n).buffering
  {
    var c := Config(1000, 60, 100, 25);
    var s := Step(Initial(c), Scrolled(500));
    assert [Scrolled(500)][1..] == [];
    assert RunTo(Initial(c), [Scrolled(500)]) == RunTo(s, []);
    StepKeepsInv(Initial(c), Scrolled(500));
    NeverSettles(c, s.g, n);
  }

  /** Scrolling back to the rows on screen leaves the old row in the queue, and the grid can rest on the wrong rows. */
  lemma StaleQueueStrandsView()
    ensures var c := Config(1000, 10, 100, 25);
            var es := [Scrolled(80), Scrolled(120), Scrolled(80), Succeeded];
            Run(Initial(c), es) &&
            var g := RunTo(Initial(c), es).g;
            !g.buffering && g.rowIndex == 80 && g.lastRowIndex == 120 && g.lo == 80 && g.hi == 179
  {
  }

  /** Without a removal the screen is never stale. */
  lemma {:induction false} StaysFresh(s: Scene, es: seq<Event>)
    requires !s.g.stale && Happens(s, es) && NoRemoval(es)
    ensures !RunTo(s, es).g.stale
    decreases |es|
  {
    if es != [] {
      assert es[0] in es && forall e :: e in es[1..] ==> e in es;
      StaysFresh(Step(s, es[0]), es[1..]);
    }
  }

  /**
   * A removal that leaves the window, and a scroll of three rows while the rows are loaded: the grid is at rest,
   * and seven of the nodes on screen are old.  So they all are if that load fails.
   */
  lemma RemovalLeavesStaleScreen()
    ensures var c := Config(1000, 10, 100, 25);
            var es := [Scrolled(85), Succeeded, Removed(95, 0), Scrolled(88), Succeeded];
            Run(Initial(c), es) && var g := RunTo(Initial(c), es).g;
            AtRest(g) && g.stale && g.rowIndex == 88 && g.lo == 45
    ensures var c := Config(1000, 10, 100, 25);
            var es := [Scrolled(85), Succeeded, Removed(95, 0), Failed];
            Run(Initial(c), es) && AtRest(RunTo(Initial(c), es).g) && RunTo(Initial(c), es).g.stale
  {
  }

  /**
   * A removal that is not enabled: one node was on screen, at the table's end, and nine would be.  A scroll of four
   * rows then drops it with nothing to add, as LiveView.ScreenRunsEmpty says.
   */
  lemma ShortPageGoesOnPossible()
    ensures var c := Config(1000, 10, 100, 25);
            var es := [Scrolled(999), Succeeded, Removed(95, 95), Scrolled(900), Succeeded];
            Happens(Initial(c), es) && var s := RunTo(Initial(c), es);
            s.c.total == 905 && AtRest(s.g) && s.g.stale && s.g.lastRowIndex == 900
  {
  }
}
