/**
 * When the Store's window agrees with the remote table: which loads, inserts and removes keep the
 * agreement, exactly, and the agreement over whole runs of them.
 */
module LiveWindow {
  import opened Wrappers
  import opened LiveStore
  import opened Sequences

  /** The window shows table[lo..hi], no more than the buffer may hold. */
  ghost predicate Holds(size: nat, w: Window, table: seq<Row>) {
    && 0 <= w.lo
    && w.hi == w.lo + |w.data| - 1
    && |w.data| <= size
    && w.hi < |table|
    && forall i :: 0 <= i < |w.data| ==> w.data[i].row == table[w.lo + i]
  }

  ghost predicate Agrees(size: nat, w: Window, table: seq<Row>) {
    Holds(size, w, table) && w.total == |table|
  }

  /** In an agreeing window getAt(i) is row i of the table for i in [lo, hi], and undefined elsewhere. */
  lemma GetAtIsTableRow(size: nat, w: Window, table: seq<Row>, i: int)
    requires Holds(size, w, table)
    ensures GetAt(w, i).Some? <==> w.lo <= i <= w.hi
    ensures w.lo <= i <= w.hi ==> GetAt(w, i).value.row == table[i]
  {
    if w.lo <= i <= w.hi {
      assert w.data[i - w.lo].row == table[w.lo + (i - w.lo)];
    }
  }

  lemma HoldsWhereShown(size: nat, w: Window, table: seq<Row>)
    requires Holds(size, w, table)
    ensures forall i :: GetAt(w, i).Some? ==> 0 <= i < |table| && GetAt(w, i).value.row == table[i]
  {
    forall i | GetAt(w, i).Some? ensures 0 <= i < |table| && GetAt(w, i).value.row == table[i] {
      GetAtIsTableRow(size, w, table, i);
    }
  }

  // ---------------------------------------------------------------- closed forms

  lemma {:induction false} AddAllFresh(rs: seq<Record>, more: seq<Record>)
    requires DistinctIds(rs + more)
    ensures AddAll(rs, more) == rs + more
    decreases |more|
  {
    if more == [] {
      assert rs + more == rs;
    } else {
      var all := rs + more;
      assert forall i :: 0 <= i < |rs| ==> all[i] == rs[i];
      assert all[|rs|] == more[0];
      assert (rs + [more[0]]) + more[1..] == rs + more;
      AddAllFresh(rs + [more[0]], more[1..]);
    }
  }

  lemma AddAllOfFresh(more: seq<Record>)
    requires DistinctIds(more)
    ensures AddAll([], more) == more
  {
    assert [] + more == more;
    AddAllFresh([], more);
  }

  /** The loop of insert leaves the records in reverse order, because it reuses one index. */
  lemma {:induction false} InsertAllReverses(rs: seq<Record>, k: nat, ins: seq<Record>)
    requires k < |rs| || (k == |rs| && (ins == [] || IndexOfId(rs, ins[0].row.id) == -1))
    ensures InsertAll(rs, k, ins) == rs[..k] + Reverse(ins) + rs[k..]
    decreases |ins|
  {
    if ins == [] {
      assert rs[..k] + [] + rs[k..] == rs;
    } else {
      var next := rs[..k] + [ins[0]] + rs[k..];
      assert k == |rs| ==> rs[..k] == rs && rs[k..] == [];
      assert InsertOne(rs, k, ins[0]) == next;
      InsertAllReverses(next, k, ins[1..]);
      assert next[..k] == rs[..k] && next[k..] == [ins[0]] + rs[k..];
      assert rs[..k] + Reverse(ins[1..]) + ([ins[0]] + rs[k..]) == rs[..k] + (Reverse(ins[1..]) + [ins[0]]) + rs[k..];
    }
  }

  lemma {:induction false} TrimTakes(rs: seq<Record>, size: nat)
    requires DistinctIds(rs)
    ensures Trim(rs, size) == rs[..Min(|rs|, size)]
    decreases |rs|
  {
    if |rs| > size {
      var last := rs[|rs| - 1];
      assert last in rs;
      assert IndexOf(rs, last) == |rs| - 1;
      assert RemoveAt(rs, |rs| - 1) == rs[..|rs| - 1];
      TrimTakes(rs[..|rs| - 1], size);
    }
  }

  lemma DistinctReorder(a: seq<Record>, b: seq<Record>, c: seq<Record>)
    requires DistinctIds(a + c + b)
    ensures DistinctIds(a + Reverse(b) + c)
  {
    var s, t := a + c + b, a + Reverse(b) + c;
    forall i, j | 0 <= i < j < |t| ensures t[i].row.id != t[j].row.id {
      var from := (m: int) => if m < |a| then m else if m < |a| + |b| then |a| + |c| + |b| - 1 - (m - |a|) else m - |b|;
      assert t[i] == s[from(i)] && t[j] == s[from(j)];
    }
  }

  /** What an in-buffer insert leaves in the buffer. */
  lemma InsertedData(size: nat, data: seq<Record>, k: nat, ins: seq<Record>)
    requires k <= |data| && k + |ins| <= size && DistinctIds(data + ins)
    ensures Trim(InsertAll(data, k, ins), size)
         == (data[..k] + Reverse(ins) + data[k..])[..Min(|data| + |ins|, size)]
  {
    FreshFirst(data, ins);
    InsertAllReverses(data, k, ins);
    SplitDistinct(data, k, ins);
    DistinctReorder(data[..k], ins, data[k..]);
    TrimTakes(data[..k] + Reverse(ins) + data[k..], size);
  }

  lemma FreshFirst(data: seq<Record>, ins: seq<Record>)
    requires DistinctIds(data + ins)
    ensures ins != [] ==> IndexOfId(data, ins[0].row.id) == -1
  {
    if ins != [] {
      var all := data + ins;
      assert all[|data|] == ins[0];
      assert forall i :: 0 <= i < |data| ==> all[i] == data[i];
    }
  }

  lemma SplitDistinct(data: seq<Record>, k: nat, ins: seq<Record>)
    requires k <= |data| && DistinctIds(data + ins)
    ensures DistinctIds(data[..k] + data[k..] + ins)
  {
    assert data[..k] + data[k..] == data;
  }

  // ---------------------------------------------------------------- loads

  /** The server answers with the table's rows from start on, at most limit of them, and the table's length. */
  ghost predicate Serves(table: seq<Row>, start: nat, limit: nat, res: Response) {
    && res.totalRecords == |table|
    && |res.records| == Max(0, Min(limit, |table| - start))
    && forall i :: 0 <= i < |res.records| ==> res.records[i].row == table[start + i]
  }

  lemma ServedAreDistinct(table: seq<Row>, start: nat, limit: nat, res: Response)
    requires Serves(table, start, limit, res) && DistinctRows(table)
    ensures DistinctIds(res.records)
  {
    forall i, j | 0 <= i < j < |res.records| ensures res.records[i].row.id != res.records[j].row.id {
      assert res.records[i].row == table[start + i] && res.records[j].row == table[start + j];
    }
  }

  lemma LoadedData(w: Window, table: seq<Row>, start: nat, limit: nat, res: Response)
    requires DistinctRows(table) && Serves(table, start, limit, res)
    ensures Loaded(w, Some(res), start, limit, true).data == res.records
  {
    ServedAreDistinct(table, start, limit, res);
    AddAllOfFresh(res.records);
  }

  /** A load agrees with the table exactly when the table is not empty and the start not beyond its end. */
  lemma LoadAgreesIff(size: nat, w: Window, table: seq<Row>, start: nat, res: Response)
    requires size > 0 && DistinctRows(table) && Serves(table, start, size, res)
    ensures Agrees(size, Loaded(w, Some(res), start, size, true), table) <==> table != [] && start <= |table|
  {
    LoadedData(w, table, start, size, res);
  }

  /** After a failed load nothing is buffered, whatever stale data the collection still has. */
  lemma FailedLoadIsBlank(size: nat, w: Window, table: seq<Row>, start: int, i: int)
    ensures var b := Loaded(w, None, start, size, false);
            GetAt(b, i).None? && !Holds(size, b, table) && b.data == w.data
  {
  }

  // ---------------------------------------------------------------- inserts

  /** The table after an insert whose first records were put one by one at the same place. */
  function TableInserted(size: nat, table: seq<Row>, p: nat, k: nat, recs: seq<Record>): seq<Row>
    requires k < size && p <= |table|
  {
    var ins := Taken(size, k, recs);
    table[..p] + Rows(Reverse(ins)) + Rows(recs[|ins|..]) + table[p..]
  }

  /** The condition under which insert moves hi along with the data. */
  predicate RangeFollows(size: nat, w: Window, taken: nat) {
    taken == 0 || w.lo == 0 || |w.data| == size || w.hi + taken <= size - 1
  }

  lemma SplicedAt<T>(a: seq<T>, k: nat, mid: seq<T>, i: nat)
    requires k <= |a| && i < |a| + |mid|
    ensures (a[..k] + mid + a[k..])[i] == if i < k then a[i] else if i < k + |mid| then mid[i - k] else a[i - |mid|]
  {
    var front, back := a[..k] + mid, a[k..];
    if i < |front| {
      assert (front + back)[i] == front[i];
    } else {
      assert (front + back)[i] == back[i - |front|];
    }
  }

  lemma TableInsertedLength(size: nat, table: seq<Row>, p: nat, k: nat, recs: seq<Record>)
    requires k < size && p <= |table|
    ensures |TableInserted(size, table, p, k, recs)| == |table| + |recs|
  {
  }

  lemma TableInsertedAt(size: nat, table: seq<Row>, p: nat, k: nat, recs: seq<Record>, i: nat)
    requires k < size && p <= |table|
    requires var ins := Taken(size, k, recs); i < p + |ins| || (|ins| == |recs| && i < |table| + |ins|)
    ensures var ins := Taken(size, k, recs);
            TableInserted(size, table, p, k, recs)[i] ==
              if i < p then table[i] else if i < p + |ins| then ins[|ins| - 1 - (i - p)].row else table[i - |ins|]
  {
    var ins := Taken(size, k, recs);
    var front, rest := table[..p] + Rows(Reverse(ins)), Rows(recs[|ins|..]);
    assert TableInserted(size, table, p, k, recs) == front + (rest + table[p..]);
    if p + |ins| <= i {
      assert rest == [];
    }
  }

  lemma InsertedRowAt(size: nat, w: Window, table: seq<Row>, k: nat, recs: seq<Record>, i: nat)
    requires Holds(size, w, table) && k < size && k <= |w.data|
    requires var ins := Taken(size, k, recs); i < |w.data| + |ins| && i < size
    ensures var ins := Taken(size, k, recs);
            && w.lo + i < |TableInserted(size, table, w.lo + k, k, recs)|
            && (w.data[..k] + Reverse(ins) + w.data[k..])[i].row ==
               TableInserted(size, table, w.lo + k, k, recs)[w.lo + i]
  {
    var ins := Taken(size, k, recs);
    TableInsertedLength(size, table, w.lo + k, k, recs);
    SplicedAt(w.data, k, Reverse(ins), i);
    TableInsertedAt(size, table, w.lo + k, k, recs, w.lo + i);
  }

  /** The records are those of the table's rows from lo on. */
  ghost predicate RowsFit(data: seq<Record>, table: seq<Row>, lo: nat) {
    lo + |data| <= |table| && forall i :: 0 <= i < |data| ==> data[i].row == table[lo + i]
  }

  /** Whatever becomes of the range, the buffered rows are those of the table from lo on. */
  lemma InsertedRows(size: nat, w: Window, table: seq<Row>, k: nat, recs: seq<Record>)
    requires Holds(size, w, table) && k < size && k <= |w.data| && DistinctIds(w.data + Taken(size, k, recs))
    ensures var data' := Inserted(size, w, At(k), recs).data;
            var table' := TableInserted(size, table, w.lo + k, k, recs);
            |data'| == Min(|w.data| + |Taken(size, k, recs)|, size) && RowsFit(data', table', w.lo)
  {
    var ins := Taken(size, k, recs);
    InsertedData(size, w.data, k, ins);
    var data' := Inserted(size, w, At(k), recs).data;
    var table' := TableInserted(size, table, w.lo + k, k, recs);
    TableInsertedLength(size, table, w.lo + k, k, recs);
    forall i | 0 <= i < |data'| ensures data'[i].row == table'[w.lo + i] {
      InsertedRowAt(size, w, table, k, recs, i);
    }
  }

  /** The arithmetic of bufferRange in insert: hi ends at the last record exactly when RangeFollows. */
  lemma RangeMoves(size: nat, w: Window, taken: nat)
    requires 0 <= w.lo && w.hi == w.lo + |w.data| - 1 && |w.data| <= size
    ensures (if w.hi < size - 1 then Min(w.hi + taken, size - 1) else w.hi) == w.lo + Min(|w.data| + taken, size) - 1
        <==> RangeFollows(size, w, taken)
  {
  }

  lemma {:induction false} RowsHoldIff(size: nat, w: Window, table: seq<Row>)
    requires 0 <= w.lo && |w.data| <= size && RowsFit(w.data, table, w.lo)
    ensures Holds(size, w, table) <==> w.hi == w.lo + |w.data| - 1
  {
  }

  lemma {:induction false} InsertedRange(size: nat, w: Window, k: nat, recs: seq<Record>)
    requires 0 <= w.lo && k < size
    ensures var w', taken := Inserted(size, w, At(k), recs), |Taken(size, k, recs)|;
            w'.lo == w.lo && w'.hi == if w.hi < size - 1 then Min(w.hi + taken, size - 1) else w.hi
  {
  }

  lemma {:induction false} InsertedHoldsIff(size: nat, w: Window, table: seq<Row>, k: nat, recs: seq<Record>)
    requires Holds(size, w, table) && k < size && k <= |w.data| && DistinctIds(w.data + Taken(size, k, recs))
    ensures Holds(size, Inserted(size, w, At(k), recs), TableInserted(size, table, w.lo + k, k, recs))
        <==> RangeFollows(size, w, |Taken(size, k, recs)|)
  {
    var w', table' := Inserted(size, w, At(k), recs), TableInserted(size, table, w.lo + k, k, recs);
    InsertedRows(size, w, table, k, recs);
    InsertedRange(size, w, k, recs);
    RangeMoves(size, w, |Taken(size, k, recs)|);
    RowsHoldIff(size, w', table');
  }

  /**
   * An in-buffer insert keeps the window's agreement exactly when the window starts at row 0, or is full,
   * or still ends below bufferSize; and totalLength stays right exactly when no record is split off.
   */
  lemma InsertAgreesIff(size: nat, w: Window, table: seq<Row>, k: nat, recs: seq<Record>)
    requires Agrees(size, w, table)
    requires k < size && k <= |w.data| && DistinctIds(w.data + Taken(size, k, recs))
    ensures var w' := Inserted(size, w, At(k), recs);
            var table' := TableInserted(size, table, w.lo + k, k, recs);
            && (Holds(size, w', table') <==> RangeFollows(size, w, |Taken(size, k, recs)|))
            && (w'.total == |table'| <==> k + |recs| <= size)
  {
    InsertedHoldsIff(size, w, table, k, recs);
    TableInsertedLength(size, table, w.lo + k, k, recs);
  }

  /** A store without a range: nothing loaded yet, or a load failed and left its data. */
  predicate Blank(size: nat, w: Window) { w.lo == -1 && w.hi == -1 && |w.data| <= size }

  /**
   * An insert into it leaves a window that fits a table exactly when there is no stale data, or the insert fills the
   * buffer.
   */
  predicate Refills(size: nat, w: Window, taken: nat) { w.data == [] || taken == size }

  /**
   * An insert into a store without a range: it shows the records put in front of the table exactly when Refills,
   * and otherwise its window fits no table at all.
   */
  lemma {:induction false} BlankInsertAgreesIff(size: nat, w: Window, table: seq<Row>, k: nat, recs: seq<Record>)
    requires Blank(size, w) && k < size && k <= |w.data| && DistinctIds(w.data + Taken(size, k, recs))
    ensures var w', taken := Inserted(size, w, At(k), recs), |Taken(size, k, recs)|;
            && (Holds(size, w', TableInserted(size, table, 0, k, recs)) <==> Refills(size, w, taken))
            && ((exists t :: Holds(size, w', t)) <==> Refills(size, w, taken))
            && w'.total == w.total + taken
  {
    var w', table' := Inserted(size, w, At(k), recs), TableInserted(size, table, 0, k, recs);
    InsertedData(size, w.data, k, Taken(size, k, recs));
    if Refills(size, w, |Taken(size, k, recs)|) {
      BlankRefilled(size, w, table, k, recs);
      assert Holds(size, w', table');
    }
  }

  lemma {:induction false} RefilledData(size: nat, w: Window, k: nat, recs: seq<Record>)
    requires Blank(size, w) && k < size && k <= |w.data| && DistinctIds(w.data + Taken(size, k, recs))
    requires Refills(size, w, |Taken(size, k, recs)|)
    ensures k == 0 && Inserted(size, w, At(k), recs).data == Reverse(Taken(size, k, recs))
  {
    var ins := Taken(size, k, recs);
    InsertedData(size, w.data, k, ins);
    assert w.data[..0] + Reverse(ins) + w.data[0..] == Reverse(ins) + w.data;
    assert (Reverse(ins) + w.data)[..|ins|] == Reverse(ins);
  }

  lemma {:induction false} RefilledRows(size: nat, table: seq<Row>, recs: seq<Record>)
    requires size > 0
    ensures RowsFit(Reverse(Taken(size, 0, recs)), TableInserted(size, table, 0, 0, recs), 0)
  {
    var ins := Taken(size, 0, recs);
    TableInsertedLength(size, table, 0, 0, recs);
    forall i | 0 <= i < |ins| ensures Reverse(ins)[i].row == TableInserted(size, table, 0, 0, recs)[i] {
      TableInsertedAt(size, table, 0, 0, recs, i);
    }
  }

  lemma {:induction false} BlankRefilled(size: nat, w: Window, table: seq<Row>, k: nat, recs: seq<Record>)
    requires Blank(size, w) && k < size && k <= |w.data| && DistinctIds(w.data + Taken(size, k, recs))
    requires Refills(size, w, |Taken(size, k, recs)|)
    ensures Holds(size, Inserted(size, w, At(k), recs), TableInserted(size, table, 0, k, recs))
  {
    RefilledData(size, w, k, recs);
    RefilledRows(size, table, recs);
    RowsHoldIff(size, Inserted(size, w, At(k), recs), TableInserted(size, table, 0, k, recs));
  }

  /**
   * After a failed load the stale data shows: an insert that does not fill the buffer leaves a window that fits no
   * table.
   */
  lemma InsertAfterFailureDisagrees(size: nat, w: Window, start: int, k: nat, recs: seq<Record>, table: seq<Row>)
    requires k < size && k <= |w.data| && DistinctIds(w.data + Taken(size, k, recs))
    requires w.data != [] && |w.data| <= size && |Taken(size, k, recs)| < size
    ensures !Holds(size, Inserted(size, Loaded(w, None, start, size, false), At(k), recs), table)
  {
    InsertedData(size, w.data, k, Taken(size, k, recs));
  }

  /** Where the window follows, records inserted in table order are held in that order only if at most one was taken. */
  lemma OrderedInsertAgreesIff(size: nat, w: Window, table: seq<Row>, k: nat, recs: seq<Record>)
    requires Agrees(size, w, table)
    requires k < size && k <= |w.data| && DistinctIds(w.data + Taken(size, k, recs))
    requires RangeFollows(size, w, |Taken(size, k, recs)|)
    ensures Holds(size, Inserted(size, w, At(k), recs), table[..w.lo + k] + Rows(recs) + table[w.lo + k..])
        <==> |Taken(size, k, recs)| <= 1
  {
    var ins := Taken(size, k, recs);
    if |ins| <= 1 {
      OneIsInOrder(size, table, w.lo + k, k, recs);
      InsertAgreesIff(size, w, table, k, recs);
    } else {
      OutOfOrder(size, w, table, k, recs);
    }
  }

  lemma OneIsInOrder(size: nat, table: seq<Row>, p: nat, k: nat, recs: seq<Record>)
    requires k < size && p <= |table| && |Taken(size, k, recs)| <= 1
    ensures TableInserted(size, table, p, k, recs) == table[..p] + Rows(recs) + table[p..]
  {
    var ins := Taken(size, k, recs);
    assert Rows(Reverse(ins)) + Rows(recs[|ins|..]) == Rows(recs);
    assert table[..p] + Rows(Reverse(ins)) + Rows(recs[|ins|..]) ==
        table[..p] + (Rows(Reverse(ins)) + Rows(recs[|ins|..]));
  }

  lemma OutOfOrder(size: nat, w: Window, table: seq<Row>, k: nat, recs: seq<Record>)
    requires Agrees(size, w, table) && k < size && k <= |w.data|
    requires DistinctIds(w.data + Taken(size, k, recs)) && |Taken(size, k, recs)| > 1
    ensures !Holds(size, Inserted(size, w, At(k), recs), table[..w.lo + k] + Rows(recs) + table[w.lo + k..])
  {
    var ins, n := Taken(size, k, recs), |w.data|;
    var w', ordered := Inserted(size, w, At(k), recs), table[..w.lo + k] + Rows(recs) + table[w.lo + k..];
    InsertedData(size, w.data, k, ins);
    assert w'.data[k] == Reverse(ins)[0] == ins[|ins| - 1];
    assert ordered[w.lo + k] == Rows(recs)[0] == ins[0].row;
    assert (w.data + ins)[n] == ins[0] && (w.data + ins)[n + |ins| - 1] == ins[|ins| - 1];
    if Holds(size, w', ordered) {
      GetAtIsTableRow(size, w', ordered, w.lo + k);
    }
  }

  /** Announced inserts in front of the window shift it; those behind it leave it alone. */
  lemma OutsideInsertAgrees(size: nat, w: Window, table: seq<Row>, p: nat, recs: seq<Record>)
    requires Holds(size, w, table) && p <= |table|
    ensures var table' := table[..p] + Rows(recs) + table[p..];
            && (p <= w.lo ==> Holds(size, Inserted(size, w, Before, recs), table'))
            && (w.hi < p ==> Holds(size, Inserted(size, w, After, recs), table'))
            && Inserted(size, w, Before, recs).total == Inserted(size, w, After, recs).total == w.total + |recs|
            && |table'| == |table| + |recs|
  {
    var table' := table[..p] + Rows(recs) + table[p..];
    if p <= w.lo {
      assert forall i :: w.lo <= i <= w.hi ==> table'[i + |recs|] == table[i];
    }
    if w.hi < p {
      assert forall i :: w.lo <= i <= w.hi ==> table'[i] == table[i];
    }
  }

  // ---------------------------------------------------------------- removes

  lemma RemoveAgrees(size: nat, w: Window, table: seq<Row>, k: nat)
    requires Holds(size, w, table) && k < |w.data|
    ensures var w', table' := Removed(w, k), table[..w.lo + k] + table[w.lo + k + 1..];
            Holds(size, w', table') && w'.total == w.total - 1 && |table'| == |table| - 1
  {
    var w', table' := Removed(w, k), table[..w.lo + k] + table[w.lo + k + 1..];
    forall i | 0 <= i < |w'.data| ensures w'.data[i].row == table'[w'.lo + i] {
      assert w'.data[i] == w.data[if i < k then i else i + 1];
    }
  }

  // ---------------------------------------------------------------- runs

  datatype Event =
    | Reload(start: nat, res: Response)
    | LoadFailed(asked: int)
    | InsertBefore(p: nat, recs: seq<Record>)
    | InsertAfter(p: nat, recs: seq<Record>)
    | InsertIn(k: nat, recs: seq<Record>)
    | RemoveIn(k: nat, p: nat)

  datatype World = World(table: seq<Row>, w: Window)

  /** Where in the table an insert at index k of the buffer lands. */
  function InsertPlace(w: Window, k: nat): int { if w.lo <= -1 then 0 else w.lo + k }

  /**
   * The events a run may hold: a load fails or is answered and not empty; inserts and removes are of the rows they
   * name; an insert into the buffer is one after which the window fits the table.
   */
  ghost predicate Allowed(size: nat, s: World, e: Event) {
    match e
    case Reload(start, res) => Serves(s.table, start, size, res) && start < |s.table|
    case LoadFailed(asked) => true
    case InsertBefore(p, recs) => p <= s.w.lo && p <= |s.table|
    case InsertAfter(p, recs) => s.w.hi < p <= |s.table|
    case InsertIn(k, recs) =>
      && 0 <= InsertPlace(s.w, k) <= |s.table| && k <= |s.w.data| && k < size
      && DistinctIds(s.w.data + Taken(size, k, recs))
      && (if s.w.lo == -1 then Refills(size, s.w, |Taken(size, k, recs)|)
          else RangeFollows(size, s.w, |Taken(size, k, recs)|))
    case RemoveIn(k, p) =>
      k < |s.w.data| && p < |s.table| && (if s.w.lo == -1 then s.table[p] == s.w.data[k].row else p == s.w.lo + k)
  }

  function Step(size: nat, s: World, e: Event): World
    requires Allowed(size, s, e)
  {
    match e
    case Reload(start, res) => s.(w := Loaded(s.w, Some(res), start, size, true))
    case LoadFailed(asked) => s.(w := Loaded(s.w, None, asked, size, false))
    case InsertBefore(p, recs) =>
      World(s.table[..p] + Rows(recs) + s.table[p..], Inserted(size, s.w, Before, recs))
    case InsertAfter(p, recs) =>
      World(s.table[..p] + Rows(recs) + s.table[p..], Inserted(size, s.w, After, recs))
    case InsertIn(k, recs) =>
      World(TableInserted(size, s.table, InsertPlace(s.w, k), k, recs), Inserted(size, s.w, At(k), recs))
    case RemoveIn(k, p) => World(s.table[..p] + s.table[p + 1..], Removed(s.w, k))
  }

  /** The window holds rows of the table, or there is none. */
  ghost predicate Fits(size: nat, s: World) { Blank(size, s.w) || Holds(size, s.w, s.table) }

  ghost predicate Good(size: nat, s: World) { DistinctRows(s.table) && Fits(size, s) }

  /** Rows of the table that totalLength misses: the records split off inserts since the last load. */
  function Missed(size: nat, missed: int, e: Event): int {
    match e
    case Reload(start, res) => 0
    case InsertIn(k, recs) => if k < size then missed + |recs| - |Taken(size, k, recs)| else missed
    case _ => missed
  }

  function MissedIn(size: nat, missed: int, es: seq<Event>): int
    decreases |es|
  {
    if es == [] then missed else MissedIn(size, Missed(size, missed, es[0]), es[1..])
  }

  /** A run of allowed events between tables with distinct ids. */
  ghost predicate Run(size: nat, s: World, es: seq<Event>)
    decreases |es|
  {
    es == [] || (Allowed(size, s, es[0]) && DistinctRows(Step(size, s, es[0]).table)
        && Run(size, Step(size, s, es[0]), es[1..]))
  }

  function RunTo(size: nat, s: World, es: seq<Event>): World
    requires Run(size, s, es)
    decreases |es|
  {
    if es == [] then s else RunTo(size, Step(size, s, es[0]), es[1..])
  }

  lemma {:induction false} InsertInKeeps(size: nat, w: Window, table: seq<Row>, k: nat, recs: seq<Record>)
    requires Holds(size, w, table) && k < size && k <= |w.data|
    requires DistinctIds(w.data + Taken(size, k, recs)) && RangeFollows(size, w, |Taken(size, k, recs)|)
    ensures var w', table' := Inserted(size, w, At(k), recs), TableInserted(size, table, w.lo + k, k, recs);
            Holds(size, w', table') && |table'| - w'.total == |table| - w.total + |recs| - |Taken(size, k, recs)|
  {
    InsertedHoldsIff(size, w, table, k, recs);
    TableInsertedLength(size, table, w.lo + k, k, recs);
  }

  /** What a step keeps, and what it misses of the table's length. */
  ghost predicate Kept(size: nat, s: World, e: Event)
    requires Allowed(size, s, e)
  {
    var t := Step(size, s, e);
    && Fits(size, t) && |t.table| - t.w.total == Missed(size, |s.table| - s.w.total, e)
    && (e.Reload? ==> Agrees(size, t.w, t.table))
  }

  lemma {:induction false} ReloadKeeps(size: nat, s: World, start: nat, res: Response)
    requires size > 0 && DistinctRows(s.table) && Allowed(size, s, Reload(start, res))
    ensures Kept(size, s, Reload(start, res))
  {
    LoadAgreesIff(size, s.w, s.table, start, res);
  }

  lemma {:induction false} OutsideKeeps(size: nat, s: World, e: Event)
    requires Fits(size, s) && (e.InsertBefore? || e.InsertAfter?) && Allowed(size, s, e)
    ensures Kept(size, s, e)
  {
    if !Blank(size, s.w) {
      OutsideInsertAgrees(size, s.w, s.table, e.p, e.recs);
    }
  }

  lemma {:induction false} InsertKeeps(size: nat, s: World, k: nat, recs: seq<Record>)
    requires Fits(size, s) && Allowed(size, s, InsertIn(k, recs))
    ensures Kept(size, s, InsertIn(k, recs))
  {
    if Blank(size, s.w) {
      BlankInsertAgreesIff(size, s.w, s.table, k, recs);
      TableInsertedLength(size, s.table, 0, k, recs);
    } else {
      InsertInKeeps(size, s.w, s.table, k, recs);
    }
  }

  lemma {:induction false} RemoveKeeps(size: nat, s: World, k: nat, p: nat)
    requires Fits(size, s) && Allowed(size, s, RemoveIn(k, p))
    ensures Kept(size, s, RemoveIn(k, p))
  {
    if !Blank(size, s.w) {
      RemoveAgrees(size, s.w, s.table, k);
    }
  }

  lemma {:induction false} StepKeepsAgreement(size: nat, s: World, e: Event)
    requires size > 0 && Good(size, s) && Allowed(size, s, e)
    ensures Kept(size, s, e)
  {
    match e
    case LoadFailed(asked) =>
    case Reload(start, res) => ReloadKeeps(size, s, start, res);
    case InsertBefore(p, recs) => OutsideKeeps(size, s, e);
    case InsertAfter(p, recs) => OutsideKeeps(size, s, e);
    case InsertIn(k, recs) => InsertKeeps(size, s, k, recs);
    case RemoveIn(k, p) => RemoveKeeps(size, s, k, p);
  }

  lemma {:induction false} StepKeepsGood(size: nat, s: World, e: Event)
    requires size > 0 && Good(size, s) && Allowed(size, s, e) && DistinctRows(Step(size, s, e).table)
    ensures Good(size, Step(size, s, e))
    ensures Short(Step(size, s, e)) == Missed(size, Short(s), e)
  {
    StepKeepsAgreement(size, s, e);
  }

  lemma {:induction false} RunKeepsGood(size: nat, s: World, es: seq<Event>)
    requires size > 0 && Good(size, s) && Run(size, s, es)
    ensures Good(size, RunTo(size, s, es))
    decreases |es|
  {
    if es != [] {
      StepKeepsGood(size, s, es[0]);
      RunKeepsGood(size, Step(size, s, es[0]), es[1..]);
    }
  }

  /** How far totalLength falls short. */
  function Short(s: World): int { |s.table| - s.w.total }

  lemma {:induction false} RunMisses(size: nat, s: World, es: seq<Event>)
    requires size > 0 && Good(size, s) && Run(size, s, es)
    ensures Short(RunTo(size, s, es)) == MissedIn(size, Short(s), es)
    decreases |es|
  {
    if es != [] {
      StepKeepsGood(size, s, es[0]);
      RunMisses(size, Step(size, s, es[0]), es[1..]);
    }
  }

  /**
   * Over any run the window holds the table's rows, or there is none: getAt(i) is row i for every i of
   * [lo, hi] and undefined elsewhere, and never more than bufferSize rows are held.  totalLength falls short of
   * the table by exactly the records split off since the last load.
   */
  lemma {:induction false} RunKeepsAgreement(size: nat, s: World, es: seq<Event>, i: int)
    requires size > 0 && Good(size, s) && Run(size, s, es)
    ensures var t := RunTo(size, s, es);
            && (t.w.lo != -1 ==> t.w.hi - t.w.lo + 1 == |t.w.data| <= size)
            && (GetAt(t.w, i).Some? <==> t.w.lo != -1 && t.w.lo <= i <= t.w.hi)
            && (GetAt(t.w, i).Some? ==> 0 <= i < |t.table| && GetAt(t.w, i).value.row == t.table[i])
            && |t.table| - t.w.total == MissedIn(size, |s.table| - s.w.total, es)
  {
    RunKeepsGood(size, s, es);
    RunMisses(size, s, es);
    var t := RunTo(size, s, es);
    if t.w.lo != -1 {
      GetAtIsTableRow(size, t.w, t.table, i);
    }
  }

  // ---------------------------------------------------------------- inserts that go wrong

  /** The rows from..to of a table of numbered rows, each in a record of its own. */
  function Numbered(from: nat, to: nat): (rs: seq<Record>)
    requires from <= to
    ensures |rs| == to - from && forall i :: 0 <= i < |rs| ==> rs[i] == Record(Row(from + i, ""), from + i)
  {
    seq(to - from, i requires 0 <= i => Record(Row(from + i, ""), from + i))
  }

  /** A new store of size 3 loads the window from start on of four numbered rows. */
  function LoadedFrom(start: nat): Window
    requires start < 4
  {
    Loaded(Window([], -1, -1, 0), Some(Response(Numbered(start, Min(start + 3, 4)), 4)), start, 3, true)
  }

  lemma LoadedFromAgrees(start: nat)
    requires start < 4
    ensures Agrees(3, LoadedFrom(start), Rows(Numbered(0, 4)))
        && LoadedFrom(start).data == Numbered(start, Min(start + 3, 4))
  {
    var table, res := Rows(Numbered(0, 4)), Response(Numbered(start, Min(start + 3, 4)), 4);
    assert Serves(table, start, 3, res);
    LoadAgreesIff(3, Window([], -1, -1, 0), table, start, res);
    LoadedData(Window([], -1, -1, 0), table, start, 3, res);
  }

  /** One record inserted into the last, short window: its range then is not that of its data. */
  lemma ShortWindowInsert()
    ensures var w, recs := LoadedFrom(2), [Record(Row(9, ""), 9)];
            && Agrees(3, w, Rows(Numbered(0, 4)))
            && !Holds(3, Inserted(3, w, At(1), recs), TableInserted(3, Rows(Numbered(0, 4)), 3, 1, recs))
  {
    LoadedFromAgrees(2);
    InsertedHoldsIff(3, LoadedFrom(2), Rows(Numbered(0, 4)), 1, [Record(Row(9, ""), 9)]);
  }

  /** Two records inserted into a full window near its end: one is split off, and not counted. */
  lemma SplitInsert()
    ensures Agrees(3, LoadedFrom(0), Rows(Numbered(0, 4)))
    ensures Inserted(3, LoadedFrom(0), At(2), Numbered(8, 10)).total == 5
    ensures |TableInserted(3, Rows(Numbered(0, 4)), 2, 2, Numbered(8, 10))| == 6
  {
    LoadedFromAgrees(0);
    TableInsertedLength(3, Rows(Numbered(0, 4)), 2, 2, Numbered(8, 10));
    assert |Taken(3, 2, Numbered(8, 10))| == 1;
  }
}
