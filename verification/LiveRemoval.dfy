/**
 * Bulk removal: the window follows the table, and the reader's place is kept exactly when the top row survives
 * unclamped.
 */
module LiveRemoval {
  import opened LiveStore
  import opened LiveWindow

  /** The table once the rows with these ids are gone. */
  function Without(table: seq<Row>, ids: set<int>): seq<Row>
    decreases |table|
  {
    if table == [] then []
    else
      var n := |table| - 1;
      Without(table[..n], ids) + if table[n].id in ids then [] else [table[n]]
  }

  ghost function Ids(records: seq<Record>): set<int> {
    set i | 0 <= i < |records| :: records[i].row.id
  }

  lemma {:induction false} WithoutConcat(a: seq<Row>, b: seq<Row>, ids: set<int>)
    ensures Without(a + b, ids) == Without(a, ids) + Without(b, ids)
    decreases |b|
  {
    if b == [] {
      assert a + b == a;
    } else {
      var n := |b| - 1;
      assert (a + b)[..|a| + n] == a + b[..n];
      WithoutConcat(a, b[..n], ids);
    }
  }

  lemma {:induction false} WithoutNone(table: seq<Row>, ids: set<int>)
    requires forall i :: 0 <= i < |table| ==> table[i].id !in ids
    ensures Without(table, ids) == table
    decreases |table|
  {
    if table != [] {
      WithoutNone(table[..|table| - 1], ids);
    }
  }

  lemma {:induction false} WithoutTwice(table: seq<Row>, a: set<int>, b: set<int>)
    ensures Without(Without(table, a), b) == Without(table, a + b)
    decreases |table|
  {
    if table != [] {
      var n := |table| - 1;
      WithoutTwice(table[..n], a, b);
      WithoutConcat(Without(table[..n], a), if table[n].id in a then [] else [table[n]], b);
    }
  }

  lemma {:induction false} WithoutKeeps(table: seq<Row>, ids: set<int>)
    requires DistinctRows(table)
    ensures DistinctRows(Without(table, ids))
    ensures forall x :: x in Without(table, ids) <==> x in table && x.id !in ids
    decreases |table|
  {
    if table != [] {
      var n := |table| - 1;
      WithoutKeeps(table[..n], ids);
      var left := Without(table[..n], ids);
      assert forall x :: x in table <==> x in table[..n] || x == table[n];
      assert forall i :: 0 <= i < |left| ==> left[i] in left && left[i] in table[..n];
    }
  }

  /** A row that stays comes to stand at the number of rows that stay in front of it. */
  lemma {:induction false} WithoutAt(table: seq<Row>, ids: set<int>, r: nat)
    requires r < |table| && table[r].id !in ids
    ensures var q := |Without(table[..r], ids)|; q < |Without(table, ids)| && Without(table, ids)[q] == table[r]
  {
    assert table == table[..r] + ([table[r]] + table[r + 1..]);
    WithoutConcat(table[..r], [table[r]] + table[r + 1..], ids);
    WithoutConcat([table[r]], table[r + 1..], ids);
    assert Without([table[r]], ids) == [table[r]];
  }

  // ---------------------------------------------------------------- the window

  lemma {:induction false} WithoutMiddle(front: seq<Row>, x: Row, back: seq<Row>)
    requires forall i :: 0 <= i < |front| ==> front[i].id != x.id
    requires forall i :: 0 <= i < |back| ==> back[i].id != x.id
    ensures Without(front + [x] + back, {x.id}) == front + back
  {
    WithoutConcat(front + [x], back, {x.id});
    WithoutConcat(front, [x], {x.id});
    WithoutNone(front, {x.id});
    WithoutNone(back, {x.id});
    assert Without([x], {x.id}) == [] && front + [] == front;
  }

  /** One removal takes exactly one id out of the table. */
  lemma {:induction false} RemoveOne(table: seq<Row>, p: nat)
    requires DistinctRows(table) && p < |table|
    ensures table[..p] + table[p + 1..] == Without(table, {table[p].id})
  {
    var front, back := table[..p], table[p + 1..];
    assert forall i :: 0 <= i < |front| ==> front[i] == table[i];
    assert forall i :: 0 <= i < |back| ==> back[i] == table[p + 1 + i];
    assert table == front + [table[p]] + back;
    WithoutMiddle(front, table[p], back);
  }

  /** bulkRemove keeps the window in agreement with the table without the removed rows. */
  lemma {:induction false} BulkRemoveAgrees(size: nat, w: Window, table: seq<Row>, records: seq<Record>)
    requires Agrees(size, w, table) && DistinctRows(table) && Removable(w.data, records)
    ensures var w', table' := RemovedAll(w, records), Without(table, Ids(records));
            Agrees(size, w', table') && DistinctRows(table') && w'.lo == w.lo && w'.hi == w.hi - |records|
                && |table'| == |table| - |records|
    decreases |records|
  {
    if records == [] {
      WithoutNone(table, {});
      assert Ids(records) == {};
    } else {
      var id, rest := records[0].row.id, records[1..];
      var k := IndexOfId(w.data, id);
      RemoveAgrees(size, w, table, k);
      RemoveOne(table, w.lo + k);
      assert table[w.lo + k].id == id;
      WithoutKeeps(table, {id});
      StillRemovable(w.data, records);
      BulkRemoveAgrees(size, Removed(w, k), Without(table, {id}), rest);
      WithoutTwice(table, {id}, Ids(rest));
      IdsCons(records);
    }
  }

  lemma IdsCons(records: seq<Record>)
    requires records != []
    ensures Ids(records) == {records[0].row.id} + Ids(records[1..])
  {
    var rest := records[1..];
    forall i | 0 <= i < |records| ensures records[i].row.id in {records[0].row.id} + Ids(rest) {
      if i > 0 {
        assert rest[i - 1] == records[i];
      }
    }
    forall i | 0 <= i < |rest| ensures rest[i].row.id in Ids(records) {
      assert rest[i] == records[i + 1];
    }
    assert records[0].row.id in Ids(records);
  }

  // ---------------------------------------------------------------- the reader's place

  /** The loop of onBulkRemove that counts the removals above the view. */
  function CountBelow(idxs: seq<int>, r: int): nat
    decreases |idxs|
  {
    if idxs == [] then 0
    else CountBelow(idxs[..|idxs| - 1], r) + if idxs[|idxs| - 1] < r then 1 else 0
  }

  ghost predicate Distinct(idxs: seq<int>) {
    forall i, j :: 0 <= i < j < |idxs| ==> idxs[i] != idxs[j]
  }

  lemma {:induction false} CountNext(idxs: seq<int>, r: int)
    requires Distinct(idxs)
    ensures CountBelow(idxs, r + 1) == CountBelow(idxs, r) + if r in idxs then 1 else 0
    decreases |idxs|
  {
    if idxs != [] {
      var n := |idxs| - 1;
      CountNext(idxs[..n], r);
      assert idxs == idxs[..n] + [idxs[n]];
    }
  }

  lemma {:induction false} CountNone(idxs: seq<int>, r: int)
    requires forall i :: 0 <= i < |idxs| ==> r <= idxs[i]
    ensures CountBelow(idxs, r) == 0
    decreases |idxs|
  {
    if idxs != [] {
      CountNone(idxs[..|idxs| - 1], r);
    }
  }

  lemma {:induction false} CountAtMost(idxs: seq<int>, r: int)
    ensures CountBelow(idxs, r) <= |idxs|
    decreases |idxs|
  {
    if idxs != [] {
      CountAtMost(idxs[..|idxs| - 1], r);
    }
  }

  /** The removals counted above row r are exactly the rows missing above it. */
  lemma {:induction false} CountIsExact(table: seq<Row>, ids: set<int>, idxs: seq<int>, r: nat)
    requires r <= |table| && Distinct(idxs)
    requires forall i :: 0 <= i < |idxs| ==> 0 <= idxs[i]
    requires forall p :: 0 <= p < |table| ==> (table[p].id in ids <==> p in idxs)
    ensures |Without(table[..r], ids)| == r - CountBelow(idxs, r)
    decreases r
  {
    if r == 0 {
      CountNone(idxs, 0);
    } else {
      CountIsExact(table, ids, idxs, r - 1);
      CountNext(idxs, r - 1);
      assert table[..r][..r - 1] == table[..r - 1];
    }
  }

  /** The new rowIndex of onBulkRemove. */
  function RowAfter(rowIndex: int, removedBefore: int, total: int, visible: nat): int {
    Max(0, Min(rowIndex - removedBefore, total - (visible - 1)))
  }

  /** Row r is not removed, and its new place leaves at most one of the visible rows empty. */
  predicate StaysPut(table: seq<Row>, ids: set<int>, r: nat, visible: nat)
    requires r < |table|
  {
    table[r].id !in ids && |Without(table[..r], ids)| <= Max(0, |Without(table, ids)| - (visible - 1))
  }

  /**
   * The row at the new rowIndex is the row that was at the old one exactly when that row survives and is not clamped.
   */
  lemma KeepsPlaceIff(table: seq<Row>, ids: set<int>, idxs: seq<int>, r: nat, visible: nat)
    requires r < |table| && visible > 0 && DistinctRows(table) && Distinct(idxs)
    requires forall i :: 0 <= i < |idxs| ==> 0 <= idxs[i]
    requires forall p :: 0 <= p < |table| ==> (table[p].id in ids <==> p in idxs)
    ensures var table', before := Without(table, ids), CountBelow(idxs, r);
            var r' := RowAfter(r, before, |table'|, visible);
            r' < |table'| && table'[r'] == table[r] <==> StaysPut(table, ids, r, visible)
  {
    CountIsExact(table, ids, idxs, r);
    PlaceIff(table, ids, r, CountBelow(idxs, r), visible);
  }

  lemma PlaceIff(table: seq<Row>, ids: set<int>, r: nat, before: nat, visible: nat)
    requires r < |table| && DistinctRows(table) && |Without(table[..r], ids)| == r - before
    ensures var table' := Without(table, ids);
            var r' := RowAfter(r, before, |table'|, visible);
            r' < |table'| && table'[r'] == table[r] <==> StaysPut(table, ids, r, visible)
  {
    StandsAtIff(table, ids, r, RowAfter(r, before, |Without(table, ids)|, visible));
  }

  /** Where a row of the table stands once others are gone. */
  lemma StandsAtIff(table: seq<Row>, ids: set<int>, r: nat, at: nat)
    requires r < |table| && DistinctRows(table)
    ensures var table' := Without(table, ids);
            (at < |table'| && table'[at] == table[r]) <==> (table[r].id !in ids && at == |Without(table[..r], ids)|)
  {
    var table' := Without(table, ids);
    WithoutKeeps(table, ids);
    if table[r].id !in ids {
      WithoutAt(table, ids, r);
      if at < |table'| {
        OnlyAt(table', |Without(table[..r], ids)|, at);
      }
    } else if at < |table'| {
      assert table'[at] in table';
    }
  }

  lemma OnlyAt(table: seq<Row>, q: nat, p: nat)
    requires DistinctRows(table) && q < |table| && p < |table|
    ensures table[p] == table[q] <==> p == q
  {
  }

  /**
   * The new rowIndex is a row of the table exactly when some row is left and, with only one row visible, some row is
   * left from the old rowIndex on.
   */
  lemma RowAfterOnTable(table: seq<Row>, ids: set<int>, r: nat, before: nat, visible: nat)
    requires r < |table| && visible > 0 && |Without(table[..r], ids)| == r - before
    ensures var left := |Without(table, ids)|; var r' := RowAfter(r, before, left, visible);
            0 <= r' && (r' < left <==> left > 0 && (visible > 1 || r - before < left))
  {
  }
}
