/** The RowSelectionModel object, and its pending selections as ranges. */
module LiveSelectionModel {
  import opened Wrappers
  import opened LiveStore
  import opened LiveSelection
  import opened Sets

  // ---------------------------------------------------------------- ranges

  predicate InRanges(ranges: seq<(int, int)>, x: int) {
    exists k :: 0 <= k < |ranges| && ranges[k].0 <= x <= ranges[k].1
  }

  /** Non-empty ranges in ascending order with a gap between any two, covering exactly the rows. */
  ghost predicate Canonical(ranges: seq<(int, int)>, rows: set<int>) {
    && (forall k :: 0 <= k < |ranges| ==> ranges[k].0 <= ranges[k].1)
    && (forall j, k :: 0 <= j < k < |ranges| ==> ranges[j].1 + 1 < ranges[k].0)
    && (forall x :: x in rows <==> InRanges(ranges, x))
  }

  lemma RangeStart(ranges: seq<(int, int)>, rows: set<int>)
    requires Canonical(ranges, rows) && ranges != []
    ensures ranges[0].0 in rows && ranges[0].1 + 1 !in rows
    ensures forall x :: ranges[0].0 <= x <= ranges[0].1 ==> x in rows
    ensures forall x :: x in rows ==> ranges[0].0 <= x
  {
    assert forall x :: ranges[0].0 <= x <= ranges[0].1 ==> InRanges(ranges, x);
  }

  lemma NoRangesIff(ranges: seq<(int, int)>, rows: set<int>)
    requires Canonical(ranges, rows)
    ensures ranges == [] <==> rows == {}
  {
    if ranges != [] {
      RangeStart(ranges, rows);
    }
    if rows != {} {
      var x := Pick(rows);
      assert InRanges(ranges, x);
    }
  }

  lemma ExtendLast(ranges: seq<(int, int)>, rows: set<int>, x: int)
    requires Canonical(ranges, rows) && ranges != [] && ranges[|ranges| - 1].1 == x - 1
    ensures Canonical(ranges[|ranges| - 1 := (ranges[|ranges| - 1].0, x)], rows + {x})
  {
    var last := |ranges| - 1;
    var longer := ranges[last := (ranges[last].0, x)];
    forall y ensures y in rows + {x} <==> InRanges(longer, y) {
      if InRanges(ranges, y) {
        var k :| 0 <= k < |ranges| && ranges[k].0 <= y <= ranges[k].1;
        assert longer[k].0 <= y <= longer[k].1;
      }
      if InRanges(longer, y) && y != x {
        var k :| 0 <= k < |longer| && longer[k].0 <= y <= longer[k].1;
        assert ranges[k].0 <= y <= ranges[k].1;
      }
      assert longer[last].0 <= x <= longer[last].1;
    }
  }

  lemma AppendRange(ranges: seq<(int, int)>, rows: set<int>, x: int)
    requires Canonical(ranges, rows) && forall k :: 0 <= k < |ranges| ==> ranges[k].1 + 1 < x
    ensures Canonical(ranges + [(x, x)], rows + {x})
  {
    var more := ranges + [(x, x)];
    forall y ensures y in rows + {x} <==> InRanges(more, y) {
      if InRanges(ranges, y) {
        var k :| 0 <= k < |ranges| && ranges[k].0 <= y <= ranges[k].1;
        assert more[k].0 <= y <= more[k].1;
      }
      if InRanges(more, y) && y != x {
        var k :| 0 <= k < |more| && more[k].0 <= y <= more[k].1;
        assert ranges[k].0 <= y <= ranges[k].1;
      }
      assert more[|ranges|].0 <= x <= more[|ranges|].1;
    }
  }

  lemma RangeTail(ranges: seq<(int, int)>, rows: set<int>)
    requires Canonical(ranges, rows) && ranges != []
    ensures Canonical(ranges[1..], set x | x in rows && x > ranges[0].1)
  {
    var rest := set x | x in rows && x > ranges[0].1;
    var tail := ranges[1..];
    forall x ensures x in rest <==> InRanges(tail, x) {
      if x in rest {
        var k :| 0 <= k < |ranges| && ranges[k].0 <= x <= ranges[k].1;
        assert tail[k - 1] == ranges[k];
      }
      if InRanges(tail, x) {
        var k :| 0 <= k < |tail| && tail[k].0 <= x <= tail[k].1;
        assert ranges[k + 1] == tail[k];
      }
    }
  }

  /** There is only one canonical form: each range is a maximal run. */
  lemma {:induction false} CanonicalIsUnique(a: seq<(int, int)>, b: seq<(int, int)>, rows: set<int>)
    requires Canonical(a, rows) && Canonical(b, rows)
    ensures a == b
    decreases |a|
  {
    NoRangesIff(a, rows);
    NoRangesIff(b, rows);
    if a != [] {
      RangeStart(a, rows);
      RangeStart(b, rows);
      assert a[0] == b[0];
      RangeTail(a, rows);
      RangeTail(b, rows);
      CanonicalIsUnique(a[1..], b[1..], set x | x in rows && x > a[0].1);
      assert a == [a[0]] + a[1..] && b == [b[0]] + b[1..];
    }
  }

  // ---------------------------------------------------------------- the object

  predicate Between(i: int, from: int, to: int) { from <= i <= to || to <= i <= from }

  ghost function Hit(total: nat, from: int, to: int): set<int> {
    set i | 0 <= i < total && Between(i, from, to)
  }

  /** The rows a sweep over from..to leaves selected: all of them, or the last one if only one may be. */
  ghost function Swept(single: bool, rows: set<int>, total: nat, from: int, to: int): set<int> {
    if !single || Hit(total, from, to) == {} then rows + Hit(total, from, to)
    else if from <= to then {Min(to, total - 1)} else {Max(to, 0)}
  }

  /** The same after selecting row i with keepExisting. */
  ghost function OneMore(single: bool, rows: set<int>, total: nat, i: int): set<int> {
    if 0 <= i < total then (if single then {} else rows) + {i} else rows
  }

  lemma HitIff(total: nat, from: int, to: int)
    ensures Hit(total, from, to) == {} <==> total == 0 || Max(from, to) < 0 || total <= Min(from, to)
  {
    if total > 0 && 0 <= Max(from, to) && Min(from, to) < total {
      assert Max(0, Min(from, to)) in Hit(total, from, to);
    } else {
      assert forall i :: i !in Hit(total, from, to);
    }
  }

  lemma HitNext(total: nat, from: int, to: int, next: int)
    requires (from <= to && next == to + 1) || (to <= from && next == to - 1)
    ensures Hit(total, from, next) == Hit(total, from, to) + (if 0 <= next < total then {next} else {})
  {
    forall i ensures i in Hit(total, from, next) <==> i in Hit(total, from, to) || (i == next && 0 <= next < total) {
    }
    SameElements(Hit(total, from, next), Hit(total, from, to) + (if 0 <= next < total then {next} else {}));
  }

  lemma SweptStart(single: bool, rows: set<int>, total: nat, from: int)
    ensures Swept(single, rows, total, from, from) == OneMore(single, rows, total, from)
  {
    forall i ensures i in Hit(total, from, from) <==> i == from && 0 <= from < total {
    }
    SameElements(Hit(total, from, from), if 0 <= from < total then {from} else {});
  }

  lemma SweptStep(single: bool, rows: set<int>, total: nat, from: int, to: int, next: int)
    requires (from <= to && next == to + 1) || (to <= from && next == to - 1)
    ensures Swept(single, rows, total, from, next) == OneMore(single, Swept(single, rows, total, from, to), total, next)
  {
    HitNext(total, from, to, next);
    HitIff(total, from, to);
    HitIff(total, from, next);
  }

  /** What a sweep has selected before it comes to row i, and what it has then. */
  lemma SweptUpTo(single: bool, rows: set<int>, total: nat, from: int, i: int)
    requires from <= i
    ensures OneMore(single, if i == from then rows else Swept(single, rows, total, from, i - 1), total, i) ==
        Swept(single, rows, total, from, i)
  {
    if i == from { SweptStart(single, rows, total, from); } else { SweptStep(single, rows, total, from, i - 1, i); }
  }

  lemma SweptDownTo(single: bool, rows: set<int>, total: nat, from: int, i: int)
    requires i <= from
    ensures OneMore(single, if i == from then rows else Swept(single, rows, total, from, i + 1), total, i) ==
        Swept(single, rows, total, from, i)
  {
    if i == from { SweptStart(single, rows, total, from); } else { SweptStep(single, rows, total, from, i + 1, i); }
  }

  class RowSelectionModel {
    const store: Store
    const singleSelect: bool
    var selections: seq<Record>
    var pendingSelections: set<int>
    var locked: bool

    constructor (store: Store, singleSelect: bool)
      ensures this.store == store && this.singleSelect == singleSelect && Sel() == Selection([], {}) && !locked
    {
      this.store, this.singleSelect := store, singleSelect;
      selections, pendingSelections, locked := [], {}, false;
    }

    function Sel(): Selection
      reads this
    {
      Selection(selections, pendingSelections)
    }

    /** The store shows rows of the table, and the selection is coherent with its window. */
    ghost predicate Valid(table: seq<Row>)
      reads this, store
    {
      && Sees(store.Snapshot(), table) && store.totalLength == |table|
      && Coherent(store.Snapshot(), table, Sel())
    }

    method DeselectRow(index: int)
      modifies this`selections, this`pendingSelections
      ensures Sel() == if locked then old(Sel()) else LiveSelection.DeselectRow(old(Sel()), store.Snapshot(), index)
    {
      if locked {
        return;
      }
      var r := GetAt(store.Snapshot(), index);
      pendingSelections := pendingSelections - {index};
      if r.Some? {
        selections := Remove(selections, r.value);
      }
    }

    method ClearSelections()
      modifies this`selections, this`pendingSelections
      ensures Sel() == if locked then old(Sel()) else Selection([], {})
    {
      if locked {
        return;
      }
      var s := selections;
      for i := 0 to |s| {
        var ind := IndexOfId(store.data, s[i].row.id);
        if ind != -1 {
          DeselectRow(ind + store.lo);
        }
      }
      selections, pendingSelections := [], {};
    }

    method SelectRow(index: int, keepExisting: bool)
      modifies this`selections, this`pendingSelections
      ensures Sel() == if locked then old(Sel())
                       else LiveSelection.SelectRow(old(Sel()), store.Snapshot(), store.totalLength, index,
                           keepExisting && !singleSelect)
    {
      if locked || index < 0 || index >= store.totalLength {
        return;
      }
      var r := GetAt(store.Snapshot(), index);
      if !keepExisting || singleSelect {
        ClearSelections();
      }
      if r.Some? {
        selections := Add(selections, r.value);
        pendingSelections := pendingSelections - {index};
      } else {
        pendingSelections := pendingSelections + {index};
      }
    }

    method SelectRange(startRow: int, endRow: int, keepExisting: bool, ghost table: seq<Row>)
      requires Valid(table)
      modifies this`selections, this`pendingSelections
      ensures Valid(table)
      ensures locked ==> Sel() == old(Sel())
      ensures !locked ==> (Selected(table, Sel())
                           == Swept(singleSelect, if keepExisting then old(Selected(table, Sel())) else {},
                                    |table|, startRow, endRow))
    {
      if locked {
        return;
      }
      if !keepExisting {
        ClearSelections();
      }
      if startRow <= endRow {
        SelectUp(startRow, endRow, table);
      } else {
        SelectDown(startRow, endRow, table);
      }
    }

    /** The ascending loop of selectRange. */
    method SelectUp(startRow: int, endRow: int, ghost table: seq<Row>)
      requires Valid(table) && !locked && startRow <= endRow
      modifies this`selections, this`pendingSelections
      ensures Valid(table)
      ensures Selected(table, Sel()) == Swept(singleSelect, old(Selected(table, Sel())), |table|, startRow, endRow)
    {
      ghost var rows := Selected(table, Sel());
      var i := startRow;
      while i <= endRow
        invariant startRow <= i <= endRow + 1 && Valid(table)
        invariant Selected(table, Sel()) == if i == startRow then rows
            else Swept(singleSelect, rows, |table|, startRow, i - 1)
      {
        SweptUpTo(singleSelect, rows, |table|, startRow, i);
        SelectOne(i, table);
        i := i + 1;
      }
    }

    /** The descending loop of selectRange. */
    method SelectDown(startRow: int, endRow: int, ghost table: seq<Row>)
      requires Valid(table) && !locked && endRow < startRow
      modifies this`selections, this`pendingSelections
      ensures Valid(table)
      ensures Selected(table, Sel()) == Swept(singleSelect, old(Selected(table, Sel())), |table|, startRow, endRow)
    {
      ghost var rows := Selected(table, Sel());
      var i := startRow;
      while i >= endRow
        invariant endRow - 1 <= i <= startRow && Valid(table)
        invariant Selected(table, Sel()) == if i == startRow then rows
            else Swept(singleSelect, rows, |table|, startRow, i + 1)
      {
        SweptDownTo(singleSelect, rows, |table|, startRow, i);
        SelectOne(i, table);
        i := i - 1;
      }
    }

    /** selectRow with keepExisting, in terms of the selected rows. */
    method SelectOne(index: int, ghost table: seq<Row>)
      requires Valid(table) && !locked
      modifies this`selections, this`pendingSelections
      ensures Valid(table)
      ensures Selected(table, Sel()) == OneMore(singleSelect, old(Selected(table, Sel())), |table|, index)
    {
      if 0 <= index < |table| {
        SelectAddsRow(store.Snapshot(), table, Sel(), index, !singleSelect);
      }
      SelectRow(index, true);
    }

    method GetPendingSelections() returns (t: seq<int>)
      ensures Ascending(t)
      ensures forall x :: x in t <==> x in pendingSelections
    {
      t := Sorted(pendingSelections);
    }

    /** getPendingSelections(true): the canonical ranges of the pending rows. */
    method GetPendingRanges() returns (ranges: seq<(int, int)>)
      ensures Canonical(ranges, pendingSelections)
    {
      var t := GetPendingSelections();
      if |t| == 0 {
        return [];
      }
      ranges := [(t[0], t[0])];
      AppendRange([], {}, t[0]);
      for i := 0 to |t| - 1
        invariant |ranges| > 0 && ranges[|ranges| - 1].1 == t[i]
        invariant Canonical(ranges, Elements(t[..i + 1]))
      {
        var last := |ranges| - 1;
        assert t[..i + 2] == t[..i + 1] + [t[i + 1]];
        assert Elements(t[..i + 2]) == Elements(t[..i + 1]) + {t[i + 1]};
        if t[i + 1] - t[i] == 1 {
          ExtendLast(ranges, Elements(t[..i + 1]), t[i + 1]);
          ranges := ranges[last := (ranges[last].0, t[i + 1])];
        } else {
          AppendRange(ranges, Elements(t[..i + 1]), t[i + 1]);
          ranges := ranges + [(t[i + 1], t[i + 1])];
        }
      }
      assert t[..|t|] == t;
      SameElements(Elements(t), pendingSelections);
    }

    /** replaceSelections with the records just loaded into the store's window. */
    method ReplaceSelections(records: seq<Record>, ghost table: seq<Row>)
      requires records == store.data && store.lo >= 0 && Sees(store.Snapshot(), table) && store.totalLength == |table|
      requires DistinctIds(selections) && forall i :: i in pendingSelections ==> 0 <= i < |table|
      modifies this`selections, this`pendingSelections
      ensures Valid(table)
      ensures Selected(table, Sel()) == old(Selected(table, Sel()))
    {
      var ranges := GetPendingSelections();
      ReplaceKeepsSelection(store.Snapshot(), table, Sel(), ranges);
      if records == [] {
        return;
      }
      var taken := ClaimPending(ranges);
      RenewSelections(records, taken);
    }

    /** The first loop of replaceSelections. */
    method ClaimPending(ranges: seq<int>) returns (taken: set<int>)
      modifies this`selections, this`pendingSelections
      ensures Sel() == Claim(old(Sel()), store.Snapshot(), ranges)
      ensures taken == Assigned(store.Snapshot(), ranges)
    {
      taken := {};
      ghost var w := store.Snapshot();
      for i := 0 to |ranges|
        invariant Claim(Sel(), w, ranges[i..]) == Claim(old(Sel()), w, ranges)
        invariant taken == Assigned(w, ranges[..i])
      {
        var rec := GetAt(store.Snapshot(), ranges[i]);
        assert ranges[i..][0] == ranges[i] && ranges[i..][1..] == ranges[i + 1..];
        if rec.Some? {
          selections := Add(selections, rec.value);
          pendingSelections := pendingSelections - {ranges[i]};
          taken := taken + {rec.value.row.id};
        }
        AssignedNext(w, ranges, i);
      }
      assert ranges[..|ranges|] == ranges;
    }

    /** The second loop of replaceSelections. */
    method RenewSelections(records: seq<Record>, taken: set<int>)
      modifies this`selections
      ensures selections == Renew(old(selections), records, taken)
    {
      for i := 0 to |records|
        invariant Renew(selections, records[i..], taken) == Renew(old(selections), records, taken)
      {
        var rec := records[i];
        assert records[i..][1..] == records[i + 1..];
        if rec.row.id !in taken && Find(selections, rec.row.id).Some? {
          selections := Add(selections, rec);
        }
      }
    }
  }

  lemma AssignedNext(w: Window, ranges: seq<int>, i: nat)
    requires i < |ranges|
    ensures Assigned(w, ranges[..i + 1]) == Assigned(w, ranges[..i]) +
              (if GetAt(w, ranges[i]).Some? then {GetAt(w, ranges[i]).value.row.id} else {})
  {
    var r := GetAt(w, ranges[i]);
    assert ranges[..i + 1] == ranges[..i] + [ranges[i]];
    forall id ensures id in Assigned(w, ranges[..i + 1]) <==>
                      id in Assigned(w, ranges[..i]) || (r.Some? && id == r.value.row.id) {
      if id in Assigned(w, ranges[..i]) {
        var j :| j in ranges[..i] && GetAt(w, j).Some? && GetAt(w, j).value.row.id == id;
        assert j in ranges[..i + 1];
      }
      if r.Some? && id == r.value.row.id {
        assert ranges[i] in ranges[..i + 1];
      }
    }
  }
}
