/**
 * The row selection model of the live grid: a selection split between record objects in hand and
 * pending row indexes, kept whole while the window moves over the table.
 */
module LiveSelection {
  import opened Wrappers
  import opened LiveStore
  import opened LiveWindow

  /** The collection of selected record objects and the keys of pendingSelections. */
  datatype Selection = Selection(records: seq<Record>, pending: set<int>)

  /** MixedCollection.key: the object held under an id. */
  function Find(rs: seq<Record>, id: int): Option<Record> {
    var k := IndexOfId(rs, id);
    if k == -1 then None else Some(rs[k])
  }

  /** The rows of the table that are selected, in hand or pending. */
  ghost function Selected(table: seq<Row>, s: Selection): set<int> {
    set i | 0 <= i < |table| && (Find(s.records, table[i].id).Some? || i in s.pending)
  }

  /** Whatever getAt returns is that row of the table, and the ids of the table are its own. */
  ghost predicate Sees(w: Window, table: seq<Row>) {
    && DistinctRows(table)
    && forall i :: GetAt(w, i).Some? ==> 0 <= i < |table| && GetAt(w, i).value.row == table[i]
  }

  /** No pending index is in the window, and a selected record of the window is the window's own object. */
  ghost predicate Coherent(w: Window, table: seq<Row>, s: Selection) {
    && DistinctIds(s.records)
    && (forall i :: i in s.pending ==> 0 <= i < |table| && GetAt(w, i).None?)
    && (forall i :: 0 <= i < |table| && GetAt(w, i).Some? && Find(s.records, table[i].id).Some?
          ==> Find(s.records, table[i].id) == GetAt(w, i))
  }

  // ---------------------------------------------------------------- operations

  function Remove(rs: seq<Record>, r: Record): seq<Record> {
    var k := IndexOf(rs, r);
    if k == -1 then rs else RemoveAt(rs, k)
  }

  function SelectRow(s: Selection, w: Window, total: int, index: int, keep: bool): Selection {
    if index < 0 || index >= total then s
    else
      var base := if keep then s else Selection([], {});
      match GetAt(w, index)
      case Some(r) => Selection(Add(base.records, r), base.pending - {index})
      case None => base.(pending := base.pending + {index})
  }

  function DeselectRow(s: Selection, w: Window, index: int): Selection {
    var rest := s.pending - {index};
    match GetAt(w, index)
    case Some(r) => Selection(Remove(s.records, r), rest)
    case None => s.(pending := rest)
  }

  /** The first loop of replaceSelections, over the pending indexes. */
  function Claim(s: Selection, w: Window, pending: seq<int>): Selection
    decreases |pending|
  {
    if pending == [] then s
    else
      match GetAt(w, pending[0])
      case Some(r) => Claim(Selection(Add(s.records, r), s.pending - {pending[0]}), w, pending[1..])
      case None => Claim(s, w, pending[1..])
  }

  /** The ids of the records that the first loop taken. */
  function Assigned(w: Window, pending: seq<int>): set<int> {
    set i | i in pending && GetAt(w, i).Some? :: GetAt(w, i).value.row.id
  }

  /** The second loop: loaded records replace the older objects with their ids. */
  function Renew(rs: seq<Record>, loaded: seq<Record>, taken: set<int>): seq<Record>
    decreases |loaded|
  {
    if loaded == [] then rs
    else
      var r := loaded[0];
      Renew(if r.row.id !in taken && Find(rs, r.row.id).Some? then Add(rs, r) else rs, loaded[1..], taken)
  }

  // ---------------------------------------------------------------- the collection

  lemma AddFinds(rs: seq<Record>, r: Record, id: int)
    ensures Find(Add(rs, r), id) == if id == r.row.id then Some(r) else Find(rs, id)
    ensures DistinctIds(rs) ==> DistinctIds(Add(rs, r))
  {
    var added := Add(rs, r);
    if id != r.row.id && Find(rs, id).Some? {
      assert added[IndexOfId(rs, id)] == rs[IndexOfId(rs, id)];
    } else if id == r.row.id {
      assert added[if IndexOfId(rs, id) == -1 then |rs| else IndexOfId(rs, id)] == r;
    }
  }

  lemma RemoveFinds(rs: seq<Record>, r: Record, id: int)
    requires DistinctIds(rs)
    ensures DistinctIds(Remove(rs, r))
    ensures Find(Remove(rs, r), id) == if Find(rs, id) == Some(r) then None else Find(rs, id)
  {
    var k, left := IndexOf(rs, r), Remove(rs, r);
    if k != -1 {
      assert forall i :: 0 <= i < |left| ==> left[i] == rs[if i < k then i else i + 1];
      var j := IndexOfId(rs, id);
      if j != -1 && j != k {
        assert left[if j < k then j else j - 1] == rs[j];
      }
    }
  }

  // ---------------------------------------------------------------- selecting and deselecting

  /** Selecting a row adds it, or makes it the only one, whether its record is buffered or not. */
  lemma SelectAddsRow(w: Window, table: seq<Row>, s: Selection, index: int, keep: bool)
    requires Sees(w, table) && Coherent(w, table, s) && 0 <= index < |table|
    ensures var s' := SelectRow(s, w, |table|, index, keep);
            && Coherent(w, table, s')
            && Selected(table, s') == (if keep then Selected(table, s) else {}) + {index}
  {
    var base := if keep then s else Selection([], {});
    var s' := SelectRow(s, w, |table|, index, keep);
    forall i | 0 <= i < |table|
      ensures Find(s'.records, table[i].id) == if i == index && GetAt(w, i).Some? then GetAt(w, i)
          else Find(base.records, table[i].id) {
      if GetAt(w, index).Some? {
        AddFinds(base.records, GetAt(w, index).value, table[i].id);
      }
    }
    if GetAt(w, index).Some? {
      AddFinds(base.records, GetAt(w, index).value, 0);
    }
  }

  /** Deselecting takes the row out exactly when it is in the window or its record is not among those in hand. */
  lemma DeselectRemovesIff(w: Window, table: seq<Row>, s: Selection, index: int)
    requires Sees(w, table) && Coherent(w, table, s) && 0 <= index < |table|
    ensures var s' := DeselectRow(s, w, index);
            && Coherent(w, table, s')
            && (Selected(table, s') == Selected(table, s) - {index} <==>
                GetAt(w, index).Some? || Find(s.records, table[index].id).None?)
            && Selected(table, s) - {index} <= Selected(table, s') <= Selected(table, s)
  {
    var s' := DeselectRow(s, w, index);
    forall i | 0 <= i < |table|
      ensures Find(s'.records, table[i].id) == if i == index && GetAt(w, i).Some? then None
          else Find(s.records, table[i].id) {
      if GetAt(w, index).Some? {
        RemoveFinds(s.records, GetAt(w, index).value, table[i].id);
      }
    }
    if GetAt(w, index).Some? {
      RemoveFinds(s.records, GetAt(w, index).value, 0);
    }
    if GetAt(w, index).None? && Find(s.records, table[index].id).Some? {
      assert index in Selected(table, s');
    }
  }

  // ---------------------------------------------------------------- re-buffering

  /** What becomes of row i in the first loop. */
  lemma {:induction false} ClaimFinds(w: Window, table: seq<Row>, s: Selection, pending: seq<int>, i: int)
    requires Sees(w, table) && DistinctIds(s.records) && 0 <= i < |table|
    ensures var s' := Claim(s, w, pending);
            var claimed := i in pending && GetAt(w, i).Some?;
            && DistinctIds(s'.records) && s'.pending <= s.pending
            && (i in s'.pending <==> i in s.pending && !claimed)
            && Find(s'.records, table[i].id) == if claimed then GetAt(w, i) else Find(s.records, table[i].id)
    decreases |pending|
  {
    if pending != [] {
      match GetAt(w, pending[0])
      case Some(r) =>
        AddFinds(s.records, r, table[i].id);
        ClaimFinds(w, table, Selection(Add(s.records, r), s.pending - {pending[0]}), pending[1..], i);
      case None =>
        ClaimFinds(w, table, s, pending[1..], i);
    }
  }

  /** What becomes of row i in the second loop, from the n-th buffered record on. */
  lemma {:induction false} RenewFinds(w: Window, table: seq<Row>, rs: seq<Record>, n: nat, taken: set<int>, i: int)
    requires Sees(w, table) && DistinctIds(rs) && 0 <= i < |table| && w.lo >= 0 && n <= |w.data|
    ensures var rs', id := Renew(rs, w.data[n..], taken), table[i].id;
            && DistinctIds(rs')
            && Find(rs', id) == if GetAt(w, i).Some? && n <= i - w.lo && id !in taken && Find(rs, id).Some?
                                then GetAt(w, i) else Find(rs, id)
    decreases |w.data| - n
  {
    if n < |w.data| {
      var r := w.data[n];
      assert GetAt(w, w.lo + n) == Some(r) && w.data[n..][1..] == w.data[n + 1..];
      AddFinds(rs, r, table[i].id);
      RenewFinds(w, table, if r.row.id !in taken && Find(rs, r.row.id).Some? then Add(rs, r) else rs, n + 1, taken, i);
    }
  }

  function Replaced(s: Selection, w: Window, pending: seq<int>): Selection {
    var claimed := Claim(s, w, pending);
    if w.data == [] then s else Selection(Renew(claimed.records, w.data, Assigned(w, pending)), claimed.pending)
  }

  /** What becomes of row i in both loops. */
  lemma ReplacedAt(w: Window, table: seq<Row>, s: Selection, pending: seq<int>, i: int)
    requires Sees(w, table) && w.lo >= 0 && w.data != [] && DistinctIds(s.records) && 0 <= i < |table|
    requires forall k :: k in pending <==> k in s.pending
    ensures var s' := Replaced(s, w, pending);
            && DistinctIds(s'.records) && s'.pending <= s.pending
            && (i in s'.pending <==> i in s.pending && GetAt(w, i).None?)
            && Find(s'.records, table[i].id) ==
                 if GetAt(w, i).Some? && (i in s.pending || Find(s.records, table[i].id).Some?) then GetAt(w, i)
                 else Find(s.records, table[i].id)
  {
    var claimed := Claim(s, w, pending);
    assert w.data == w.data[0..];
    ClaimFinds(w, table, s, pending, i);
    RenewFinds(w, table, claimed.records, 0, Assigned(w, pending), i);
    if table[i].id in Assigned(w, pending) {
      var j :| j in pending && GetAt(w, j).Some? && GetAt(w, j).value.row.id == table[i].id;
      assert table[j].id == table[i].id;
    }
  }

  /**
   * replaceSelections after a successful re-buffer, whatever the window was before: the selected rows are the
   * same, none of the window's is pending, and those in hand are the window's own objects.
   */
  lemma ReplaceKeepsSelection(w: Window, table: seq<Row>, s: Selection, pending: seq<int>)
    requires Sees(w, table) && w.lo >= 0 && DistinctIds(s.records)
    requires forall i :: i in pending <==> i in s.pending
    requires forall i :: i in s.pending ==> 0 <= i < |table|
    ensures var s' := Replaced(s, w, pending);
            Coherent(w, table, s') && Selected(table, s') == Selected(table, s)
  {
    if w.data != [] {
      var s' := Replaced(s, w, pending);
      forall i | 0 <= i < |table|
        ensures DistinctIds(s'.records) && s'.pending <= s.pending
        ensures i in s'.pending <==> i in s.pending && GetAt(w, i).None?
        ensures Find(s'.records, table[i].id) ==
                  if GetAt(w, i).Some? && (i in s.pending || Find(s.records, table[i].id).Some?) then GetAt(w, i)
                  else Find(s.records, table[i].id) {
        ReplacedAt(w, table, s, pending, i);
      }
      assert GetAt(w, w.lo).Some?;
    }
  }

  /** With no range in the store nothing is buffered, so any selection is coherent. */
  lemma BlankIsCoherent(w: Window, table: seq<Row>, s: Selection)
    requires w.lo == -1 && DistinctIds(s.records) && forall i :: i in s.pending ==> 0 <= i < |table|
    ensures Coherent(w, table, s)
  {
  }

  // ---------------------------------------------------------------- painting

  /** The mark that processRows puts on row index. */
  predicate Marked(s: Selection, w: Window, index: int) {
    GetAt(w, index).Some? && Find(s.records, GetAt(w, index).value.row.id).Some?
  }

  /** Of the buffered rows, exactly the selected ones are marked. */
  lemma MarksAreSelected(w: Window, table: seq<Row>, s: Selection, index: int)
    requires Sees(w, table) && Coherent(w, table, s)
    ensures Marked(s, w, index) <==> GetAt(w, index).Some? && index in Selected(table, s)
  {
  }

  /** isSelected of a row index. */
  predicate IsSelected(s: Selection, w: Window, index: int) {
    if GetAt(w, index).None? then index in s.pending else Marked(s, w, index)
  }

  /** isSelected answers for a row index rightly exactly when the row is not one in hand that left the window. */
  lemma IsSelectedIff(w: Window, table: seq<Row>, s: Selection, index: int)
    requires Sees(w, table) && Coherent(w, table, s) && 0 <= index < |table|
    ensures (IsSelected(s, w, index) <==> index in Selected(table, s)) <==>
            GetAt(w, index).Some? || index in s.pending || Find(s.records, table[index].id).None?
  {
  }

  // ---------------------------------------------------------------- runs

  datatype Event =
    | Select(index: int, keep: bool)
    | Deselect(index: int)
    | Rebuffered(w: Window, pending: seq<int>)
    | BufferFailed

  datatype Model = Model(s: Selection, w: Window)

  /** A re-buffer brings a window of the table and looks at the pending indexes in some order. */
  ghost predicate Allowed(table: seq<Row>, m: Model, e: Event) {
    match e
    case Select(index, keep) => true
    case Deselect(index) => GetAt(m.w, index).Some?
    case Rebuffered(w, pending) => Sees(w, table) && w.lo >= 0 && forall i :: i in pending <==> i in m.s.pending
    case BufferFailed => true
  }

  function Step(table: seq<Row>, m: Model, e: Event): Model {
    match e
    case Select(index, keep) => m.(s := SelectRow(m.s, m.w, |table|, index, keep))
    case Deselect(index) => m.(s := DeselectRow(m.s, m.w, index))
    case Rebuffered(w, pending) => Model(Replaced(m.s, w, pending), w)
    case BufferFailed => m.(w := Loaded(m.w, None, 0, 0, false))
  }

  ghost predicate Run(table: seq<Row>, m: Model, es: seq<Event>)
    decreases |es|
  {
    es == [] || (Allowed(table, m, es[0]) && Run(table, Step(table, m, es[0]), es[1..]))
  }

  function RunTo(table: seq<Row>, m: Model, es: seq<Event>): Model
    decreases |es|
  {
    if es == [] then m else RunTo(table, Step(table, m, es[0]), es[1..])
  }

  /** What the user asked for: the plain set of rows the same events select. */
  ghost function Wanted(total: nat, rows: set<int>, es: seq<Event>): set<int>
    decreases |es|
  {
    if es == [] then rows
    else
      match es[0]
      case Select(index, keep) =>
        Wanted(total, if 0 <= index < total then (if keep then rows else {}) + {index} else rows, es[1..])
      case Deselect(index) => Wanted(total, rows - {index}, es[1..])
      case _ => Wanted(total, rows, es[1..])
  }

  lemma StepKeepsCoherence(table: seq<Row>, m: Model, e: Event)
    requires Sees(m.w, table) && Coherent(m.w, table, m.s) && Allowed(table, m, e)
    ensures Sees(Step(table, m, e).w, table) && Coherent(Step(table, m, e).w, table, Step(table, m, e).s)
    ensures Selected(table, Step(table, m, e).s) == Wanted(|table|, Selected(table, m.s), [e])
  {
    assert [e][1..] == [];
    match e
    case Select(index, keep) =>
      if 0 <= index < |table| {
        SelectAddsRow(m.w, table, m.s, index, keep);
      }
    case Deselect(index) => DeselectRemovesIff(m.w, table, m.s, index);
    case Rebuffered(w, pending) => ReplaceKeepsSelection(w, table, m.s, pending);
    case BufferFailed => BlankIsCoherent(Step(table, m, e).w, table, m.s);
  }

  /**
   * Through any run of selecting, deselecting and re-buffering the split selection is the set of rows the user chose.
   */
  lemma {:induction false} RunSelectsWanted(table: seq<Row>, m: Model, es: seq<Event>)
    requires Sees(m.w, table) && Coherent(m.w, table, m.s) && Run(table, m, es)
    ensures var end := RunTo(table, m, es);
            && Coherent(end.w, table, end.s)
            && Selected(table, end.s) == Wanted(|table|, Selected(table, m.s), es)
    decreases |es|
  {
    if es != [] {
      StepKeepsCoherence(table, m, es[0]);
      assert [es[0]][1..] == [];
      RunSelectsWanted(table, Step(table, m, es[0]), es[1..]);
    }
  }

  /**
   * A row is selected, and the window moves away from it: from then on isSelected denies it and deselectRow
   * leaves it selected.
   */
  lemma {:induction false} ScrolledAwayStaysSelected(table: seq<Row>, before: Window, after: Window, index: int)
    requires Sees(before, table) && Sees(after, table) && after.lo >= 0 && 0 <= index < |table|
    requires GetAt(before, index).Some? && GetAt(after, index).None?
    ensures var start, es := Model(Selection([], {}), before), [Select(index, true), Rebuffered(after, [])];
            Run(table, start, es) && var m := RunTo(table, start, es);
            && m.w == after && Selected(table, m.s) == {index}
            && !IsSelected(m.s, m.w, index)
            && Selected(table, DeselectRow(m.s, m.w, index)) == {index}
  {
    var start, es := Model(Selection([], {}), before), [Select(index, true), Rebuffered(after, [])];
    var one := Step(table, start, es[0]);
    assert es[1..] == [es[1]] && es[1..][1..] == [];
    assert start.s.pending == {} && one.s.pending == {};
    SelectAddsRow(before, table, start.s, index, true);
    assert Selected(table, start.s) == {};
    var two := Step(table, one, es[1]);
    assert RunTo(table, start, es) == RunTo(table, one, es[1..]) == RunTo(table, two, []) == two;
    ReplaceKeepsSelection(after, table, one.s, []);
    AwayFromWindow(after, table, one.s, [], index);
    DeselectRemovesIff(after, table, two.s, index);
  }

  /** A row that is selected by its record, out of the window, stays so. */
  lemma {:induction false} AwayFromWindow(w: Window, table: seq<Row>, s: Selection, pending: seq<int>, index: int)
    requires Sees(w, table) && w.lo >= 0 && DistinctIds(s.records) && s.pending == {} && pending == []
    requires 0 <= index < |table| && GetAt(w, index).None? && index in Selected(table, s)
    ensures Replaced(s, w, pending).pending == {} && Find(Replaced(s, w, pending).records, table[index].id).Some?
  {
    if w.data != [] {
      ReplacedAt(w, table, s, pending, index);
    }
  }

  // ---------------------------------------------------------------- any selection, coherent or not

  /** A row selected is held by its record if that is buffered, and by its index if not, and never by both. */
  lemma SelectedOnce(s: Selection, w: Window, total: int, index: int, keep: bool)
    requires 0 <= index < total
    ensures var s', r := SelectRow(s, w, total, index, keep), GetAt(w, index);
            && (r.Some? ==> Find(s'.records, r.value.row.id) == r && index !in s'.pending)
            && (r.None? ==> index in s'.pending && s'.records == if keep then s.records else [])
            && (forall i :: i != index ==> (i in s'.pending <==> keep && i in s.pending))
  {
    if GetAt(w, index).Some? {
      var r := GetAt(w, index).value;
      AddFinds(if keep then s.records else [], r, r.row.id);
    }
  }

  /** A row deselected is no longer pending, and no other row's index changes. */
  lemma DeselectedIndex(s: Selection, w: Window, index: int)
    ensures var s' := DeselectRow(s, w, index);
            && (forall i :: i in s'.pending <==> i in s.pending && i != index)
            && (GetAt(w, index).None? ==> s'.records == s.records)
  {
  }
}
