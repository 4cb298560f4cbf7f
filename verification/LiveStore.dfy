/**
 * The live grid's Store: a bounded window [lo, hi] over an unbounded remote table.
 *
 * Class Store has the fields the source updates in place.  The value type Window is a snapshot
 * of these fields; the functions on it specify the methods, and the lemmas say when the window
 * agrees with the remote table.
 */
module LiveStore {
  import opened Wrappers

  /** A row of the remote table. */
  datatype Row = Row(id: int, cells: string)

  /** A record object holding a row; two record objects are the same one iff they are equal. */
  datatype Record = Record(row: Row, handle: nat)

  /** What the server's reader hands to loadRecords. */
  datatype Response = Response(records: seq<Record>, totalRecords: nat)

  /** The index argument of insert: Number.MIN_VALUE, an index of the buffer, Number.MAX_VALUE. */
  datatype Position = Before | At(k: nat) | After

  datatype Window = Window(data: seq<Record>, lo: int, hi: int, total: int)

  function Min(a: int, b: int): int { if a <= b then a else b }

  function Max(a: int, b: int): int { if a >= b then a else b }

  function Rows(rs: seq<Record>): (rows: seq<Row>)
    ensures |rows| == |rs|
    ensures forall i :: 0 <= i < |rs| ==> rows[i] == rs[i].row
  {
    seq(|rs|, i requires 0 <= i < |rs| => rs[i].row)
  }

  ghost predicate DistinctRows(rows: seq<Row>) {
    forall i, j :: 0 <= i < j < |rows| ==> rows[i].id != rows[j].id
  }

  ghost predicate DistinctIds(rs: seq<Record>) {
    forall i, j :: 0 <= i < j < |rs| ==> rs[i].row.id != rs[j].row.id
  }

  // ---------------------------------------------------------------- MixedCollection

  /** The first index holding the key, or -1. */
  function IndexOfId(rs: seq<Record>, id: int): (k: int)
    ensures k == -1 <==> forall i :: 0 <= i < |rs| ==> rs[i].row.id != id
    ensures k != -1 ==> 0 <= k < |rs| && rs[k].row.id == id && forall i :: 0 <= i < k ==> rs[i].row.id != id
  {
    if rs == [] then -1
    else if rs[0].row.id == id then 0
    else var k := IndexOfId(rs[1..], id); if k == -1 then -1 else k + 1
  }

  /** The first index holding the object, or -1. */
  function IndexOf(rs: seq<Record>, r: Record): (k: int)
    ensures k == -1 <==> r !in rs
    ensures k != -1 ==> 0 <= k < |rs| && rs[k] == r && r !in rs[..k]
  {
    if rs == [] then -1
    else if rs[0] == r then 0
    else var k := IndexOf(rs[1..], r); if k == -1 then -1 else k + 1
  }

  /** MixedCollection.add: a known key is replaced in its place, a new one goes to the end. */
  function Add(rs: seq<Record>, r: Record): seq<Record> {
    var k := IndexOfId(rs, r.row.id);
    if k == -1 then rs + [r] else rs[k := r]
  }

  function AddAll(rs: seq<Record>, more: seq<Record>): seq<Record>
    decreases |more|
  {
    if more == [] then rs else AddAll(Add(rs, more[0]), more[1..])
  }

  /** MixedCollection.insert: past the end it adds, elsewhere it splices without looking at keys. */
  function InsertOne(rs: seq<Record>, k: nat, r: Record): seq<Record> {
    if k >= |rs| then Add(rs, r) else rs[..k] + [r] + rs[k..]
  }

  /** The for loop of Store.insert, which uses the same index for every record. */
  function InsertAll(rs: seq<Record>, k: nat, ins: seq<Record>): seq<Record>
    decreases |ins|
  {
    if ins == [] then rs else InsertAll(InsertOne(rs, k, ins[0]), k, ins[1..])
  }

  function RemoveAt(rs: seq<Record>, k: nat): seq<Record>
    requires k < |rs|
  {
    rs[..k] + rs[k + 1..]
  }

  /** The while loop of Store.insert. */
  function Trim(rs: seq<Record>, size: nat): seq<Record>
    decreases |rs|
  {
    if |rs| <= size then rs else Trim(RemoveAt(rs, IndexOf(rs, rs[|rs| - 1])), size)
  }

  // ---------------------------------------------------------------- the window's operations

  /** loadRecords: no response blanks the range but leaves the old data in place. */
  function Loaded(w: Window, o: Option<Response>, start: int, limit: nat, success: bool): Window {
    match o
    case None => w.(lo := -1, hi := -1)
    case Some(res) =>
      var hi := Max(0, Min(start + limit - 1, res.totalRecords - 1));
      if success then
        Window(AddAll([], res.records), start, hi, if res.totalRecords == 0 then |res.records| else res.totalRecords)
      else w.(lo := start, hi := hi)
  }

  /** The records of an insert that go into the buffer; the rest is only announced. */
  function Taken(size: nat, k: nat, recs: seq<Record>): seq<Record>
    requires k < size
  {
    if |recs| + k >= size then recs[..Min(|recs|, size - k)] else recs
  }

  function Inserted(size: nat, w: Window, pos: Position, recs: seq<Record>): Window {
    if pos.Before? then w.(lo := w.lo + |recs|, hi := w.hi + |recs|, total := w.total + |recs|)
    else if pos.After? || pos.k >= size then w.(total := w.total + |recs|)
    else
      var ins := Taken(size, pos.k, recs);
      Window(Trim(InsertAll(w.data, pos.k, ins), size),
             if w.lo <= -1 then 0 else w.lo,
             if w.hi < size - 1 then Min(w.hi + |ins|, size - 1) else w.hi,
             w.total + |ins|)
  }

  function Removed(w: Window, k: nat): Window
    requires k < |w.data|
  {
    w.(data := RemoveAt(w.data, k), hi := Max(-1, w.hi - 1), total := w.total - 1)
  }

  /** Records of the buffer, each once. */
  ghost predicate Removable(data: seq<Record>, records: seq<Record>) {
    && DistinctIds(records)
    && forall i :: 0 <= i < |records| ==> IndexOfId(data, records[i].row.id) != -1
  }

  /** The second loop of bulkRemove. */
  function RemovedAll(w: Window, records: seq<Record>): Window
    decreases |records|
  {
    if records == [] then w
    else
      var k := IndexOfId(w.data, records[0].row.id);
      if k == -1 then w else RemovedAll(Removed(w, k), records[1..])
  }

  /** Removing one record leaves the others removable. */
  lemma StillRemovable(data: seq<Record>, records: seq<Record>)
    requires Removable(data, records) && records != []
    ensures Removable(RemoveAt(data, IndexOfId(data, records[0].row.id)), records[1..])
  {
    var k := IndexOfId(data, records[0].row.id);
    var left := RemoveAt(data, k);
    forall i | 0 <= i < |records[1..]| ensures IndexOfId(left, records[1..][i].row.id) != -1 {
      var r := records[i + 1];
      var j := IndexOfId(data, r.row.id);
      assert left[if j < k then j else j - 1] == data[j];
    }
  }

  /** Every record is found when its turn comes. */
  ghost predicate RemovableInTurn(w: Window, records: seq<Record>)
    decreases |records|
  {
    records == [] ||
    var k := IndexOfId(w.data, records[0].row.id);
    k != -1 && RemovableInTurn(Removed(w, k), records[1..])
  }

  lemma {:induction false} RemovableTurns(w: Window, records: seq<Record>)
    requires Removable(w.data, records)
    ensures RemovableInTurn(w, records)
    decreases |records|
  {
    if records != [] {
      StillRemovable(w.data, records);
      RemovableTurns(Removed(w, IndexOfId(w.data, records[0].row.id)), records[1..]);
    }
  }

  function GetAt(w: Window, i: int): Option<Record> {
    if w.lo == -1 then None
    else if 0 <= i - w.lo < |w.data| then Some(w.data[i - w.lo]) else None
  }

  // ---------------------------------------------------------------- the object

  class Store {
    const bufferSize: nat
    var data: seq<Record>
    var lo: int
    var hi: int
    var totalLength: int

    constructor (bufferSize: nat)
      ensures this.bufferSize == bufferSize && Snapshot() == Window([], -1, -1, 0)
    {
      this.bufferSize := bufferSize;
      data, lo, hi, totalLength := [], -1, -1, 0;
    }

    function Snapshot(): Window
      reads this
    {
      Window(data, lo, hi, totalLength)
    }

    method LoadRecords(o: Option<Response>, start: int, limit: nat, success: bool)
      modifies this
      ensures Snapshot() == Loaded(old(Snapshot()), o, start, limit, success)
    {
      if o.None? {
        lo, hi := -1, -1;
      } else {
        lo, hi := start, Max(0, Min(start + limit - 1, o.value.totalRecords - 1));
      }
      if o.None? || !success {
        return;
      }
      var r := o.value.records;
      data := [];
      for i := 0 to |r|
        invariant lo == start && hi == Max(0, Min(start + limit - 1, o.value.totalRecords - 1))
        invariant AddAll(data, r[i..]) == AddAll([], r)
      {
        data := Add(data, r[i]);
        assert r[i..][1..] == r[i + 1..];
      }
      totalLength := if o.value.totalRecords == 0 then |r| else o.value.totalRecords;
    }

    method Insert(pos: Position, records: seq<Record>)
      modifies this
      ensures Snapshot() == Inserted(bufferSize, old(Snapshot()), pos, records)
    {
      var index := if pos.At? && pos.k >= bufferSize then After else pos;
      if !index.At? {
        if index.Before? {
          lo, hi := lo + |records|, hi + |records|;
        }
        totalLength := totalLength + |records|;
        return;
      }
      InsertAt(index.k, records);
    }

    /** insert at an index that the buffer may have. */
    method InsertAt(k: nat, records: seq<Record>)
      requires k < bufferSize
      modifies this
      ensures Snapshot() == Inserted(bufferSize, old(Snapshot()), At(k), records)
    {
      var ins := records;
      if |records| + k >= bufferSize {
        ins := records[..Min(|records|, bufferSize - k)];
      }
      totalLength := totalLength + |ins|;
      if lo <= -1 {
        lo := 0;
      }
      if hi < bufferSize - 1 {
        hi := Min(hi + |ins|, bufferSize - 1);
      }
      FillBuffer(k, ins);
    }

    /** The two loops of insert. */
    method FillBuffer(k: nat, ins: seq<Record>)
      modifies this`data
      ensures data == Trim(InsertAll(old(data), k, ins), bufferSize)
    {
      PutAll(k, ins);
      TrimBuffer();
    }

    /** The for loop of insert. */
    method PutAll(k: nat, ins: seq<Record>)
      modifies this`data
      ensures data == InsertAll(old(data), k, ins)
    {
      for i := 0 to |ins|
        invariant InsertAll(data, k, ins[i..]) == InsertAll(old(data), k, ins)
      {
        data := InsertOne(data, k, ins[i]);
        assert ins[i..][1..] == ins[i + 1..];
      }
    }

    /** The while loop of insert. */
    method TrimBuffer()
      modifies this`data
      ensures data == Trim(old(data), bufferSize)
    {
      while |data| > bufferSize
        invariant Trim(data, bufferSize) == Trim(old(data), bufferSize)
        decreases |data|
      {
        data := RemoveAt(data, IndexOf(data, data[|data| - 1]));
      }
    }

    /** Store.remove for a record whose id is buffered. */
    method Remove(record: Record) returns (index: nat)
      requires IndexOfId(data, record.row.id) >= 0
      modifies this
      ensures index == IndexOfId(old(data), record.row.id)
      ensures Snapshot() == Removed(old(Snapshot()), index)
    {
      index := IndexOfId(data, record.row.id);
      hi := Max(-1, hi - 1);
      data := RemoveAt(data, index);
      totalLength := totalLength - 1;
    }

    /** The first loop of bulkRemove. */
    method OrgIndexes(records: seq<Record>) returns (orgIndexes: map<int, int>)
      ensures forall j :: 0 <= j < |records| ==>
          records[j].row.id in orgIndexes && orgIndexes[records[j].row.id] == IndexOfId(data, records[j].row.id)
    {
      orgIndexes := map[];
      for i := 0 to |records|
        invariant forall j :: 0 <= j < i ==>
            records[j].row.id in orgIndexes && orgIndexes[records[j].row.id] == IndexOfId(data, records[j].row.id)
      {
        orgIndexes := orgIndexes[records[i].row.id := IndexOfId(data, records[i].row.id)];
      }
    }

    /** bulkRemove: what it hands to the listeners are the records with their indexes before any removal. */
    method BulkRemove(records: seq<Record>) returns (recs: seq<(Record, int)>)
      requires Removable(data, records)
      modifies this
      ensures Snapshot() == RemovedAll(old(Snapshot()), records)
      ensures |recs| == |records|
      ensures forall i :: 0 <= i < |recs| ==> recs[i] == (records[i], IndexOfId(old(data), records[i].row.id))
    {
      var orgIndexes := OrgIndexes(records);
      RemovableTurns(Snapshot(), records);
      recs := RemoveEach(records, orgIndexes);
    }

    /** The second loop of bulkRemove. */
    method RemoveEach(records: seq<Record>, orgIndexes: map<int, int>) returns (recs: seq<(Record, int)>)
      requires RemovableInTurn(Snapshot(), records) && forall r :: r in records ==> r.row.id in orgIndexes
      modifies this
      ensures Snapshot() == RemovedAll(old(Snapshot()), records)
      ensures recs == Indexed(records, orgIndexes)
    {
      recs := [];
      assert records[0..] == records;
      for i := 0 to |records|
        invariant RemovableInTurn(Snapshot(), records[i..])
        invariant RemovedAll(Snapshot(), records[i..]) == RemovedAll(old(Snapshot()), records)
        invariant recs == Indexed(records, orgIndexes)[..i]
      {
        assert records[i..][0] == records[i] && records[i..][1..] == records[i + 1..];
        var index := Remove(records[i]);
        recs := recs + [(records[i], orgIndexes[records[i].row.id])];
      }
    }
  }

  /** The records with the indexes noted for them. */
  function Indexed(records: seq<Record>, orgIndexes: map<int, int>): (recs: seq<(Record, int)>)
    requires forall r :: r in records ==> r.row.id in orgIndexes
    ensures |recs| == |records| && forall i :: 0 <= i < |recs| ==>
        recs[i] == (records[i], orgIndexes[records[i].row.id])
  {
    seq(|records|, i requires 0 <= i < |records| => (records[i], orgIndexes[records[i].row.id]))
  }

  /** An insert takes the records that fit behind its index into the buffer, from the first on. */
  lemma TakenIs(size: nat, k: nat, recs: seq<Record>)
    requires k < size
    ensures var n := if |recs| <= size - k then |recs| else size - k; Taken(size, k, recs) == recs[..n]
  {
  }

  /** An answer that could not be read moves the range all the same, and leaves data and total. */
  lemma UnreadAnswerMovesRange(w: Window, res: Response, start: nat, limit: nat)
    ensures var after := Loaded(w, Some(res), start, limit, false);
            && after.data == w.data && after.total == w.total && after.lo == start
            && (start + limit <= res.totalRecords && 0 < start + limit ==> after.hi == start + limit - 1)
            && (0 < res.totalRecords < start + limit ==> after.hi == res.totalRecords - 1)
  {
  }

  /** A read answer that gives no total counts its records instead. */
  lemma LoadedTotal(w: Window, res: Response, start: int, limit: nat)
    ensures Loaded(w, Some(res), start, limit, true).total ==
            if 0 < res.totalRecords then res.totalRecords else |res.records|
  {
  }

  /** A record added takes the place of the first one with its id, or comes last. */
  lemma AddPlaces(rs: seq<Record>, r: Record)
    ensures var k := IndexOfId(rs, r.row.id);
            if k == -1 then Add(rs, r) == rs + [r]
            else |Add(rs, r)| == |rs| && forall i :: 0 <= i < |rs| ==> Add(rs, r)[i] == if i == k then r else rs[i]
  {
  }
}
