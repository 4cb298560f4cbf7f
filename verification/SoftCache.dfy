/**
 * com.solers.util.SoftCache: a bounded heap of hard references over a backing map of soft ones, with
 * garbage collection as a step that may clear any soft reference.
 */
module SoftCache {
  import opened Wrappers

  /** A soft reference holds its value until the collector clears it. */
  datatype Cache<K, V> = Cache(heap: map<K, V>, backing: map<K, Option<V>>)

  /** The reconstructor: what a key's value is rebuilt as. */
  type Rebuild<-K, +V> = K -> V

  // ---------------------------------------------------------------- the code

  /** What get returns. */
  function Lookup<K, V>(rebuild: Rebuild<K, V>, c: Cache<K, V>, k: K): Option<V> {
    if k in c.heap then Some(c.heap[k])
    else if k in c.backing then (if c.backing[k].Some? then c.backing[k] else Some(rebuild(k)))
    else None
  }

  /** What get leaves: a cleared reference is rebuilt and buried again. */
  function Gotten<K, V>(rebuild: Rebuild<K, V>, c: Cache<K, V>, k: K): Cache<K, V> {
    if k !in c.heap && k in c.backing && c.backing[k].None? then c.(backing := c.backing[k := Some(rebuild(k))]) else c
  }

  function Removed<K, V>(c: Cache<K, V>, k: K): Cache<K, V> {
    if k in c.heap then c.(heap := c.heap - {k}) else c.(backing := c.backing - {k})
  }

  function Put<K, V>(heapSize: int, c: Cache<K, V>, k: K, v: V): Cache<K, V> {
    if |c.heap| >= heapSize then
      var gone := Removed(c, k);
      gone.(backing := gone.backing[k := Some(v)])
    else c.(heap := c.heap[k := v])
  }

  /** What put returns. */
  function Previous<K, V>(rebuild: Rebuild<K, V>, heapSize: int, c: Cache<K, V>, k: K): Option<V> {
    if |c.heap| >= heapSize then Lookup(rebuild, c, k)
    else if k in c.heap then Some(c.heap[k]) else None
  }

  /** The collector clears the references of these keys. */
  function Collected<K, V>(c: Cache<K, V>, ks: set<K>): Cache<K, V> {
    c.(backing := map k | k in c.backing :: if k in ks then None else c.backing[k])
  }

  class SoftMap<K(==), V> {
    const heapSize: int
    const rebuild: Rebuild<K, V>
    var heap: map<K, V>
    var backing: map<K, Option<V>>

    function View(): Cache<K, V>
      reads this
    {
      Cache(heap, backing)
    }

    constructor (heapSize: int, rebuild: Rebuild<K, V>)
      ensures this.heapSize == heapSize && this.rebuild == rebuild && View() == Cache(map[], map[])
    {
      this.heapSize, this.rebuild := heapSize, rebuild;
      heap, backing := map[], map[];
    }

    method Bury(k: K, v: V)
      modifies this`backing
      ensures View() == old(View()).(backing := old(backing)[k := Some(v)])
    {
      backing := backing[k := Some(v)];
    }

    method Disinter(k: K, r: Option<Option<V>>) returns (value: Option<V>)
      requires r == if k in backing then Some(backing[k]) else None
      modifies this`backing
      ensures heap == old(heap)
      ensures value == if k in old(backing)
          then (if old(backing)[k].Some? then old(backing)[k] else Some(rebuild(k))) else None
      ensures backing == if k in old(backing) && old(backing)[k].None? then old(backing)[k := Some(rebuild(k))]
          else old(backing)
    {
      if r.None? {
        return None;
      }
      value := r.value;
      if value.None? {
        value := Some(rebuild(k));
        Bury(k, value.value);
      }
    }

    method Get(k: K) returns (value: Option<V>)
      modifies this`backing
      ensures value == Lookup(rebuild, old(View()), k)
      ensures View() == Gotten(rebuild, old(View()), k)
    {
      if k in heap {
        return Some(heap[k]);
      }
      value := Disinter(k, if k in backing then Some(backing[k]) else None);
    }

    method Remove(k: K) returns (value: Option<V>)
      modifies this
      ensures value == Lookup(rebuild, old(View()), k)
      ensures View() == Removed(old(View()), k)
    {
      if k in heap {
        value := Some(heap[k]);
        heap := heap - {k};
        return;
      }
      value := Get(k);
      backing := backing - {k};
    }

    /** A null value makes put throw. */
    method PutValue(k: K, v: Option<V>) returns (threw: bool, previous: Option<V>)
      modifies this
      ensures threw == v.None?
      ensures threw ==> View() == old(View())
      ensures !threw ==> View() == Put(heapSize, old(View()), k, v.value)
      ensures !threw ==> previous == Previous(rebuild, heapSize, old(View()), k)
    {
      if v.None? {
        return true, None;
      }
      threw := false;
      if |heap| >= heapSize {
        previous := Remove(k);
        Bury(k, v.value);
        return;
      }
      previous := if k in heap then Some(heap[k]) else None;
      heap := heap[k := v.value];
    }
  }

  // ---------------------------------------------------------------- one call

  /** The key is in both regions; the heap hides the backing entry. */
  predicate Shadowed<K, V>(c: Cache<K, V>, k: K) { k in c.heap && k in c.backing }

  /** After remove the key is absent exactly when it was not in both regions; otherwise the hidden entry comes back. */
  lemma RemoveForgetsIff<K, V>(rebuild: Rebuild<K, V>, c: Cache<K, V>, k: K)
    ensures Lookup(rebuild, Removed(c, k), k).None? <==> !Shadowed(c, k)
    ensures Shadowed(c, k) ==>
        Lookup(rebuild, Removed(c, k), k) == Some(if c.backing[k].Some? then c.backing[k].value else rebuild(k))
    ensures forall other :: other != k ==> Lookup(rebuild, Removed(c, k), other) == Lookup(rebuild, c, other)
  {
  }

  /**
   * put makes the key look up as the new value, and returns what it looked up as before unless that was only in the
   * backing map below a heap with room.
   */
  lemma PutReturnsOriginalIff<K, V>(rebuild: Rebuild<K, V>, heapSize: int, c: Cache<K, V>, k: K, v: V)
    ensures Lookup(rebuild, Put(heapSize, c, k, v), k) == Some(v)
    ensures forall other :: other != k ==> Lookup(rebuild, Put(heapSize, c, k, v), other) == Lookup(rebuild, c, other)
    ensures Previous(rebuild, heapSize, c, k) == Lookup(rebuild, c, k) <==>
            |c.heap| >= heapSize || k in c.heap || k !in c.backing
  {
  }

  // ---------------------------------------------------------------- runs

  datatype Op<K, V> = OpPut(k: K, v: V) | OpGet(k: K) | OpRemove(k: K) | OpClear | OpCollect(ks: set<K>)

  function Apply<K, V>(rebuild: Rebuild<K, V>, heapSize: int, c: Cache<K, V>, op: Op<K, V>): Cache<K, V> {
    match op
    case OpPut(k, v) => Put(heapSize, c, k, v)
    case OpGet(k) => Gotten(rebuild, c, k)
    case OpRemove(k) => Removed(c, k)
    case OpClear => Cache(map[], map[])
    case OpCollect(ks) => Collected(c, ks)
  }

  function RunTo<K, V>(rebuild: Rebuild<K, V>, heapSize: int, c: Cache<K, V>, ops: seq<Op<K, V>>): Cache<K, V>
    decreases |ops|
  {
    if ops == [] then c else RunTo(rebuild, heapSize, Apply(rebuild, heapSize, c, ops[0]), ops[1..])
  }

  ghost predicate HeapFits<K, V>(heapSize: int, c: Cache<K, V>) {
    |c.heap| <= if heapSize < 0 then 0 else heapSize
  }

  lemma ApplyKeepsHeap<K, V>(rebuild: Rebuild<K, V>, heapSize: int, c: Cache<K, V>, op: Op<K, V>)
    requires HeapFits(heapSize, c)
    ensures HeapFits(heapSize, Apply(rebuild, heapSize, c, op))
  {
    var next := Apply(rebuild, heapSize, c, op);
    match op
    case OpPut(k, v) =>
      if |c.heap| >= heapSize {
        KeysShrink(c.heap, next.heap);
      } else {
        assert next.heap.Keys == c.heap.Keys + {k};
      }
    case OpRemove(k) => KeysShrink(c.heap, next.heap);
    case OpGet(k) =>
    case OpClear =>
    case OpCollect(ks) =>
  }

  lemma KeysShrink<K, V>(a: map<K, V>, b: map<K, V>)
    requires b.Keys <= a.Keys
    ensures |b| <= |a|
  {
    var rest := a.Keys - b.Keys;
    assert a.Keys == b.Keys + rest && |a.Keys| == |b.Keys| + |rest|;
  }

  /** The heap never outgrows its bound. */
  lemma {:induction false} HeapStaysBounded<K, V>(
      rebuild: Rebuild<K, V>, heapSize: int, c: Cache<K, V>, ops: seq<Op<K, V>>)
    requires HeapFits(heapSize, c)
    ensures HeapFits(heapSize, RunTo(rebuild, heapSize, c, ops))
    decreases |ops|
  {
    if ops != [] {
      ApplyKeepsHeap(rebuild, heapSize, c, ops[0]);
      HeapStaysBounded(rebuild, heapSize, Apply(rebuild, heapSize, c, ops[0]), ops[1..]);
    }
  }

  /** No put, remove or clear concerns the key. */
  ghost predicate Quiet<K, V>(k: K, ops: seq<Op<K, V>>) {
    forall i :: 0 <= i < |ops| ==>
      match ops[i]
      case OpPut(other, v) => other != k
      case OpRemove(other) => other != k
      case OpClear => false
      case _ => true
  }

  /** The key's entry is v: in the heap, or in the backing map as v, as cleared, or as rebuilt. */
  ghost predicate Keeps<K, V>(rebuild: Rebuild<K, V>, c: Cache<K, V>, k: K, v: V) {
    if k in c.heap then c.heap[k] == v
    else k in c.backing && (c.backing[k] == Some(v) || c.backing[k] == None || c.backing[k] == Some(rebuild(k)))
  }

  /** Through any quiet run the entry is kept, in the region where it was. */
  lemma {:induction false} QuietKeeps<K, V>(
      rebuild: Rebuild<K, V>, heapSize: int, c: Cache<K, V>, k: K, v: V, ops: seq<Op<K, V>>)
    requires Keeps(rebuild, c, k, v) && Quiet(k, ops)
    ensures var end := RunTo(rebuild, heapSize, c, ops); Keeps(rebuild, end, k, v) && (k in end.heap <==> k in c.heap)
    decreases |ops|
  {
    if ops != [] {
      var next := Apply(rebuild, heapSize, c, ops[0]);
      assert forall i :: 0 <= i < |ops[1..]| ==> ops[1..][i] == ops[i + 1];
      assert Keeps(rebuild, next, k, v) && (k in next.heap <==> k in c.heap);
      QuietKeeps(rebuild, heapSize, next, k, v, ops[1..]);
    }
  }

  /**
   * After a put every interleaving of other puts, gets, removes and collections finds the key, as the value put
   * or as the rebuilt one; it is the value put in all of them exactly when it went to the heap or is what the
   * reconstructor rebuilds.
   */
  lemma PutIsDurableIff<K(!new), V(!new)>(rebuild: Rebuild<K, V>, heapSize: int, c: Cache<K, V>, k: K, v: V)
    ensures var put := Put(heapSize, c, k, v);
            && (forall ops :: Quiet(k, ops) ==>
                  var found := Lookup(rebuild, RunTo(rebuild, heapSize, put, ops), k);
                  found == Some(v) || found == Some(rebuild(k)))
            && ((forall ops :: Quiet(k, ops) ==> Lookup(rebuild, RunTo(rebuild, heapSize, put, ops), k) == Some(v)) <==>
                  k in put.heap || rebuild(k) == v)
  {
    var put := Put(heapSize, c, k, v);
    forall ops | Quiet(k, ops)
      ensures var found := Lookup(rebuild, RunTo(rebuild, heapSize, put, ops), k);
              found == Some(v) || found == Some(rebuild(k))
      ensures k in put.heap || rebuild(k) == v ==> Lookup(rebuild, RunTo(rebuild, heapSize, put, ops), k) == Some(v) {
      QuietKeeps(rebuild, heapSize, put, k, v, ops);
    }
    if k !in put.heap && rebuild(k) != v {
      var ops: seq<Op<K, V>> := [OpCollect({k})];
      assert Quiet(k, ops);
      assert ops[1..] == [];
      assert RunTo(rebuild, heapSize, put, ops) == Collected(put, {k});
      assert Lookup(rebuild, RunTo(rebuild, heapSize, put, ops), k) == Some(rebuild(k));
    }
  }

  /** A run from the empty cache that shadows a key: put does not return its value, and remove brings it back. */
  lemma ShadowedKey(rebuild: Rebuild<int, int>)
    ensures var c := RunTo(rebuild, 1, Cache(map[], map[]), [OpPut(1, 10), OpPut(2, 20), OpRemove(1)]);
            var put := Put(1, c, 2, 21);
            && Lookup(rebuild, c, 2) == Some(20) && Previous(rebuild, 1, c, 2) == None
            && Shadowed(put, 2) && Lookup(rebuild, Removed(put, 2), 2) == Some(20)
  {
    var ops: seq<Op<int, int>> := [OpPut(1, 10), OpPut(2, 20), OpRemove(1)];
    assert ops[1..] == [OpPut(2, 20), OpRemove(1)] && ops[1..][1..] == [OpRemove(1)] && ops[1..][1..][1..] == [];
    var c0: Cache<int, int> := Cache(map[], map[]);
    var c1 := Apply(rebuild, 1, c0, ops[0]);
    assert c1.heap.Keys == {1};
    var c2 := Apply(rebuild, 1, c1, ops[1]);
    assert c2 == Cache(map[1 := 10], map[2 := Some(20)]);
    var c3 := Apply(rebuild, 1, c2, ops[2]);
    assert c3 == Cache(map[], map[2 := Some(20)]);
    assert RunTo(rebuild, 1, c0, ops) == RunTo(rebuild, 1, c1, ops[1..])
        == RunTo(rebuild, 1, c2, ops[1..][1..]) == RunTo(rebuild, 1, c3, []);
  }

  /**
   * A put goes to the heap exactly while the heap has room, for a new key as for a known one, and to one region only.
   */
  lemma PutRegionIff<K, V>(heapSize: int, c: Cache<K, V>, k: K, v: V)
    ensures var put := Put(heapSize, c, k, v);
            if |c.heap| < heapSize then k in put.heap && put.heap[k] == v && put.backing == c.backing
            else k !in put.heap && k in put.backing && put.backing[k] == Some(v)
  {
  }

  /** What put returns for a key that only the backing map has, with room in the heap, is null. */
  lemma PutOverlooks<K, V>(rebuild: Rebuild<K, V>, heapSize: int, c: Cache<K, V>, k: K)
    requires |c.heap| < heapSize && k !in c.heap
    ensures Previous(rebuild, heapSize, c, k) == None
  {
  }

  /** A get of a cleared reference rebuilds the value and holds it again; any other get changes nothing. */
  lemma GetRebuilds<K, V>(rebuild: Rebuild<K, V>, c: Cache<K, V>, k: K)
    ensures var got := Gotten(rebuild, c, k);
            && Lookup(rebuild, got, k) == Lookup(rebuild, c, k)
            && (if k !in c.heap && k in c.backing && c.backing[k] == None
                then Lookup(rebuild, c, k) == Some(rebuild(k)) && got.backing == c.backing[k := Some(rebuild(k))]
                     && got.heap == c.heap
                else got == c)
  {
  }
}
