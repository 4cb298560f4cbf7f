/**
 * PaginatedHitsList and the iterator of PaginatedList: hits are collected ascending and read in reverse, page by
 * page.
 */
module Pagination {
  import opened Wrappers
  import opened Sequences

  function Clamp(i: int, n: nat): nat { if i < 0 then 0 else if i > n then n else i }

  /** s[from..to] with both ends clamped, and nothing when they cross. */
  function Slice<T>(s: seq<T>, from: int, to: int): seq<T> {
    var a, b := Clamp(from, |s|), Clamp(to, |s|);
    if a <= b then s[a..b] else []
  }

  lemma {:induction false} ReverseOfSlice<T>(s: seq<T>, a: nat, b: nat)
    requires a <= b <= |s|
    ensures Reverse(s[a..b]) == Reverse(s)[|s| - b..|s| - a]
  {
    var part, whole := Reverse(s[a..b]), Reverse(s);
    assert forall i :: 0 <= i < b - a ==> part[i] == whole[|s| - b + i];
  }

  class PaginatedHitsList<T> {
    const pageSize: int
    var size: nat
    var initialized: bool
    const hits: seq<T>   // what a search collects, in collection order

    constructor (pageSize: int, hits: seq<T>)
      ensures this.pageSize == pageSize && this.hits == hits && !initialized
    {
      this.pageSize, this.hits := pageSize, hits;
      initialized, size := false, 0;
    }

    /** The size is counted once. */
    method Initialize()
      modifies this
      ensures initialized && size == |hits|
    {
      initialized, size := true, |hits|;
    }

    /** subList before initialize throws, which is None here. */
    method SubList(fromIndex: int, toIndex: int) returns (r: Option<seq<T>>)
      requires initialized ==> size == |hits|
      ensures r == if initialized then Some(Slice(Reverse(hits), fromIndex, toIndex)) else None
    {
      if !initialized {
        return None;
      }
      var page := GetSubList(fromIndex, toIndex);
      r := Some(page);
    }

    /** ResultGatherer.collect for every hit. */
    method Gather(start: nat, end: nat) returns (result: seq<T>)
      ensures result == Slice(hits, end, start)
    {
      result := [];
      var count := 0;
      for i := 0 to |hits|
        invariant count == i
        invariant result == Slice(hits[..i], end, start)
      {
        if count < start && count >= end {
          result := result + [hits[i]];
        }
        count := count + 1;
        SliceGrows(hits, i, end, start);
      }
      assert hits[..|hits|] == hits;
    }

    method GetSubList(fromIndex: int, toIndex: int) returns (result: seq<T>)
      requires initialized && size == |hits|
      ensures result == Slice(Reverse(hits), fromIndex, toIndex)
    {
      var end := if toIndex > size then size else toIndex;
      var descendingStart := size - fromIndex;
      var descendingEnd := size - end;
      if descendingStart < 0 {
        descendingStart := 0;
      }
      result := Gather(descendingStart, descendingEnd);
      SliceReverses(hits, fromIndex, toIndex);
      result := Reverse(result);
    }
  }

  lemma {:induction false} SliceGrows<T>(s: seq<T>, i: nat, a: int, b: int)
    requires i < |s| && 0 <= a && 0 <= b
    ensures Slice(s[..i + 1], a, b) == Slice(s[..i], a, b) + if i < b && i >= a then [s[i]] else []
  {
  }

  /** The descending window of getSubList, reversed, is the ascending slice of the reversed hits. */
  lemma {:induction false} SliceReverses<T>(s: seq<T>, from: int, to: int)
    ensures var end := if to > |s| then |s| else to;
            var start := if |s| - from < 0 then 0 else |s| - from;
            Reverse(Slice(s, |s| - end, start)) == Slice(Reverse(s), from, to)
  {
    var a, b := Clamp(from, |s|), Clamp(to, |s|);
    if a <= b {
      ReverseOfSlice(s, |s| - b, |s| - a);
    }
  }

  /** A page is empty exactly when it starts at or past the end, or is not a page at all. */
  lemma {:induction false} PageEmptyIff<T>(s: seq<T>, from: nat, to: int)
    ensures Slice(s, from, to) == [] <==> from >= |s| || to <= from
  {
  }

  lemma {:induction false} PageIsPrefix<T>(s: seq<T>, from: nat, to: int)
    ensures Slice(s, from, to) <= Slice(s, from, |s|)
  {
  }

  /** The first element of what is left of a page, and the rest. */
  lemma {:induction false} PrefixStep<T>(s: seq<T>, from: nat, page: seq<T>)
    requires page != [] && page <= Slice(s, from, |s|)
    ensures from < |s| && page[0] == s[from] && page[1..] <= Slice(s, from + 1, |s|)
  {
    assert page == Slice(s, from, |s|)[..|page|];
    assert page[1..] == Slice(s, from + 1, |s|)[..|page| - 1];
  }

  /** PaginatedListIterator: the current page is what is left of it, or nothing yet. */
  class PaginatedListIterator<T> {
    const list: PaginatedHitsList<T>
    var count: nat
    var current: Option<seq<T>>

    ghost predicate Valid()
      reads this, list
    {
      && list.initialized && list.size == |list.hits|
      && (current.Some? && current.value != [] ==> current.value <= Slice(Reverse(list.hits), count, |list.hits|))
    }

    constructor (list: PaginatedHitsList<T>)
      requires list.initialized && list.size == |list.hits|
      ensures this.list == list && Valid() && count == 0 && current == None
    {
      this.list := list;
      count, current := 0, None;
    }

    method HasNext() returns (b: bool)
      requires Valid()
      ensures b <==> count < |list.hits|
    {
      b := count < list.size;
    }

    /** None is a NoSuchElementException, thrown after count was advanced. */
    method Next() returns (r: Option<T>)
      requires Valid()
      modifies this
      ensures Valid() && count == old(count) + 1
      ensures old(current.Some? && current.value != []) || list.pageSize >= 1 ==>
                r == if old(count) < |list.hits| then Some(Reverse(list.hits)[old(count)]) else None
      ensures old(current == None || current.value == []) && list.pageSize < 1 ==> r == None && current == Some([])
    {
      if current.None? || current.value == [] {
        var page := list.GetSubList(count, list.pageSize + count);
        current := Some(page);
      }
      ghost var all := Reverse(list.hits);
      PageIsPrefix(all, count, list.pageSize + count);
      PageEmptyIff(all, count, list.pageSize + count);
      if current.value != [] {
        PrefixStep(all, count, current.value);
      }
      count := count + 1;
      if current.value == [] {
        return None;
      }
      r := Some(current.value[0]);
      current := Some(current.value[1..]);
    }
  }

  /**
   * Reading to the end yields every hit once, newest first, exactly when a page holds at least one element or there
   * is nothing.
   */
  method Drain<T>(list: PaginatedHitsList<T>) returns (out: seq<T>, failed: bool)
    requires list.initialized && list.size == |list.hits|
    ensures failed <==> list.pageSize < 1 && list.hits != []
    ensures !failed ==> out == Reverse(list.hits)
    ensures failed ==> out == []
  {
    var it := new PaginatedListIterator(list);
    out, failed := [], false;
    var more := it.HasNext();
    while more
      invariant it.Valid() && it.list == list && fresh(it)
      invariant it.count == |out| <= |list.hits| && out == Reverse(list.hits)[..|out|]
      invariant more <==> it.count < |list.hits|
      invariant list.pageSize < 1 ==> out == [] && it.current == None
      decreases |list.hits| - it.count
    {
      var x := it.Next();
      if x.None? {
        failed := true;
        return;
      }
      out := out + [x.value];
      more := it.HasNext();
    }
  }

  /** A search, counted and read to the end. */
  method ReadAll<T>(pageSize: int, hits: seq<T>) returns (out: seq<T>, failed: bool)
    ensures failed <==> pageSize < 1 && hits != []
    ensures out == if failed then [] else Reverse(hits)
  {
    var list := new PaginatedHitsList(pageSize, hits);
    list.Initialize();
    out, failed := Drain(list);
  }

  /** A page holds the elements from its start on, up to its end or the list's. */
  lemma {:induction false} PageAt<T>(s: seq<T>, from: nat, to: int, i: nat)
    ensures |Slice(s, from, to)| == if from <= to <= |s| then to - from else if from <= |s| < to then |s| - from else 0
    ensures i < |Slice(s, from, to)| ==> from + i < |s| && Slice(s, from, to)[i] == s[from + i]
  {
  }
}
