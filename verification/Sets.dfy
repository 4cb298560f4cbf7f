/** Small facts on finite sets. */
module Sets {
  lemma Pick<T>(s: set<T>) returns (x: T)
    requires s != {}
    ensures x in s
  {
    x :| x in s;
  }

  lemma SameElements(s: set<int>, t: set<int>)
    requires forall x :: x in s <==> x in t
    ensures s == t
  {
    if s - t != {} {
      var x := Pick(s - t);
    } else if t - s != {} {
      var x := Pick(t - s);
    }
  }

  lemma SameMaps<V>(a: map<int, V>, b: map<int, V>)
    requires forall x :: x in a <==> x in b
    requires forall x :: x in a && x in b ==> a[x] == b[x]
    ensures a == b
  {
    SameElements(a.Keys, b.Keys);
    assert forall x :: x in a.Keys ==> a[x] == b[x];
  }

  lemma HasLeast(s: set<int>)
    requires s != {}
    ensures exists m :: m in s && forall x :: x in s ==> m <= x
  {
    var a := Pick(s);
    if s - {a} == {} {
      assert s == {a};
      assert forall x :: x in s ==> a <= x;
    } else {
      HasLeast(s - {a});
      var m :| m in s - {a} && forall x :: x in s - {a} ==> m <= x;
      var least := if a < m then a else m;
      forall x | x in s ensures least <= x {
        if x != a {
          assert x in s - {a};
        }
      }
    }
  }

  ghost predicate Ascending(t: seq<int>) {
    forall j, k :: 0 <= j < k < |t| ==> t[j] < t[k]
  }

  ghost function Elements(t: seq<int>): set<int> {
    set x | x in t
  }

  /** The elements in ascending order. */
  method Sorted(rows: set<int>) returns (t: seq<int>)
    ensures Ascending(t)
    ensures forall x :: x in t <==> x in rows
  {
    t := [];
    var left := rows;
    while left != {}
      invariant left <= rows && Ascending(t)
      invariant forall x :: x in rows <==> x in t || x in left
      invariant forall k, y :: 0 <= k < |t| && y in left ==> t[k] < y
    {
      HasLeast(left);
      var least :| least in left && forall x :: x in left ==> least <= x;
      t := t + [least];
      left := left - {least};
    }
  }
}
