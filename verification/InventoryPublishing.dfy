/**
 * What one call of bundleInventory does to the packaged directory, said of the names and contents of its files, and
 * that nothing about it is left open.
 */
module InventoryPublishing {
  import opened Sets
  import opened InventoryBundler

  /** The directory is behind: its newest bundle is not the index's. */
  ghost predicate Behind(bundles: map<Stamp, Content>, idx: Stamp) {
    idx !in bundles || exists s :: s in bundles && idx < s
  }

  /** Every archive is made: an error, if any, would come after the last one. */
  predicate Spared(f: Fault, diffs: seq<Stamp>) { f.packaging == NoError || |diffs| + 1 <= f.goodArchives }

  /** Without an index, or with the index's bundle the newest one, nothing at all is changed. */
  lemma IdleCall(before: Directory, after: Directory, num: nat, indices: seq<Stamp>, diffs: seq<Stamp>, now: Stamp,
      f: Fault)
    requires Bundled(before, after, num, indices, diffs, now, f)
    requires indices == [] || !Behind(before.bundles, indices[|indices| - 1])
    ensures after == before
  {
  }

  /**
   * A call on a directory that is behind, whatever bundles it has, publishes if every archive is made: afterwards
   * there are a bundle for the index and one for each difference with it and the later ones, and no other file but
   * the backups.
   */
  lemma CallPublishes(before: Directory, after: Directory, num: nat, indices: seq<Stamp>, diffs: seq<Stamp>,
      now: Stamp, f: Fault)
    requires Bundled(before, after, num, indices, diffs, now, f) && Ascending(diffs) && before.temps == map[]
    requires indices != [] && Behind(before.bundles, indices[|indices| - 1]) && Spared(f, diffs)
    ensures after.temps == map[]
    ensures forall s :: s in after.bundles <==> s == indices[|indices| - 1] || s in diffs
    ensures forall i :: 0 <= i < |diffs| ==>
              diffs[i] in after.bundles && after.bundles[diffs[i]].Archive?
              && |after.bundles[diffs[i]].entries| == |diffs| - i
              && forall k :: i <= k < |diffs| ==> after.bundles[diffs[i]].entries[k - i] == DiffEntry(diffs[k])
    ensures indices[|indices| - 1] !in diffs ==>
              after.bundles[indices[|indices| - 1]] == Archive([IndexEntry(indices[|indices| - 1])])
  {
    PackedHolds(indices[|indices| - 1], diffs);
  }

  /** If an archive fails the bundles are those of before, and no temporary file is left. */
  lemma CallGivesUp(before: Directory, after: Directory, num: nat, indices: seq<Stamp>, diffs: seq<Stamp>,
      now: Stamp, f: Fault)
    requires Bundled(before, after, num, indices, diffs, now, f)
    requires indices != [] && Behind(before.bundles, indices[|indices| - 1]) && !Spared(f, diffs)
    ensures after.bundles == before.bundles && after.temps == map[]
  {
  }

  /** The backups once the attempt at a new one has been made. */
  function Attempt(before: Directory, now: Stamp, f: Failure): map<Stamp, Backup> {
    if f == NoError then before.backups[now := Backup(before.bundles)]
    else if f == ErrorLeavesFile then before.backups[now := BrokenBackup]
    else before.backups
  }

  /**
   * A call on a directory that is behind first saves the bundles, if there are any, beside the backups there were;
   * of all of them as many as allowed are kept as they are, and each one dropped is older than each one kept.
   */
  lemma CallBacksUp(before: Directory, after: Directory, num: nat, indices: seq<Stamp>, diffs: seq<Stamp>,
      now: Stamp, f: Fault)
    requires Bundled(before, after, num, indices, diffs, now, f)
    requires indices != [] && Behind(before.bundles, indices[|indices| - 1])
    ensures before.bundles == map[] ==> after.backups == before.backups
    ensures before.bundles != map[] ==>
              var all := Attempt(before, now, f.backup);
              && (forall s :: s in after.backups ==> s in all && after.backups[s] == all[s])
              && |after.backups| == (if |all| <= num then |all| else num)
              && (forall s, t :: s in after.backups && t in all && t !in after.backups ==> t < s)
  {
  }

  // ---------------------------------------------------------------- nothing is left open

  lemma {:induction false} SmallerSubset(a: set<int>, b: set<int>)
    requires a <= b && |a| == |b|
    ensures a == b
  {
    forall x | x in b ensures x in a {
      if x !in a {
        Fewer(a, b - {x});
      }
    }
    SameElements(a, b);
  }

  lemma {:induction false} Fewer(a: set<int>, b: set<int>)
    requires a <= b
    ensures |a| <= |b|
  {
    assert b == a + (b - a);
    assert |b| == |a| + |b - a|;
  }

  lemma {:induction false} OneHoldsOther(a: map<Stamp, Backup>, b: map<Stamp, Backup>, all: map<Stamp, Backup>,
      num: nat)
    requires Newest(a, all, num) && Newest(b, all, num)
    ensures a.Keys <= b.Keys || b.Keys <= a.Keys
  {
    if s :| s in a && s !in b {
      forall t | t in b ensures t in a {
        assert s in all && t in all;
      }
    } else {
      assert forall s :: s in a ==> s in b;
    }
  }

  /** There is only one way to keep the newest backups. */
  lemma {:induction false} NewestIsUnique(a: map<Stamp, Backup>, b: map<Stamp, Backup>, all: map<Stamp, Backup>,
      num: nat)
    requires Newest(a, all, num) && Newest(b, all, num)
    ensures a == b
  {
    OneHoldsOther(a, b, all, num);
    if a.Keys <= b.Keys {
      SmallerSubset(a.Keys, b.Keys);
    } else {
      SmallerSubset(b.Keys, a.Keys);
    }
    SameMaps(a, b);
  }

  /** The call's fault, its time and the files there are determine what it leaves. */
  lemma CallIsDetermined(before: Directory, a: Directory, b: Directory, num: nat, indices: seq<Stamp>,
      diffs: seq<Stamp>,
      now: Stamp, f: Fault)
    requires Bundled(before, a, num, indices, diffs, now, f) && Bundled(before, b, num, indices, diffs, now, f)
    ensures a == b
  {
    if indices != [] && Behind(before.bundles, indices[|indices| - 1]) && before.bundles != map[] {
      NewestIsUnique(a.backups, b.backups, Saved(before, now, f.backup), num);
    }
  }

  // ---------------------------------------------------------------- runs

  /** The bundles of one publish, by names and contents. */
  ghost predicate Published(bundles: map<Stamp, Content>, idx: Stamp, diffs: seq<Stamp>) {
    && Ascending(diffs)
    && (forall s :: s in bundles <==> s == idx || s in diffs)
    && (forall i :: 0 <= i < |diffs| ==> diffs[i] in bundles && bundles[diffs[i]] == Archive(DiffEntries(diffs[i..])))
    && (idx !in diffs ==> bundles[idx] == Archive([IndexEntry(idx)]))
  }

  lemma WholeIsPublished(bundles: map<Stamp, Content>)
    requires Whole(bundles)
    ensures bundles == map[] || exists idx, diffs :: Published(bundles, idx, diffs)
  {
    if bundles != map[] {
      var idx, diffs :| Ascending(diffs) && bundles == Packed(map[], idx, diffs, |diffs|);
      PackedHolds(idx, diffs);
      assert Published(bundles, idx, diffs);
    }
  }

  /**
   * In every run from a directory without files: never a temporary file left, never more backups than allowed, and
   * the bundles, as those in every backup that is not broken, are those of one publish.
   */
  lemma RunsPublishWhole(num: nat, dirs: seq<Directory>, calls: seq<Call>, n: nat)
    requires Run(num, dirs, calls) && n < |dirs| && dirs[0] == Directory(map[], map[], map[])
    ensures dirs[n].temps == map[] && |dirs[n].backups| <= num
    ensures dirs[n].bundles == map[] || exists idx, diffs :: Published(dirs[n].bundles, idx, diffs)
    ensures forall s :: s in dirs[n].backups && dirs[n].backups[s].Backup? ==>
              exists idx, diffs :: Published(dirs[n].backups[s].bundles, idx, diffs)
  {
    RunsStaySound(num, dirs, calls, n);
    WholeIsPublished(dirs[n].bundles);
    forall s | s in dirs[n].backups && dirs[n].backups[s].Backup?
      ensures exists idx, diffs :: Published(dirs[n].backups[s].bundles, idx, diffs) {
      WholeIsPublished(dirs[n].backups[s].bundles);
    }
  }
}
