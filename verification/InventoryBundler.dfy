/**
 * InventoryBundler: the staged publish of an inventory, and its backups.
 *
 * A file is named by the time stamp in its name; the packaged directory is three maps, one for each
 * extension.  Which archive fails, if any, is given by a Fault; deletes and renames succeed.
 */
module InventoryBundler {
  import opened Sets

  type Stamp = int

  /** A file of the open inventory directory, as an archive holds it. */
  datatype Entry = IndexEntry(stamp: Stamp) | DiffEntry(stamp: Stamp)

  /** A tar file: complete, or broken off by an I/O error. */
  datatype Content = Archive(entries: seq<Entry>) | Partial

  /** A backup of the bundles there were. */
  datatype Backup = Backup(bundles: map<Stamp, Content>) | BrokenBackup

  /** The packaged directory: .tar.gz, .tar.gz.tmp and .bak files. */
  datatype Directory = Directory(bundles: map<Stamp, Content>, temps: map<Stamp, Content>, backups: map<Stamp, Backup>)

  /** An I/O error leaves a broken file, or none. */
  datatype Failure = NoError | ErrorLeavesFile | ErrorLeavesNothing

  /** How the backup fares, and after how many good archives the packaging fails, if it does. */
  datatype Fault = Fault(backup: Failure, goodArchives: nat, packaging: Failure)

  // ---------------------------------------------------------------- the specification

  function DiffEntries(diffs: seq<Stamp>): (es: seq<Entry>)
    ensures |es| == |diffs| && forall i :: 0 <= i < |diffs| ==> es[i] == DiffEntry(diffs[i])
  {
    seq(|diffs|, i requires 0 <= i < |diffs| => DiffEntry(diffs[i]))
  }

  /** The temporary files after the index and the first k differences have been packaged. */
  function Packed(temps: map<Stamp, Content>, idx: Stamp, diffs: seq<Stamp>, k: nat): map<Stamp, Content>
    requires k <= |diffs|
    decreases k
  {
    if k == 0 then temps[idx := Archive([IndexEntry(idx)])]
    else Packed(temps, idx, diffs, k - 1)[diffs[k - 1] := Archive(DiffEntries(diffs[k - 1..]))]
  }

  /** The temporary files after the packaging has failed: the archives made before, and what the failing one left. */
  function BrokenOff(temps: map<Stamp, Content>, idx: Stamp, diffs: seq<Stamp>, f: Fault): map<Stamp, Content>
    requires f.goodArchives <= |diffs|
  {
    var k := f.goodArchives;
    var made := if k == 0 then temps else Packed(temps, idx, diffs, k - 1);
    if f.packaging.ErrorLeavesFile? then made[if k == 0 then idx else diffs[k - 1] := Partial] else made
  }

  /** What an attempt at an archive leaves. */
  function Attempted(temps: map<Stamp, Content>, name: Stamp, contents: seq<Entry>, failure: Failure)
    : map<Stamp, Content>
  {
    match failure
    case NoError => temps[name := Archive(contents)]
    case ErrorLeavesFile => temps[name := Partial]
    case ErrorLeavesNothing => temps
  }

  /** How archive number k fares. */
  function Outcome(f: Fault, k: nat): Failure { if k < f.goodArchives then NoError else f.packaging }

  /** One more archive after i differences: one more packaged, or the end of it. */
  lemma {:induction false} PackedNext(temps: map<Stamp, Content>, idx: Stamp, diffs: seq<Stamp>, f: Fault, i: nat)
    requires i < |diffs| && (f.packaging.NoError? || f.goodArchives > i)
    ensures var next := Attempted(Packed(temps, idx, diffs, i), diffs[i], DiffEntries(diffs[i..]), Outcome(f, i + 1));
            if Outcome(f, i + 1).NoError? then next == Packed(temps, idx, diffs, i + 1)
            else f.goodArchives <= |diffs| && next == BrokenOff(temps, idx, diffs, f)
  {
  }

  /** The newest bundle is named like the newest index. */
  ghost predicate UpToDate(bundles: map<Stamp, Content>, idx: Stamp) {
    idx in bundles && forall s :: s in bundles ==> s <= idx
  }

  /** The backups once the old bundles have been saved, before the oldest are dropped. */
  function Saved(d: Directory, now: Stamp, f: Failure): map<Stamp, Backup> {
    match f
    case NoError => d.backups[now := Backup(d.bundles)]
    case ErrorLeavesFile => d.backups[now := BrokenBackup]
    case ErrorLeavesNothing => d.backups
  }

  /** The newest num entries of all, unchanged: every one dropped is older than every one kept. */
  ghost predicate Newest(kept: map<Stamp, Backup>, all: map<Stamp, Backup>, num: nat) {
    && (forall s :: s in kept ==> s in all && kept[s] == all[s])
    && |kept| == (if |all| <= num then |all| else num)
    && (forall s, t :: s in kept && t in all && t !in kept ==> t < s)
  }

  /** What backup() does to the backups. */
  ghost predicate BackedUp(before: Directory, after: map<Stamp, Backup>, num: nat, now: Stamp, f: Failure) {
    if before.bundles == map[] then after == before.backups else Newest(after, Saved(before, now, f), num)
  }

  /** What bundleInventory does to the packaged directory. */
  ghost predicate Bundled(before: Directory, after: Directory, num: nat, indices: seq<Stamp>, diffs: seq<Stamp>,
      now: Stamp, f: Fault) {
    if indices == [] || UpToDate(before.bundles, indices[|indices| - 1]) then after == before
    else
      && BackedUp(before, after.backups, num, now, f.backup)
      && after.temps == map[]
      && after.bundles == if Succeeds(f, diffs) then Packed(before.temps, indices[|indices| - 1], diffs, |diffs|)
         else before.bundles
  }

  /** All the archives are made: the index and every difference. */
  predicate Succeeds(f: Fault, diffs: seq<Stamp>) { f.packaging.NoError? || f.goodArchives > |diffs| }

  // ---------------------------------------------------------------- the object

  class PackagedInventory {
    const numInventoryBackups: nat
    var bundles: map<Stamp, Content>
    var temps: map<Stamp, Content>
    var backups: map<Stamp, Backup>

    constructor (numInventoryBackups: nat)
      ensures this.numInventoryBackups == numInventoryBackups && View() == Directory(map[], map[], map[])
    {
      this.numInventoryBackups := numInventoryBackups;
      bundles, temps, backups := map[], map[], map[];
    }

    function View(): Directory
      reads this
    {
      Directory(bundles, temps, backups)
    }

    /** createTarGzip for a temporary file. */
    method CreateTarGzip(name: Stamp, contents: seq<Entry>, failure: Failure) returns (ok: bool)
      modifies this`temps
      ensures ok <==> failure.NoError?
      ensures temps == Attempted(old(temps), name, contents, failure)
    {
      ok := failure.NoError?;
      match failure
      case NoError => temps := temps[name := Archive(contents)];
      case ErrorLeavesFile => temps := temps[name := Partial];
      case ErrorLeavesNothing =>
    }

    method BackUp(now: Stamp, failure: Failure)
      modifies this`backups
      ensures BackedUp(old(View()), backups, numInventoryBackups, now, failure)
    {
      if |bundles| == 0 {
        return;
      }
      match failure {
        case NoError => backups := backups[now := Backup(bundles)];
        case ErrorLeavesFile => backups := backups[now := BrokenBackup];
        case ErrorLeavesNothing =>
      }
      DropOldest();
    }

    /** The end of backup(): the listing in order, the oldest deleted first. */
    method DropOldest()
      modifies this`backups
      ensures Newest(backups, old(backups), numInventoryBackups)
    {
      var existingFiles := Sorted(backups.Keys);
      SortedSize(existingFiles, backups.Keys);
      if |existingFiles| > numInventoryBackups {
        DeleteFirst(existingFiles, |existingFiles| - numInventoryBackups);
      }
    }

    method DeleteFirst(existingFiles: seq<Stamp>, numToDelete: nat)
      requires numToDelete <= |existingFiles| && Ascending(existingFiles)
      requires forall x :: x in existingFiles <==> x in backups
      modifies this`backups
      ensures Newest(backups, old(backups), |existingFiles| - numToDelete)
    {
      FromIsNewest(backups, existingFiles, numToDelete);
      FromStart(backups, existingFiles);
      for i := 0 to numToDelete
        invariant backups == From(old(backups), existingFiles, i)
      {
        FromNext(old(backups), existingFiles, i);
        backups := map s | s in backups && s != existingFiles[i] :: backups[s];
      }
    }

    /** bundleInventory, with the index and difference files of the open directory in order. */
    method BundleInventory(indices: seq<Stamp>, diffs: seq<Stamp>, now: Stamp, f: Fault)
      modifies this
      ensures Bundled(old(View()), View(), numInventoryBackups, indices, diffs, now, f)
    {
      if |indices| == 0 {
        return;
      }
      var latestIndex := indices[|indices| - 1];
      var listed := Sorted(bundles.Keys);
      LatestIsUpToDate(bundles, listed, latestIndex);
      if |listed| > 0 && listed[|listed| - 1] == latestIndex {
        return;
      }
      BackUp(now, f.backup);
      var success := Package(latestIndex, diffs, f);
      if success {
        DeleteBundles(listed);
      }
      FinishTemps(success);
    }

    /** The packaging of the index and then the differences, up to the first error. */
    method Package(latestIndex: Stamp, diffs: seq<Stamp>, f: Fault) returns (success: bool)
      modifies this`temps
      ensures success == Succeeds(f, diffs)
      ensures temps == if success then Packed(old(temps), latestIndex, diffs, |diffs|)
          else BrokenOff(old(temps), latestIndex, diffs, f)
    {
      success := CreateTarGzip(latestIndex, [IndexEntry(latestIndex)], Outcome(f, 0));
      for i := 0 to |diffs|
        invariant success <==> f.packaging.NoError? || f.goodArchives > i
        invariant temps == if success then Packed(old(temps), latestIndex, diffs, i)
            else BrokenOff(old(temps), latestIndex, diffs, f)
      {
        if !success {
          return;
        }
        var targets := if i == 0 then diffs else diffs[i..];
        assert targets == diffs[i..];
        PackedNext(old(temps), latestIndex, diffs, f, i);
        success := CreateTarGzip(diffs[i], DiffEntries(targets), Outcome(f, i + 1));
      }
    }

    method DeleteBundles(listed: seq<Stamp>)
      requires forall x :: x in listed <==> x in bundles
      modifies this`bundles
      ensures bundles == map[]
    {
      for i := 0 to |listed|
        invariant forall x :: x in bundles ==> x in listed[i..]
      {
        assert listed[i..] == [listed[i]] + listed[i + 1..];
        bundles := map s | s in bundles && s != listed[i] :: bundles[s];
      }
      assert forall x :: x !in bundles;
    }

    /** Temporary files are deleted after an error, and lose their extension otherwise. */
    method FinishTemps(success: bool)
      modifies this`bundles, this`temps
      ensures temps == map[]
      ensures bundles == if success then old(bundles) + old(temps) else old(bundles)
    {
      var files := Sorted(temps.Keys);
      ghost var was, all := bundles, temps;
      for i := 0 to |files|
        invariant forall x :: x in temps <==> x in all && x in files[i..]
        invariant forall x :: x in temps ==> temps[x] == all[x]
        invariant forall x :: x in bundles <==> x in was || (success && x in all && x !in files[i..])
        invariant forall x :: x in bundles ==>
            bundles[x] == if success && x in all && x !in files[i..] then all[x] else was[x]
      {
        AscendingTail(files, i);
        if success {
          bundles := bundles[files[i] := temps[files[i]]];
        }
        temps := map s | s in temps && s != files[i] :: temps[s];
      }
      assert forall x :: x !in temps;
      SameMaps(bundles, if success then was + all else was);
    }
  }

  /** The backups named in t[i..]. */
  ghost function From(all: map<Stamp, Backup>, t: seq<int>, i: nat): map<Stamp, Backup>
    requires i <= |t|
  {
    map s | s in all && s in t[i..] :: all[s]
  }

  lemma FromStart(all: map<Stamp, Backup>, t: seq<int>)
    requires forall x :: x in t <==> x in all
    ensures From(all, t, 0) == all
  {
    assert t[0..] == t;
    SameMaps(From(all, t, 0), all);
  }

  lemma FromNext(all: map<Stamp, Backup>, t: seq<int>, i: nat)
    requires i < |t| && Ascending(t) && forall x :: x in t <==> x in all
    ensures From(all, t, i + 1) == map s | s in From(all, t, i) && s != t[i] :: From(all, t, i)[s]
  {
    assert t[i..] == [t[i]] + t[i + 1..];
  }

  lemma HeadBelowTail(t: seq<int>, i: nat, u: int, s: int)
    requires Ascending(t) && i <= |t| && u in t && u !in t[i..] && s in t[i..]
    ensures u < s
  {
    var j :| 0 <= j < |t[i..]| && t[i..][j] == s;
    var k :| 0 <= k < |t| && t[k] == u;
    assert forall m :: i <= m < |t| ==> t[m] == t[i..][m - i];
    assert k < i && t[i + j] == s;
  }

  lemma FromIsNewest(all: map<Stamp, Backup>, t: seq<int>, i: nat)
    requires i <= |t| && Ascending(t) && forall x :: x in t <==> x in all
    ensures Newest(From(all, t, i), all, |t| - i)
  {
    var kept := From(all, t, i);
    SortedSize(t, all.Keys);
    assert forall x :: x in t[i..] ==> x in t;
    SortedSize(t[i..], kept.Keys);
    forall s, u | s in kept && u in all && u !in kept ensures u < s {
      HeadBelowTail(t, i, u, s);
    }
  }

  lemma {:induction false} SortedSize(t: seq<int>, s: set<int>)
    requires Ascending(t) && forall x :: x in t <==> x in s
    ensures |t| == |s|
    decreases |t|
  {
    if t == [] {
      if s != {} {
        var x := Pick(s);
      }
    } else {
      assert t[0] in t;
      assert t == [t[0]] + t[1..];
      SortedSize(t[1..], s - {t[0]});
    }
  }

  lemma AscendingTail(t: seq<int>, i: nat)
    requires Ascending(t) && i < |t|
    ensures forall x :: x in t[i..] <==> x == t[i] || x in t[i + 1..]
    ensures t[i] in t && t[i] !in t[i + 1..]
  {
    assert t[i..] == [t[i]] + t[i + 1..];
  }

  lemma LatestIsUpToDate(bundles: map<Stamp, Content>, listed: seq<Stamp>, idx: Stamp)
    requires Ascending(listed) && forall x :: x in listed <==> x in bundles
    ensures UpToDate(bundles, idx) <==> |listed| > 0 && listed[|listed| - 1] == idx
  {
    if |listed| > 0 {
      var last := listed[|listed| - 1];
      assert last in listed;
      forall x | x in bundles ensures x <= last {
        var k :| 0 <= k < |listed| && listed[k] == x;
      }
    }
  }

  // ---------------------------------------------------------------- what a publish holds

  lemma OneMoreName(diffs: seq<Stamp>, k: nat, s: Stamp)
    requires 0 < k <= |diffs|
    ensures s in diffs[..k] <==> s in diffs[..k - 1] || s == diffs[k - 1]
  {
    assert diffs[..k] == diffs[..k - 1] + [diffs[k - 1]];
  }

  lemma {:induction false} PackedNames(idx: Stamp, diffs: seq<Stamp>, k: nat, s: Stamp)
    requires k <= |diffs|
    ensures s in Packed(map[], idx, diffs, k) <==> s == idx || s in diffs[..k]
    decreases k
  {
    if k > 0 {
      PackedNames(idx, diffs, k - 1, s);
      OneMoreName(diffs, k, s);
    }
  }

  lemma {:induction false} PackedIndex(idx: Stamp, diffs: seq<Stamp>, k: nat)
    requires k <= |diffs| && idx !in diffs[..k]
    ensures idx in Packed(map[], idx, diffs, k) && Packed(map[], idx, diffs, k)[idx] == Archive([IndexEntry(idx)])
    decreases k
  {
    if k > 0 {
      OneMoreName(diffs, k, idx);
      PackedIndex(idx, diffs, k - 1);
    }
  }

  lemma {:induction false} PackedDiff(idx: Stamp, diffs: seq<Stamp>, k: nat, i: nat)
    requires Ascending(diffs) && i < k <= |diffs|
    ensures diffs[i] in Packed(map[], idx, diffs, k)
    ensures Packed(map[], idx, diffs, k)[diffs[i]] == Archive(DiffEntries(diffs[i..]))
    decreases k
  {
    if i < k - 1 {
      PackedDiff(idx, diffs, k - 1, i);
    }
  }

  /** With no stale temporary file: a bundle for the index, and for each difference one with it and the later ones. */
  lemma {:induction false} PackedHolds(idx: Stamp, diffs: seq<Stamp>)
    requires Ascending(diffs)
    ensures var p := Packed(map[], idx, diffs, |diffs|);
            && (forall s :: s in p <==> s == idx || s in diffs)
            && (forall i :: 0 <= i < |diffs| ==> diffs[i] in p && p[diffs[i]] == Archive(DiffEntries(diffs[i..])))
            && (idx !in diffs ==> p[idx] == Archive([IndexEntry(idx)]))
  {
    var p := Packed(map[], idx, diffs, |diffs|);
    assert diffs[..|diffs|] == diffs;
    PackedNames(idx, diffs, |diffs|, idx);
    if idx !in diffs {
      PackedIndex(idx, diffs, |diffs|);
    }
    forall s ensures s in p <==> s == idx || s in diffs {
      PackedNames(idx, diffs, |diffs|, s);
    }
    forall i | 0 <= i < |diffs| ensures diffs[i] in p && p[diffs[i]] == Archive(DiffEntries(diffs[i..])) {
      PackedDiff(idx, diffs, |diffs|, i);
    }
  }

  /** A difference with the stamp of the index takes the place of its bundle. */
  lemma IndexPublishedIff(idx: Stamp, diffs: seq<Stamp>)
    requires Ascending(diffs)
    ensures var p := Packed(map[], idx, diffs, |diffs|);
            idx in p && (p[idx] == Archive([IndexEntry(idx)]) <==> idx !in diffs)
  {
    PackedHolds(idx, diffs);
    if idx in diffs {
      var i :| 0 <= i < |diffs| && diffs[i] == idx;
      assert DiffEntries(diffs[i..])[0] == DiffEntry(idx);
    }
  }

  /** A second successful call finds nothing to do exactly when no difference is newer than the index. */
  lemma SecondCallIdleIff(idx: Stamp, diffs: seq<Stamp>)
    requires Ascending(diffs)
    ensures UpToDate(Packed(map[], idx, diffs, |diffs|), idx) <==> forall i :: 0 <= i < |diffs| ==> diffs[i] <= idx
  {
    PackedHolds(idx, diffs);
    forall i | 0 <= i < |diffs| ensures diffs[i] in diffs {
    }
  }

  // ---------------------------------------------------------------- runs

  /** No bundle at all, or exactly those of one publish. */
  ghost predicate Whole(bundles: map<Stamp, Content>) {
    bundles == map[] || exists idx, diffs :: Ascending(diffs) && bundles == Packed(map[], idx, diffs, |diffs|)
  }

  /** No temporary file, whole bundles, and no more backups than allowed, each of a whole set unless broken. */
  ghost predicate Sound(d: Directory, num: nat) {
    && d.temps == map[] && Whole(d.bundles)
    && |d.backups| <= num
    && forall s :: s in d.backups && d.backups[s].Backup? ==>
       d.backups[s].bundles != map[] && Whole(d.backups[s].bundles)
  }

  datatype Call = Call(indices: seq<Stamp>, diffs: seq<Stamp>, now: Stamp, fault: Fault)

  /** The directory before the first call and after each one. */
  ghost predicate Run(num: nat, dirs: seq<Directory>, calls: seq<Call>) {
    && |dirs| == |calls| + 1
    && forall i :: 0 <= i < |calls| ==>
         Ascending(calls[i].diffs)
             && Bundled(dirs[i], dirs[i + 1], num, calls[i].indices, calls[i].diffs, calls[i].now, calls[i].fault)
  }

  /** One call publishes everything or leaves the bundles as they were. */
  lemma CallKeepsSound(before: Directory, after: Directory, num: nat, c: Call)
    requires Sound(before, num) && Ascending(c.diffs)
    requires Bundled(before, after, num, c.indices, c.diffs, c.now, c.fault)
    ensures Sound(after, num)
    ensures after.bundles == before.bundles
            || (c.indices != [] && after.bundles == Packed(map[], c.indices[|c.indices| - 1], c.diffs, |c.diffs|))
  {
    if before.bundles != map[] && after != before {
      var all := Saved(before, c.now, c.fault.backup);
      forall s | s in after.backups && after.backups[s].Backup?
        ensures after.backups[s].bundles != map[] && Whole(after.backups[s].bundles) {
        assert s in all && after.backups[s] == all[s];
      }
    }
  }

  /** In every run of calls, failing or not: never a mixture of publishes, never a leftover, never too many backups. */
  lemma {:induction false} RunsStaySound(num: nat, dirs: seq<Directory>, calls: seq<Call>, n: nat)
    requires Run(num, dirs, calls) && Sound(dirs[0], num) && n < |dirs|
    ensures Sound(dirs[n], num)
    decreases n
  {
    if n > 0 {
      RunsStaySound(num, dirs, calls, n - 1);
      CallKeepsSound(dirs[n - 1], dirs[n], num, calls[n - 1]);
    }
  }

  // ---------------------------------------------------------------- stamps that clash

  const EMPTY: Directory := Directory(map[], map[], map[])

  /** The first publish of an index and a difference with its stamp: no bundle holds the index. */
  lemma ClashHidesIndex(after: Directory, num: nat, now: Stamp, idx: Stamp)
    requires Bundled(EMPTY, after, num, [idx], [idx], now, Fault(NoError, 0, NoError))
    ensures idx in after.bundles && forall s :: s in after.bundles ==> after.bundles[s] != Archive([IndexEntry(idx)])
  {
    PackedHolds(idx, [idx]);
    IndexPublishedIff(idx, [idx]);
  }

  /**
   * After the publish of an index and a newer difference, the next call saves it as outdated and publishes it again.
   */
  lemma NewerDifferenceRepublishes(one: Directory, two: Directory, num: nat, idx: Stamp, diff: Stamp, now: Stamp,
      later: Stamp)
    requires idx < diff && num > 0
    requires Bundled(EMPTY, one, num, [idx], [diff], now, Fault(NoError, 0, NoError))
    requires Bundled(one, two, num, [idx], [diff], later, Fault(NoError, 0, NoError))
    ensures two.bundles == one.bundles && two.backups == map[later := Backup(one.bundles)]
  {
    SecondCallIdleIff(idx, [diff]);
    PackedHolds(idx, [diff]);
    assert one.backups == map[];
    assert Saved(one, later, NoError) == map[later := Backup(one.bundles)];
    OnlyNewest(two.backups, later, Backup(one.bundles), num);
  }

  lemma OnlyNewest(kept: map<Stamp, Backup>, s: Stamp, b: Backup, num: nat)
    requires Newest(kept, map[s := b], num) && num > 0
    ensures kept == map[s := b]
  {
    assert |kept| == 1;
    if s !in kept {
      assert forall x :: x !in kept;
      SameMaps(kept, map[]);
    }
    SameMaps(kept, map[s := b]);
  }
}
