/**
 * PKIXParametersWrapper.loadCertStore: a cache of the CRLs of directories, kept by modification times.
 *
 * Parsing a file is a function of its contents, failing or not; a call that throws partway keeps the
 * modification times of the files it had already read.
 */
module CrlCache {
  import opened Wrappers

  type Path = string
  type Name = string

  datatype File = File(modified: int, contents: string)

  /** What a path is: nothing, a plain file, or a directory with its visible files. */
  datatype Node = Missing | Plain | Dir(files: map<Name, File>)

  type Tree = map<Path, Node>

  function At(t: Tree, p: Path): Node { if p in t then t[p] else Missing }

  /** generateCRL; CRLs are compared by value. */
  type Parser<+Crl> = string -> Option<Crl>

  /** certStoreMap and modificationDateMap, the latter keyed by the file's directory and name. */
  datatype Cache<Crl(==)> = Cache(stores: map<Path, set<Crl>>, times: map<(Path, Name), int>)

  /** What loadCertStore returns: null, a store, or a thrown exception. */
  datatype Outcome<Crl(==)> = Absent | Loaded(store: set<Crl>) | Threw

  // ---------------------------------------------------------------- the specification

  predicate Readable<Crl>(parse: Parser<Crl>, f: File) { parse(f.contents).Some? }

  /** Every file of the directory parses. */
  ghost predicate AllReadable<Crl>(parse: Parser<Crl>, files: map<Name, File>) {
    forall n :: n in files ==> Readable(parse, files[n])
  }

  /** The CRLs of a directory, parsed afresh. */
  ghost function Fresh<Crl>(parse: Parser<Crl>, files: map<Name, File>): set<Crl> {
    set n | n in files && Readable(parse, files[n]) :: parse(files[n].contents).value
  }

  /** A file whose recorded time is not its own. */
  predicate Stale(times: map<(Path, Name), int>, p: Path, n: Name, f: File) {
    (p, n) !in times || times[(p, n)] != f.modified
  }

  /** Something of the directory is not as recorded. */
  ghost predicate Changed<Crl>(c: Cache<Crl>, p: Path, files: map<Name, File>) {
    p !in c.stores || exists n :: n in files && Stale(c.times, p, n, files[n])
  }

  /** What loadCertStore returns. */
  ghost function Result<Crl>(parse: Parser<Crl>, c: Cache<Crl>, tree: Tree, p: Path): Outcome<Crl> {
    match At(tree, p)
    case Missing => Absent
    case Plain => Threw
    case Dir(files) =>
      if !Changed(c, p, files) then Loaded(c.stores[p])
      else if AllReadable(parse, files) then Loaded(Fresh(parse, files))
      else Threw
  }

  /** What it would return without a cache. */
  ghost function Uncached<Crl>(parse: Parser<Crl>, tree: Tree, p: Path): Outcome<Crl> {
    match At(tree, p)
    case Missing => Absent
    case Plain => Threw
    case Dir(files) => if AllReadable(parse, files) then Loaded(Fresh(parse, files)) else Threw
  }

  /** How many of the listed files are read: those before the first that does not parse. */
  function ReadCount<Crl>(parse: Parser<Crl>, files: map<Name, File>, names: seq<Name>): (k: nat)
    requires forall i :: 0 <= i < |names| ==> names[i] in files
    ensures k <= |names|
    ensures forall i :: 0 <= i < k ==> Readable(parse, files[names[i]])
    ensures k < |names| ==> !Readable(parse, files[names[k]])
  {
    if names == [] then 0
    else if Readable(parse, files[names[0]]) then 1 + ReadCount(parse, files, names[1..])
    else 0
  }

  /** The times after the files of names have been read. */
  function Recorded(times: map<(Path, Name), int>, p: Path, files: map<Name, File>, names: seq<Name>)
    : map<(Path, Name), int>
    requires forall i :: 0 <= i < |names| ==> names[i] in files
    decreases |names|
  {
    if names == [] then times
    else
      var n := names[|names| - 1];
      Recorded(times, p, files, names[..|names| - 1])[(p, n) := files[n].modified]
  }

  /** names lists the directory. */
  ghost predicate Lists(names: seq<Name>, files: map<Name, File>) {
    forall n :: n in names <==> n in files
  }

  /** What loadCertStore leaves: the times of the files read, and the new store if all were. */
  ghost function After<Crl>(parse: Parser<Crl>, c: Cache<Crl>, tree: Tree, p: Path, names: seq<Name>): Cache<Crl>
    requires At(tree, p).Dir? ==> Lists(names, At(tree, p).files)
  {
    match At(tree, p)
    case Dir(files) =>
      if !Changed(c, p, files) then c
      else
        assert forall i :: 0 <= i < |names| ==> names[i] in names;
        var read := ReadCount(parse, files, names);
        Cache(if AllReadable(parse, files) then c.stores[p := Fresh(parse, files)] else c.stores,
              Recorded(c.times, p, files, names[..read]))
    case _ => c
  }

  // ---------------------------------------------------------------- the object

  class PKIXParametersWrapper<Crl(==)> {
    const parse: Parser<Crl>
    var certStoreMap: map<Path, set<Crl>>
    var modificationDateMap: map<(Path, Name), int>

    function View(): Cache<Crl>
      reads this
    {
      Cache(certStoreMap, modificationDateMap)
    }

    constructor (parse: Parser<Crl>)
      ensures this.parse == parse && View() == Cache(map[], map[])
    {
      this.parse := parse;
      certStoreMap, modificationDateMap := map[], map[];
    }

    method StoreChanged(p: Path, files: map<Name, File>, names: seq<Name>) returns (changed: bool)
      requires Lists(names, files)
      ensures changed <==> Changed(View(), p, files)
    {
      if p !in certStoreMap {
        return true;
      }
      for i := 0 to |names|
        invariant forall j :: 0 <= j < i ==> !Stale(modificationDateMap, p, names[j], files[names[j]])
      {
        assert names[i] in names;
        var file := files[names[i]];
        if (p, names[i]) !in modificationDateMap || modificationDateMap[(p, names[i])] != file.modified {
          assert Stale(modificationDateMap, p, names[i], file);
          return true;
        }
      }
      changed := false;
    }

    /** loadCertStore(p), with the directory's files listed in the order names. */
    method LoadCertStore(tree: Tree, p: Path, names: seq<Name>) returns (r: Outcome<Crl>)
      requires At(tree, p).Dir? ==> Lists(names, At(tree, p).files)
      modifies this
      ensures r == Result(parse, old(View()), tree, p)
      ensures View() == After(parse, old(View()), tree, p, names)
    {
      var f := At(tree, p);
      if f.Missing? {
        return Absent;
      }
      if f.Plain? {
        // listFiles() gives null for a plain file, and the null is used
        return Threw;
      }
      var files := f.files;
      var changed := StoreChanged(p, files, names);
      if !changed {
        return Loaded(certStoreMap[p]);
      }
      assert forall i :: 0 <= i < |names| ==> names[i] in names;
      ghost var read := ReadCount(parse, files, names);
      var certCollection: set<Crl> := {};
      for i := 0 to |names|
        invariant certStoreMap == old(certStoreMap) && i <= read
        invariant certCollection == set j | 0 <= j < i :: parse(files[names[j]].contents).value
        invariant modificationDateMap == Recorded(old(modificationDateMap), p, files, names[..i])
      {
        var c := parse(files[names[i]].contents);
        if c.None? {
          return Threw;
        }
        assert names[..i + 1][..i] == names[..i];
        certCollection := certCollection + {c.value};
        modificationDateMap := modificationDateMap[(p, names[i]) := files[names[i]].modified];
      }
      assert names[..|names|] == names;
      assert certCollection == Fresh(parse, files);
      certStoreMap := certStoreMap[p := certCollection];
      r := Loaded(certCollection);
    }
  }

  // ---------------------------------------------------------------- coherence

  /** The file tree, the cache, and every modification time that any file has had. */
  datatype World<Crl(==)> = World(tree: Tree, c: Cache<Crl>, used: set<(Path, Name, int)>)

  datatype Event =
    | Write(p: Path, n: Name, f: File)   // a file is added or rewritten
    | MakeDir(p: Path)
    | Load(p: Path, names: seq<Name>)

  function FilesOf(tree: Tree, p: Path): map<Name, File> {
    match At(tree, p)
    case Dir(files) => files
    case _ => map[]
  }

  /** A write brings a modification time the file never had. */
  ghost predicate Allowed<Crl>(s: World<Crl>, e: Event) {
    match e
    case Write(p, n, f) => !At(s.tree, p).Plain? && (p, n, f.modified) !in s.used
    case MakeDir(p) => At(s.tree, p).Missing?
    case Load(p, names) => At(s.tree, p).Dir? ==> Lists(names, At(s.tree, p).files)
  }

  ghost function Step<Crl>(parse: Parser<Crl>, s: World<Crl>, e: Event): World<Crl>
    requires Allowed(s, e)
  {
    match e
    case Write(p, n, f) =>
      World(s.tree[p := Dir(FilesOf(s.tree, p)[n := f])], s.c, s.used + {(p, n, f.modified)})
    case MakeDir(p) => s.(tree := s.tree[p := Dir(map[])])
    case Load(p, names) => s.(c := After(parse, s.c, s.tree, p, names))
  }

  ghost predicate Run<Crl>(parse: Parser<Crl>, s: World<Crl>, es: seq<Event>)
    decreases |es|
  {
    es == [] || (Allowed(s, es[0]) && Run(parse, Step(parse, s, es[0]), es[1..]))
  }

  ghost function RunTo<Crl>(parse: Parser<Crl>, s: World<Crl>, es: seq<Event>): World<Crl>
    requires Run(parse, s, es)
    decreases |es|
  {
    if es == [] then s else RunTo(parse, Step(parse, s, es[0]), es[1..])
  }

  /** Times in use are known, and a file whose time is recorded was read as it is now. */
  ghost predicate Recording<Crl>(parse: Parser<Crl>, s: World<Crl>) {
    && (forall p :: p in s.c.stores ==> At(s.tree, p).Dir?)
    && (forall p, n :: (p, n) in s.c.times ==> (p, n, s.c.times[(p, n)]) in s.used)
    && (forall p, n :: n in FilesOf(s.tree, p) ==>
          && (p, n, FilesOf(s.tree, p)[n].modified) in s.used
          && (!Stale(s.c.times, p, n, FilesOf(s.tree, p)[n]) ==> Readable(parse, FilesOf(s.tree, p)[n])))
  }

  /** A cached store is what a fresh parse gives, or some file shows that it is not. */
  ghost predicate Coherent<Crl>(parse: Parser<Crl>, s: World<Crl>, p: Path) {
    At(s.tree, p).Dir? && !Changed(s.c, p, At(s.tree, p).files) ==> s.c.stores[p] == Fresh(parse, At(s.tree, p).files)
  }

  ghost predicate Inv<Crl>(parse: Parser<Crl>, s: World<Crl>) {
    Recording(parse, s) && forall p :: Coherent(parse, s, p)
  }

  lemma {:induction false} RecordedAt(times: map<(Path, Name), int>, p: Path, files: map<Name, File>,
      names: seq<Name>, q: Path, n: Name)
    requires forall i :: 0 <= i < |names| ==> names[i] in files
    ensures var after := Recorded(times, p, files, names);
            && ((q, n) in after <==> (q, n) in times || (q == p && n in names))
            && ((q, n) in after ==> after[(q, n)] == if q == p && n in names then files[n].modified else times[(q, n)])
    decreases |names|
  {
    if names != [] {
      var k := |names| - 1;
      RecordedAt(times, p, files, names[..k], q, n);
      assert names == names[..k] + [names[k]];
    }
  }

  lemma WriteKeepsInv<Crl>(parse: Parser<Crl>, s: World<Crl>, p: Path, n: Name, f: File)
    requires Inv(parse, s) && Allowed(s, Write(p, n, f))
    ensures Inv(parse, Step(parse, s, Write(p, n, f)))
  {
    var t := Step(parse, s, Write(p, n, f));
    assert Stale(t.c.times, p, n, f);
    forall q, m | m in FilesOf(t.tree, q)
      ensures (q, m, FilesOf(t.tree, q)[m].modified) in t.used
      ensures !Stale(t.c.times, q, m, FilesOf(t.tree, q)[m]) ==> Readable(parse, FilesOf(t.tree, q)[m]) {
      if !(q == p && m == n) {
        assert m in FilesOf(s.tree, q) && FilesOf(t.tree, q)[m] == FilesOf(s.tree, q)[m];
      }
    }
    forall q ensures Coherent(parse, t, q) {
      assert Coherent(parse, s, q);
      if q == p {
        assert n in At(t.tree, p).files && At(t.tree, p).files[n] == f;
      } else {
        assert At(t.tree, q) == At(s.tree, q);
      }
    }
  }

  /** Which recorded times a load changes. */
  lemma TimesAfterLoad<Crl>(parse: Parser<Crl>, c: Cache<Crl>, tree: Tree, p: Path, names: seq<Name>, q: Path, n: Name)
    requires At(tree, p).Dir? && Lists(names, At(tree, p).files) && Changed(c, p, At(tree, p).files)
    requires forall i :: 0 <= i < |names| ==> names[i] in At(tree, p).files
    ensures var files := At(tree, p).files;
            var times, read := After(parse, c, tree, p, names).times, names[..ReadCount(parse, files, names)];
            && ((q, n) in times <==> (q, n) in c.times || (q == p && n in read))
            && ((q, n) in times ==> times[(q, n)] == if q == p && n in read then files[n].modified else c.times[(q, n)])
            && (n in read ==> n in files && Readable(parse, files[n]))
  {
    var files := At(tree, p).files;
    RecordedAt(c.times, p, files, names[..ReadCount(parse, files, names)], q, n);
  }

  lemma LoadKeepsRecording<Crl>(parse: Parser<Crl>, s: World<Crl>, p: Path, names: seq<Name>)
    requires Inv(parse, s) && Allowed(s, Load(p, names)) && At(s.tree, p).Dir? && Changed(s.c, p, At(s.tree, p).files)
    ensures Recording(parse, Step(parse, s, Load(p, names)))
  {
    var t := Step(parse, s, Load(p, names));
    assert forall i :: 0 <= i < |names| ==> names[i] in names;
    forall q, n
      ensures (q, n) in t.c.times ==> (q, n, t.c.times[(q, n)]) in t.used
      ensures n in FilesOf(t.tree, q) && !Stale(t.c.times, q, n, FilesOf(t.tree, q)[n]) ==>
          Readable(parse, FilesOf(t.tree, q)[n]) {
      TimesAfterLoad(parse, s.c, s.tree, p, names, q, n);
      assert q == p ==> FilesOf(s.tree, q) == At(s.tree, p).files;
      assert n in FilesOf(s.tree, q) ==> (q, n, FilesOf(s.tree, q)[n].modified) in s.used;
    }
  }

  lemma LoadKeepsCoherence<Crl>(parse: Parser<Crl>, s: World<Crl>, p: Path, names: seq<Name>, q: Path)
    requires Inv(parse, s) && Allowed(s, Load(p, names)) && At(s.tree, p).Dir? && Changed(s.c, p, At(s.tree, p).files)
    ensures Coherent(parse, Step(parse, s, Load(p, names)), q)
  {
    var t, files := Step(parse, s, Load(p, names)), At(s.tree, p).files;
    assert forall i :: 0 <= i < |names| ==> names[i] in names;
    assert Coherent(parse, s, q);
    if q == p {
      if !AllReadable(parse, files) {
        // the first unreadable file was stale before, and its time was not recorded
        var read := ReadCount(parse, files, names);
        var bad :| bad in files && !Readable(parse, files[bad]);
        assert bad in names;
        assert read < |names|;
        TimesAfterLoad(parse, s.c, s.tree, p, names, p, names[read]);
        assert names[read] in FilesOf(s.tree, p);
        assert Stale(t.c.times, p, names[read], files[names[read]]);
      }
    } else if At(s.tree, q).Dir? && Changed(s.c, q, At(s.tree, q).files) && q in s.c.stores {
      var n :| n in At(s.tree, q).files && Stale(s.c.times, q, n, At(s.tree, q).files[n]);
      TimesAfterLoad(parse, s.c, s.tree, p, names, q, n);
      assert Stale(t.c.times, q, n, At(s.tree, q).files[n]);
    }
  }

  lemma {:induction false} StepKeepsInv<Crl>(parse: Parser<Crl>, s: World<Crl>, e: Event)
    requires Inv(parse, s) && Allowed(s, e)
    ensures Inv(parse, Step(parse, s, e))
  {
    match e
    case Write(p, n, f) => WriteKeepsInv(parse, s, p, n, f);
    case MakeDir(p) =>
      var t := Step(parse, s, e);
      assert p !in s.c.stores;
      assert forall q :: FilesOf(t.tree, q) == FilesOf(s.tree, q);
      forall q ensures Coherent(parse, t, q) {
        assert Coherent(parse, s, q);
        assert q != p ==> At(t.tree, q) == At(s.tree, q);
      }
    case Load(p, names) =>
      if At(s.tree, p).Dir? && Changed(s.c, p, At(s.tree, p).files) {
        LoadKeepsRecording(parse, s, p, names);
        forall q ensures Coherent(parse, Step(parse, s, e), q) {
          LoadKeepsCoherence(parse, s, p, names, q);
        }
      }
  }

  lemma {:induction false} RunKeepsInv<Crl>(parse: Parser<Crl>, s: World<Crl>, es: seq<Event>)
    requires Inv(parse, s) && Run(parse, s, es)
    ensures Inv(parse, RunTo(parse, s, es))
    decreases |es|
  {
    if es != [] {
      StepKeepsInv(parse, s, es[0]);
      RunKeepsInv(parse, Step(parse, s, es[0]), es[1..]);
    }
  }

  /** Every time of the tree's files. */
  ghost predicate AllUsed(tree: Tree, used: set<(Path, Name, int)>) {
    forall p, n :: n in FilesOf(tree, p) ==> (p, n, FilesOf(tree, p)[n].modified) in used
  }

  /** Nothing loaded yet. */
  function Start<Crl>(tree: Tree, used: set<(Path, Name, int)>): World<Crl> { World(tree, Cache(map[], map[]), used) }

  /**
   * After any run of added and rewritten files, new directories and loads, of which some may have thrown partway,
   * a load returns for every path exactly what it would return without a cache.
   */
  lemma LoadsAreFresh<Crl>(parse: Parser<Crl>, tree: Tree, used: set<(Path, Name, int)>, es: seq<Event>, p: Path)
    requires AllUsed(tree, used) && Run(parse, Start(tree, used), es)
    ensures var s := RunTo(parse, Start(tree, used), es);
            Result(parse, s.c, s.tree, p) == Uncached(parse, s.tree, p)
  {
    var start: World<Crl> := Start(tree, used);
    assert forall q :: Coherent(parse, start, q);
    RunKeepsInv(parse, start, es);
    var s := RunTo(parse, start, es);
    assert Coherent(parse, s, p);
    if At(s.tree, p).Dir? && !Changed(s.c, p, At(s.tree, p).files) {
      var files := At(s.tree, p).files;
      assert files == FilesOf(s.tree, p);
      assert forall n :: n in files ==> !Stale(s.c.times, p, n, files[n]);
    }
  }

  /**
   * Deleting a file is not noticed: the next load returns the old store, which is the fresh one exactly when the
   * file's CRL is also in another file.
   */
  lemma DeletionUnnoticed<Crl>(parse: Parser<Crl>, s: World<Crl>, p: Path, n: Name)
    requires Inv(parse, s) && At(s.tree, p).Dir? && n in At(s.tree, p).files && !Changed(s.c, p, At(s.tree, p).files)
    ensures var files := At(s.tree, p).files;
            var tree' := s.tree[p := Dir(files - {n})];
            && Result(parse, s.c, tree', p) == Loaded(Fresh(parse, files))
            && (Result(parse, s.c, tree', p) == Uncached(parse, tree', p) <==>
                exists other :: other in files && other != n
                    && parse(files[other].contents) == parse(files[n].contents))
  {
    var files := At(s.tree, p).files;
    var left := files - {n};
    assert Coherent(parse, s, p);
    assert files == FilesOf(s.tree, p);
    assert forall m :: m in files ==> !Stale(s.c.times, p, m, files[m]) && Readable(parse, files[m]);
    assert forall m :: m in left ==> left[m] == files[m];
    assert AllReadable(parse, left);
    assert Fresh(parse, files) == Fresh(parse, left) + {parse(files[n].contents).value};
    assert parse(files[n].contents).value in Fresh(parse, left) <==>
           exists other :: other in files && other != n && parse(files[other].contents) == parse(files[n].contents) by {
      if parse(files[n].contents).value in Fresh(parse, left) {
        var other :| other in left && Readable(parse, left[other])
            && parse(left[other].contents).value == parse(files[n].contents).value;
        assert other in files && other != n && parse(files[other].contents) == parse(files[n].contents);
      }
      if other :| other in files && other != n && parse(files[other].contents) == parse(files[n].contents) {
        assert other in left;
      }
    }
  }

  /**
   * A directory that parses is loaded, and then a file whose CRL no other file has is deleted: the next load is
   * wrong.
   */
  lemma DeletedAfterLoad<Crl>(parse: Parser<Crl>, tree: Tree, used: set<(Path, Name, int)>, p: Path,
      names: seq<Name>, n: Name)
    requires AllUsed(tree, used) && At(tree, p).Dir? && Lists(names, At(tree, p).files)
        && AllReadable(parse, At(tree, p).files)
    requires n in At(tree, p).files
    requires forall other :: other in At(tree, p).files && other != n ==>
        parse(At(tree, p).files[other].contents) != parse(At(tree, p).files[n].contents)
    ensures var es := [Load(p, names)];
            Run(parse, Start(tree, used), es) && var s := RunTo(parse, Start(tree, used), es);
            s.tree == tree && var deleted := tree[p := Dir(At(tree, p).files - {n})];
            Result(parse, s.c, deleted, p) != Uncached(parse, deleted, p)
  {
    var start: World<Crl> := Start(tree, used);
    var es := [Load(p, names)];
    assert es[1..] == [];
    var s := Step(parse, start, es[0]);
    assert RunTo(parse, start, es) == RunTo(parse, s, []);
    assert forall q :: Coherent(parse, start, q);
    StepKeepsInv(parse, start, es[0]);
    LoadedIsCurrent(parse, start, p, names);
    DeletionUnnoticed(parse, s, p, n);
  }

  /** After a load that did not fail nothing of the directory is seen as changed. */
  lemma LoadedIsCurrent<Crl>(parse: Parser<Crl>, s: World<Crl>, p: Path, names: seq<Name>)
    requires At(s.tree, p).Dir? && Lists(names, At(s.tree, p).files) && AllReadable(parse, At(s.tree, p).files)
    ensures !Changed(After(parse, s.c, s.tree, p, names), p, At(s.tree, p).files)
  {
    var files := At(s.tree, p).files;
    if Changed(s.c, p, files) {
      assert forall i :: 0 <= i < |names| ==> names[i] in names;
      assert ReadCount(parse, files, names) == |names|;
      assert names[..|names|] == names;
      forall n | n in files ensures !Stale(After(parse, s.c, s.tree, p, names).times, p, n, files[n]) {
        TimesAfterLoad(parse, s.c, s.tree, p, names, p, n);
      }
    }
  }

  /**
   * What a load returns after any such run: null where nothing is, an exception where a file is or one of the
   * directory's does not parse, and otherwise exactly the CRLs that its files parse to.
   */
  lemma LoadAnswers<Crl>(parse: Parser<Crl>, tree: Tree, used: set<(Path, Name, int)>, es: seq<Event>, p: Path)
    requires AllUsed(tree, used) && Run(parse, Start(tree, used), es)
    ensures var s := RunTo(parse, Start(tree, used), es);
            var r := Result(parse, s.c, s.tree, p);
            && (p !in s.tree || s.tree[p] == Missing ==> r == Absent)
            && (p in s.tree && s.tree[p] == Plain ==> r == Threw)
            && (p in s.tree && s.tree[p].Dir? ==>
                  var files := s.tree[p].files;
                  if exists n :: n in files && parse(files[n].contents) == None then r == Threw
                  else r.Loaded? && forall crl :: crl in r.store <==>
                      exists n :: n in files && parse(files[n].contents) == Some(crl))
  {
    LoadsAreFresh(parse, tree, used, es, p);
  }
}
