/** The exporter's filter: a bottom-up prune of an unpacked archive, done in place. */
module Export {
  import opened Basics
  import opened AdmittedPaths

  const MAX_FILE_BYTES := 1_000_000
  const PROBE_BYTES := 4_096

  type Content = seq<Byte>

  /** A tree of regular files and directories below a content root, which is the empty path. */
  datatype Tree = Tree(files: map<Path, Content>, dirs: set<Path>)

  function Parent(p: Path): Path
    requires p != []
  {
    p[..|p| - 1]
  }

  ghost predicate WellFormed(t: Tree) {
    && [] in t.dirs && t.files.Keys !! t.dirs
    && (forall p :: p in t.files ==> IsPath(p) && p != [] && Parent(p) in t.dirs)
    && (forall d :: d in t.dirs ==> IsPath(d) && (d != [] ==> Parent(d) in t.dirs))
  }

  ghost predicate NamedFiles(t: Tree) {
    forall p :: p in t.files ==> IsPath(p) && p != []
  }

  predicate Binary(c: Content) {
    0 in c[..if |c| < PROBE_BYTES then |c| else PROBE_BYTES]
  }

  predicate IsEmpty(t: Tree, d: Path) {
    && (forall p | p in t.files :: p != [] ==> Parent(p) != d)
    && (forall x | x in t.dirs :: x != [] ==> Parent(x) != d)
  }

  /** Approved root directories stay even when nothing is left in them. */
  predicate Removable(d: Path)
    requires d != []
  {
    |d| > 1 || d[0] !in ROOT_DIRECTORIES
  }

  datatype ExportError = Oversized | BinaryFile | MissingRootFile | MissingRootDirectory

  predicate Unfit(e: ExportError) { e == Oversized || e == BinaryFile }

  // What the filter leaves

  /** Some admitted file lies below `d`. */
  ghost predicate HoldsCorpus(t: Tree, d: Path) {
    exists p :: p in t.files && d < p && InCorpus(p)
  }

  ghost predicate Stays(t: Tree, d: Path) {
    d == [] || !Removable(d) || HoldsCorpus(t, d)
  }

  ghost function Exported(t: Tree): Tree {
    Tree(map p | p in t.files && InCorpus(p) :: t.files[p], set d | d in t.dirs && Stays(t, d))
  }

  ghost predicate FitFiles(t: Tree) {
    forall p :: p in t.files && InCorpus(p) ==> |t.files[p]| <= MAX_FILE_BYTES && !Binary(t.files[p])
  }

  /** What each error says about the archive. */
  ghost predicate Explains(t: Tree, e: ExportError) {
    match e
    case Oversized => exists p :: p in t.files && InCorpus(p) && |t.files[p]| > MAX_FILE_BYTES
    case BinaryFile => exists p :: p in t.files && InCorpus(p) && |t.files[p]| <= MAX_FILE_BYTES && Binary(t.files[p])
    case MissingRootFile => exists n :: n in ROOT_FILES && [n] !in t.files
    case MissingRootDirectory => exists n :: n in ROOT_DIRECTORIES && [n] !in t.dirs
  }

  ghost predicate HasRoots(t: Tree) {
    && (forall n :: n in ROOT_FILES ==> [n] in t.files)
    && (forall n :: n in ROOT_DIRECTORIES ==> [n] in t.dirs)
  }

  // The order of os.walk

  /** Every directory once, after all directories below it. */
  ghost predicate BottomUp(order: seq<Path>, dirs: set<Path>) {
    && (forall d :: d in dirs <==> d in order)
    && (forall i, j :: 0 <= i < j < |order| ==> order[i] != order[j] && !(order[i] < order[j]))
  }

  /** The tree when the directories in `done` have been visited. */
  ghost function Visited(t: Tree, done: set<Path>): Tree {
    Tree(
      map p | p in t.files && (p != [] && Parent(p) in done ==> InCorpus(p)) :: t.files[p],
      set d | d in t.dirs && (d != [] && Parent(d) in done ==> Stays(t, d)))
  }

  /** The tree after the visit of one directory: its refused files go, then its empty subdirectories. */
  ghost function Visit(t: Tree, d: Path): Tree {
    var files := map p | p in t.files && (p != [] && Parent(p) == d ==> InCorpus(p)) :: t.files[p];
    Tree(files, set x | x in t.dirs && !(x != [] && Parent(x) == d && IsEmpty(t, x) && Removable(x)))
  }

  lemma {:induction false} PrefixIsDirectory(t: Tree, p: Path, k: nat)
    requires WellFormed(t) && (p in t.files || p in t.dirs) && k < |p|
    ensures p[..k] in t.dirs
    decreases |p|
  {
    if k < |p| - 1 {
      assert p[..k] == Parent(p)[..k];
      PrefixIsDirectory(t, Parent(p), k);
    } else {
      assert p[..k] == Parent(p);
    }
  }

  /** Below a visited directory only admitted files and the directories that hold them are left. */
  lemma VisitedEmpty(t: Tree, done: set<Path>, x: Path)
    requires WellFormed(t) && x in t.dirs && x != [] && x in done
    ensures IsEmpty(Visited(t, done), x) <==> !HoldsCorpus(t, x)
  {
    hide InCorpus, IsPath;
    var v := Visited(t, done);
    if HoldsCorpus(t, x) {
      var p :| p in t.files && x < p && InCorpus(p);
      if |p| == |x| + 1 {
        assert Parent(p) == x && p in v.files;
      } else {
        var y := p[..|x| + 1];
        PrefixIsDirectory(t, p, |x| + 1);
        assert Parent(y) == x && y < p && y in v.dirs;
      }
    } else {
      forall y | y in t.dirs && y != [] && Parent(y) == x ensures Removable(y) && !HoldsCorpus(t, y) {
        forall p | p in t.files && y < p ensures !InCorpus(p) { assert x < p; }
      }
    }
  }

  /** Visiting a directory whose subdirectories are all visited. */
  lemma VisitNext(t: Tree, done: set<Path>, d: Path)
    requires WellFormed(t) && d in t.dirs && d !in done
    requires forall x :: x in t.dirs && d < x ==> x in done
    ensures Visit(Visited(t, done), d) == Visited(t, done + {d})
  {
    hide InCorpus, IsPath, IsEmpty, Stays;
    var v, r := Visited(t, done), Visited(t, done + {d});
    forall x | x in t.dirs && x != [] && Parent(x) == d
      ensures IsEmpty(v, x) && Removable(x) <==> !Stays(t, x)
    {
      assert d < x;
      VisitedEmpty(t, done, x);
      StaysWhen(t, x);
    }
    assert Visit(v, d).files == r.files;
    assert Visit(v, d).dirs == r.dirs;
  }

  lemma StaysWhen(t: Tree, x: Path)
    requires x != []
    ensures Stays(t, x) <==> !Removable(x) || HoldsCorpus(t, x)
  {
  }

  lemma VisitedAll(t: Tree)
    requires WellFormed(t)
    ensures Visited(t, t.dirs) == Exported(t) && Visited(t, {}) == t
  {
    hide InCorpus;
    forall p | p in t.files && InCorpus(p) ensures p in Visited(t, t.dirs).files {
    }
    assert Visited(t, t.dirs).files == Exported(t).files;
    assert Visited(t, t.dirs).dirs == Exported(t).dirs;
    assert Visited(t, {}).files == t.files;
  }

  /** The unpacked archive, changed in place. */
  class Archive {
    var files: map<Path, Content>
    var dirs: set<Path>

    constructor (t: Tree)
      ensures Now() == t
    {
      files, dirs := t.files, t.dirs;
    }

    function Now(): Tree
      reads this
    {
      Tree(files, dirs)
    }

    method Unlink(p: Path)
      requires p in files
      modifies this`files
      ensures files == old(files) - {p}
    {
      files := files - {p};
    }

    method RemoveDirectory(d: Path)
      requires d in dirs && IsEmpty(Now(), d)
      modifies this`dirs
      ensures dirs == old(dirs) - {d}
    {
      dirs := dirs - {d};
    }

    /** The files of one directory: refused ones are unlinked, an unfit admitted one ends the export. */
    method FilterFiles(d: Path) returns (error: Option<ExportError>)
      requires NamedFiles(Now())
      modifies this`files
      ensures forall p :: p in files ==> p in old(files) && files[p] == old(files)[p]
      ensures forall p :: p in old(files) && (InCorpus(p) || Parent(p) != d) ==> p in files
      ensures error.None? ==> files == (map p | p in old(files) && (p != [] && Parent(p) == d ==> InCorpus(p)) :: old(files)[p])
      ensures error.None? <==> forall p :: p in old(files) && Parent(p) == d && InCorpus(p) ==>
                                  |old(files)[p]| <= MAX_FILE_BYTES && !Binary(old(files)[p])
      ensures error.Some? ==> Unfit(error.value) && Explains(old(Now()), error.value)
    {
      hide InCorpus, Judge, IsPath, Binary;
      ghost var before := files;
      var remaining := set p | p in files && p != [] && Parent(p) == d;
      while remaining != {}
        invariant forall p :: p in remaining ==> p in files && p != [] && Parent(p) == d
        invariant forall p :: p in files ==> p in before && files[p] == before[p]
        invariant forall p :: p in before && (InCorpus(p) || Parent(p) != d || p in remaining) ==> p in files
        invariant forall p :: p in before && Parent(p) == d && p !in remaining && !InCorpus(p) ==> p !in files
        invariant forall p :: p in before && Parent(p) == d && p !in remaining && InCorpus(p) ==>
                    |before[p]| <= MAX_FILE_BYTES && !Binary(before[p])
        decreases |remaining|
      {
        var p :| p in remaining;
        remaining := remaining - {p};
        JudgeNames(p);
        if Judge(Posix(p)) != Admitted {
          Unlink(p);
          continue;
        }
        if |files[p]| > MAX_FILE_BYTES { return Some(Oversized); }
        if Binary(files[p]) { return Some(BinaryFile); }
      }
      error := None;
    }

    method RemoveEmptyDirectories(d: Path)
      modifies this`dirs
      ensures dirs == set x | x in old(dirs) &&
                        !(x != [] && Parent(x) == d && IsEmpty(old(Now()), x) && Removable(x))
    {
      hide IsEmpty, Removable;
      ghost var before := Now();
      var remaining := set x | x in dirs && x != [] && Parent(x) == d;
      while remaining != {}
        invariant forall x :: x in remaining ==> x in dirs && x != [] && Parent(x) == d
        invariant dirs == set x | x in before.dirs &&
                    !(x != [] && Parent(x) == d && x !in remaining && IsEmpty(before, x) && Removable(x))
        decreases |remaining|
      {
        var x :| x in remaining;
        ghost var was := remaining;
        remaining := remaining - {x};
        SiblingsDoNotCount(before, Now(), d, x);
        if IsEmpty(Now(), x) && Removable(x) {
          RemoveDirectory(x);
        }
      }
    }

    method VisitDirectory(d: Path) returns (error: Option<ExportError>)
      requires NamedFiles(Now())
      modifies this
      ensures error.None? ==> Now() == Visit(old(Now()), d)
      ensures error.None? <==> forall p :: p in old(files) && Parent(p) == d && InCorpus(p) ==>
                                  |old(files)[p]| <= MAX_FILE_BYTES && !Binary(old(files)[p])
      ensures error.Some? ==> Unfit(error.value) && Explains(old(Now()), error.value) && OnlyRefusedGone(old(files), files)
    {
      hide InCorpus, Binary, IsPath, Removable;
      ghost var before := Now();
      error := FilterFiles(d);
      if error.Some? { return; }
      ghost var filtered := Now();
      forall x | x != [] && Parent(x) == d ensures IsEmpty(before, x) == IsEmpty(filtered, x) {
        FilesElsewhere(before, filtered, d, x);
      }
      RemoveEmptyDirectories(d);
      assert dirs == Visit(before, d).dirs;
    }

    /** Every directory bottom-up; an unfit admitted file ends it. */
    method Prune(order: seq<Path>) returns (error: Option<ExportError>)
      requires WellFormed(Now()) && BottomUp(order, dirs)
      modifies this
      ensures error.None? ==> Now() == Exported(old(Now()))
      ensures error.None? <==> FitFiles(old(Now()))
      ensures error.Some? ==> Explains(old(Now()), error.value)
      ensures OnlyRefusedGone(old(files), files)
    {
      hide InCorpus, Binary, Visited, Stays, IsEmpty, IsPath, Exported, Visit, Explains, OnlyRefusedGone;
      ghost var t := Now();
      ghost var done: set<Path> := {};
      VisitedAll(t);
      var k := 0;
      while k < |order|
        invariant k <= |order|
        invariant forall d :: d in done <==> d in order[..k]
        invariant Now() == Visited(t, done)
        invariant forall p :: p in t.files && Parent(p) in done && InCorpus(p) ==>
                    |t.files[p]| <= MAX_FILE_BYTES && !Binary(t.files[p])
      {
        var d := order[k];
        VisitedFiles(t, done);
        error := VisitDirectory(d);
        if error.Some? {
          StoppedBy(t, Visited(t, done), files, error.value);
          return;
        }
        NextInOrder(t, order, k, done);
        VisitNext(t, done, d);
        done := done + {d};
        k := k + 1;
      }
      assert done == t.dirs;
      VisitedFiles(t, done);
      error := None;
    }

    /** The export: prune, then check for the required roots. */
    method FilterExport(order: seq<Path>) returns (error: Option<ExportError>)
      requires WellFormed(Now()) && BottomUp(order, dirs)
      modifies this
      ensures error.None? ==> Now() == Exported(old(Now()))
      ensures error.None? <==> FitFiles(old(Now())) && HasRoots(old(Now()))
      ensures error.Some? ==> Explains(old(Now()), error.value)
      ensures OnlyRefusedGone(old(files), files)
    {
      hide InCorpus, WellFormed, BottomUp, FitFiles, OnlyRefusedGone;
      ghost var t := Now();
      error := Prune(order);
      if error.Some? { return; }
      RootsKept(t);
      forall n | n in ROOT_FILES ensures InCorpus([n]) { RootFileInCorpus(n); }
      if exists n | n in ROOT_FILES :: [n] !in files { return Some(MissingRootFile); }
      if exists n | n in ROOT_DIRECTORIES :: [n] !in dirs { return Some(MissingRootDirectory); }
    }
  }

  /** No file changed, and none of the corpus is gone. */
  ghost predicate OnlyRefusedGone(before: map<Path, Content>, after: map<Path, Content>) {
    && (forall p :: p in after ==> p in before && after[p] == before[p])
    && (forall p :: p in before && InCorpus(p) ==> p in after)
  }

  lemma SiblingsDoNotCount(before: Tree, now: Tree, d: Path, x: Path)
    requires x != [] && Parent(x) == d && before.files == now.files
    requires forall y :: y in now.dirs ==> y in before.dirs
    requires forall y :: y in before.dirs && y !in now.dirs ==> y != [] && Parent(y) == d
    ensures IsEmpty(before, x) == IsEmpty(now, x)
  {
    assert d != x;
  }

  lemma VisitedFiles(t: Tree, done: set<Path>)
    requires WellFormed(t)
    ensures NamedFiles(Visited(t, done)) && OnlyRefusedGone(t.files, Visited(t, done).files)
  {
  }

  /** Unlinking files of `d` empties none of its subdirectories. */
  lemma FilesElsewhere(before: Tree, after: Tree, d: Path, x: Path)
    requires x != [] && Parent(x) == d && before.dirs == after.dirs
    requires forall p :: p in after.files ==> p in before.files
    requires forall p :: p in before.files && (p == [] || Parent(p) != d) ==> p in after.files
    ensures IsEmpty(before, x) == IsEmpty(after, x)
  {
    assert d != x;
  }

  /** Files that the filter meets were in the archive. */
  lemma StoppedBy(t: Tree, now: Tree, end: map<Path, Content>, e: ExportError)
    requires Unfit(e) && Explains(now, e) && OnlyRefusedGone(t.files, now.files) && OnlyRefusedGone(now.files, end)
    ensures Explains(t, e) && OnlyRefusedGone(t.files, end)
  {
    hide InCorpus, Binary;
  }

  lemma NextInOrder(t: Tree, order: seq<Path>, k: nat, done: set<Path>)
    requires BottomUp(order, t.dirs) && k < |order|
    requires forall d :: d in done <==> d in order[..k]
    ensures order[k] in t.dirs && order[k] !in done
    ensures forall x :: x in t.dirs && order[k] < x ==> x in done
  {
    forall x | x in t.dirs && order[k] < x ensures x in done {
      var i :| 0 <= i < |order| && order[i] == x;
      assert i < k && order[..k][i] == x;
    }
  }

  /** Root files and approved root directories survive the filter, so it reports them missing when they were. */
  lemma RootsKept(t: Tree)
    requires WellFormed(t)
    ensures HasRoots(Exported(t)) <==> HasRoots(t)
  {
    hide InCorpus;
    forall n | n in ROOT_FILES ensures InCorpus([n]) { RootFileInCorpus(n); }
  }

  lemma RootFileInCorpus(n: string)
    requires n in ROOT_FILES
    ensures InCorpus([n])
  {
    assert Posix([n]) == n;
    assert ExcludedPrefix()[0] == 'w' && n[0] != 'w';
  }

  // The export in its own terms

  /** At most a million bytes, and no zero byte among the first 4096. */
  predicate IsText(c: Content) {
    |c| <= 1_000_000 && forall k :: 0 <= k < |c| && k < 4096 ==> c[k] != 0
  }

  lemma TextIsFit(c: Content)
    ensures |c| <= MAX_FILE_BYTES && !Binary(c) <==> IsText(c)
  {
    var probe := c[..if |c| < PROBE_BYTES then |c| else PROBE_BYTES];
    if 0 in probe {
      var k :| 0 <= k < |probe| && probe[k] == 0;
      assert c[k] == 0 && k < 4096;
    } else {
      forall k | 0 <= k < |c| && k < 4096 ensures c[k] != 0 { assert probe[k] == c[k]; }
    }
  }

  /** The export keeps the files that belong to the corpus, with their contents. */
  lemma ExportedFilesMean(t: Tree)
    ensures forall p :: p in Exported(t).files <==> p in t.files && Belongs(p)
    ensures forall p :: p in Exported(t).files ==> Exported(t).files[p] == t.files[p]
  {
    hide InCorpus, Belongs, Stays;
    forall p ensures InCorpus(p) <==> Belongs(p) { PolicyMeans(p); }
  }

  /** Of the directories it keeps the approved roots and those above a file it keeps. */
  lemma ExportedDirectoriesMean(t: Tree)
    ensures forall d :: d in Exported(t).dirs <==>
              d in t.dirs && (d == [] || (|d| == 1 && d[0] in {"src", "instrument", "tools", "docs", "web"}) || HoldsKept(t, d))
  {
    hide InCorpus, Belongs;
    forall d | d in t.dirs ensures HoldsCorpus(t, d) <==> HoldsKept(t, d) {
      if HoldsCorpus(t, d) {
        var p :| p in t.files && d < p && InCorpus(p);
        PolicyMeans(p);
      }
      if HoldsKept(t, d) {
        var p :| p in t.files && d < p && Belongs(p);
        PolicyMeans(p);
      }
    }
  }

  ghost predicate HoldsKept(t: Tree, d: Path) { exists p :: p in t.files && d < p && Belongs(p) }

  /** It asks that every file kept is a text, and that each required root is there. */
  lemma ExportAsks(t: Tree)
    ensures FitFiles(t) <==> forall p :: p in t.files && Belongs(p) ==> IsText(t.files[p])
    ensures HasRoots(t) <==>
              && (forall n :: n in {"AGENTS.md", "README.md", "Makefile"} ==> [n] in t.files)
              && (forall n :: n in {"src", "instrument", "tools", "docs", "web"} ==> [n] in t.dirs)
  {
    hide InCorpus, Belongs, Binary, IsText;
    forall p ensures InCorpus(p) <==> Belongs(p) { PolicyMeans(p); }
    forall p | p in t.files ensures |t.files[p]| <= MAX_FILE_BYTES && !Binary(t.files[p]) <==> IsText(t.files[p]) {
      TextIsFit(t.files[p]);
    }
  }
}
