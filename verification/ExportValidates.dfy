/** What the exporter leaves always satisfies the validator. */
module ExportValidates {
  import opened Basics
  import opened AdmittedPaths
  import opened Export
  import opened DigestStream
  import opened Inventory
  import opened InventoryReport

  lemma {:induction false} PosixPrefix(d: Path, p: Path)
    requires d != [] && d < p
    ensures Posix(d) + "/" <= Posix(p)
  {
    if |d| == 1 {
      assert d == [p[0]];
      assert Posix(p) == p[0] + (['/'] + Posix(p[1..]));
    } else {
      PosixPrefix(d[1..], p[1..]);
    }
  }

  lemma ExportedIsWellFormed(t: Tree)
    requires WellFormed(t)
    ensures WellFormed(Exported(t))
  {
    hide InCorpus, IsPath;
    var v := Exported(t);
    forall p | p in v.files ensures Parent(p) in v.dirs {
      if Parent(p) != [] { assert Parent(p) < p; }
    }
    forall d | d in v.dirs && d != [] ensures Parent(d) in v.dirs {
      if Parent(d) != [] {
        var p :| p in t.files && d < p && InCorpus(p);
        assert Parent(d) < p;
      }
    }
  }

  lemma ExportedFile(t: Tree, p: Path)
    requires WellFormed(t) && FitFiles(t) && p in Exported(t).files
    ensures p != [] && EntryFault(Exported(t), p) == None
  {
    hide Judge, Posix, Binary;
    assert InCorpus(p);
    JudgeNames(p);
    assert IsPlain(p[|p| - 1]);
    assert p !in t.dirs;
  }

  lemma ExportedDirectory(t: Tree, d: Path)
    requires WellFormed(t) && d in Exported(t).dirs && d != []
    ensures EntryFault(Exported(t), d) == None
  {
    hide WellFormed, Judge, Suffix, LowerAscii, VendorDirectory, HoldsCorpus;
    var v := Exported(t);
    if !Removable(d) {
      assert d[0] in ROOT_DIRECTORIES && Posix(d) == d[0];
      RootNames(d[0]);
    } else {
      DirectoryOfCorpus(t, d);
    }
  }

  lemma RootNames(n: string)
    requires n in ROOT_DIRECTORIES
    ensures n[0] != '.' && n != VendorDirectory()
  {
  }

  lemma DirectoryOfCorpus(t: Tree, d: Path)
    requires HoldsCorpus(t, d) && d != []
    ensures IsPlain(d[|d| - 1]) && (|d| == 1 ==> d[0] in ROOT_DIRECTORIES) && Posix(d) != VendorDirectory()
  {
    hide Suffix, LowerAscii, VendorDirectory, Posix;
    var p :| p in t.files && d < p && InCorpus(p);
    assert d[|d| - 1] == p[|d| - 1] && d[0] == p[0];
    PosixPrefix(d, p);
  }

  /** For any tree whose admitted files are small and textual, the filtered tree has no fault for the scan to find. */
  lemma ExportImpliesValidate(t: Tree)
    requires WellFormed(t) && FitFiles(t)
    ensures WellFormed(Exported(t)) && Clean(Exported(t), [])
  {
    hide EntryFault, WellFormed, FitFiles, Exported;
    ExportedIsWellFormed(t);
    forall p | Exists(Exported(t), p) && [] < p ensures EntryFault(Exported(t), p) == None {
      if p in Exported(t).files { ExportedFile(t, p); } else { ExportedDirectory(t, p); }
    }
  }

  /** Where the validator does refuse an exported tree, it is for a bound on the whole corpus. */
  lemma OnlyBoundsFail(t: Tree, e: SnapshotError)
    requires WellFormed(t) && FitFiles(t) && HasRoots(t) && Excuses(Exported(t), e)
    ensures e in {TooManyFiles, TooManyBytes}
  {
    hide EntryFault, WellFormed, FitFiles, OverCount, OverBytes, Exported;
    ExportImpliesValidate(t);
    RootsKept(t);
    assert "AGENTS.md" in ROOT_FILES;
    assert Exported(t).files != map[] by { assert ["AGENTS.md"] in Exported(t).files; }
    if e !in {MissingRoot, NoFiles, TooManyFiles, TooManyBytes} {
      FaultyIsNotClean(Exported(t), [], e);
    }
  }

  // build_manifest

  datatype BuildError = Filtering(filtering: ExportError) | Validation(validation: SnapshotError) | NoBytes | ManifestMismatch

  datatype Manifest = Manifest(count: nat, total: nat, hashed: seq<Byte>)

  /** Some admitted file holds a byte, which the manifest model asks for. */
  ghost predicate HasBytes(t: Tree) {
    exists p :: p in t.files && InCorpus(p) && t.files[p] != []
  }

  /** What filter and validator ask of an archive: fit admitted files, the required roots, and both bounds. */
  ghost predicate Exportable(t: Tree) {
    FitFiles(t) && HasRoots(t) && !OverCount(Exported(t)) && !OverBytes(Exported(t))
  }

  ghost function Kept(t: Tree): map<Path, Content> {
    map p | p in t.files && Belongs(p) :: t.files[p]
  }

  /** The same in the policy's own terms: texts, roots, at most 20 000 files and 128 000 000 bytes kept, and one byte. */
  lemma BuildAsks(t: Tree)
    ensures Exportable(t) <==>
              && (forall p :: p in Kept(t) ==> IsText(Kept(t)[p]))
              && (forall n :: n in {"AGENTS.md", "README.md", "Makefile"} ==> [n] in t.files)
              && (forall n :: n in {"src", "instrument", "tools", "docs", "web"} ==> [n] in t.dirs)
              && |Kept(t)| <= 20_000 && SumSizes(Kept(t)) <= 128_000_000
    ensures HasBytes(t) <==> exists p :: p in Kept(t) && Kept(t)[p] != []
  {
    hide InCorpus, Belongs, IsText, FitFiles, HasRoots, SumSizes;
    ExportedFilesMean(t);
    assert Exported(t).files == Kept(t);
    ExportAsks(t);
    forall p ensures InCorpus(p) <==> Belongs(p) { PolicyMeans(p); }
    if HasBytes(t) {
      var p :| p in t.files && InCorpus(p) && t.files[p] != [];
      assert p in Kept(t);
    }
  }

  /**
   A build succeeds exactly for an exportable archive with a byte in it; the manifest model refuses
   every other exportable one. validate_snapshot then compares a second inventory.
  */
  method BuildManifest(archive: Archive, order: seq<Path>) returns (r: Result<Manifest, BuildError>)
    requires WellFormed(archive.Now()) && BottomUp(order, archive.dirs)
    modifies archive
    ensures r.Ok? <==> Exportable(old(archive.Now())) && HasBytes(old(archive.Now()))
    ensures r == Err(NoBytes) <==> Exportable(old(archive.Now())) && !HasBytes(old(archive.Now()))
    ensures r.Ok? ==>
              && archive.Now() == Exported(old(archive.Now()))
              && r.value.total >= 1
              && exists report ::
                && Reports(Exported(old(archive.Now())), report)
                && r.value == Manifest(report.count, report.total, report.hashed)
    ensures r.Err? ==>
              match r.error
              case Filtering(e) => Explains(old(archive.Now()), e)
              case Validation(TooManyFiles) => OverCount(Exported(old(archive.Now())))
              case Validation(TooManyBytes) => OverBytes(Exported(old(archive.Now())))
              case NoBytes => true
              case _ => false
  {
    hide WellFormed, BottomUp, Explains, OnlyRefusedGone, FitFiles, Exported, Reports, InCorpus, OverCount, OverBytes, Clean,
         HasRoots, EntryFault, HasBytes;
    ghost var t := archive.Now();
    var exportError := archive.FilterExport(order);
    if exportError.Some? { return Err(Filtering(exportError.value)); }
    ExportImpliesValidate(t);
    var inventory := ComputeContentInventory(archive.Now());
    if inventory.Err? {
      OnlyBoundsFail(t, inventory.error);
      BoundsExcuse(Exported(t), inventory.error);
      return Err(Validation(inventory.error));
    }
    var first := inventory.value;
    TotalIsBytes(t, first);
    if first.total < 1 { return Err(NoBytes); }
    var again := ComputeContentInventory(archive.Now());
    if again.Err? { assert false; }
    OneReport(archive.Now(), first, again.value);
    if again.value.count != first.count || again.value.total != first.total || again.value.hashed != first.hashed {
      return Err(ManifestMismatch);
    }
    r := Ok(Manifest(first.count, first.total, first.hashed));
  }

  lemma BoundsExcuse(t: Tree, e: SnapshotError)
    requires Excuses(t, e) && e in {TooManyFiles, TooManyBytes}
    ensures e == TooManyFiles ==> OverCount(t)
    ensures e == TooManyBytes ==> OverBytes(t)
  {
  }

  /** The reported total is positive exactly when some admitted file holds a byte. */
  lemma TotalIsBytes(t: Tree, report: Report)
    requires Reports(Exported(t), report)
    ensures report.total >= 1 <==> HasBytes(t)
  {
    hide InCorpus, PathKey;
    if HasBytes(t) {
      var p :| p in t.files && InCorpus(p) && t.files[p] != [];
      assert p in Exported(t).files;
      var k :| 0 <= k < |report.files| && report.files[k].path == p;
      TotalAtLeast(report.files, k);
    } else {
      forall k | 0 <= k < |report.files| ensures report.files[k].size == 0 {
        assert report.files[k].path in Exported(t).files;
      }
      TotalOfNothing(report.files);
    }
  }

  lemma {:induction false} TotalOfNothing(files: seq<SnapshotFile>)
    requires forall k :: 0 <= k < |files| ==> files[k].size == 0
    ensures Total(files) == 0
  {
    if files != [] {
      TotalOfNothing(files[..|files| - 1]);
    }
  }

  lemma {:induction false} TotalAtLeast(files: seq<SnapshotFile>, k: nat)
    requires k < |files|
    ensures Total(files) >= files[k].size
  {
    if k < |files| - 1 {
      TotalAtLeast(files[..|files| - 1], k);
    }
  }

  // A corpus that only the manifest model refuses

  function RootFiles(): map<Path, Content> { map[["AGENTS.md"] := [], ["README.md"] := [], ["Makefile"] := []] }

  /** The required roots and nothing in them. */
  function EmptyCorpus(): Tree {
    Tree(RootFiles(), {[], ["src"], ["instrument"], ["tools"], ["docs"], ["web"]})
  }

  /** It passes filter and validator as it stands, and a build refuses it for its missing byte. */
  lemma EmptyCorpusIsRefused()
    ensures var t := EmptyCorpus();
            WellFormed(t) && Clean(t, []) && Exported(t) == t && Exportable(t) && !HasBytes(t)
  {
    hide WellFormed, Clean, Exported, FitFiles, HasRoots, OverCount, OverBytes, HasBytes, EmptyCorpus;
    var t := EmptyCorpus();
    EmptyCorpusTree();
    EmptyCorpusStays();
    EmptyCorpusRoots();
    EmptyCorpusFits();
    ExportImpliesValidate(t);
  }

  lemma EmptyCorpusTree()
    ensures WellFormed(EmptyCorpus())
  {
    hide IsPath;
    var t := EmptyCorpus();
    forall p | p in t.files || p in t.dirs ensures IsPath(p) && (p != [] ==> Parent(p) in t.dirs) {
      RootIsPath(p);
    }
  }

  lemma RootIsPath(p: Path)
    requires p in EmptyCorpus().files || p in EmptyCorpus().dirs
    ensures IsPath(p) && |p| <= 1 && (p != [] ==> Parent(p) == [])
  {
  }

  lemma EmptyCorpusStays()
    ensures Exported(EmptyCorpus()) == EmptyCorpus()
  {
    hide InCorpus;
    var t := EmptyCorpus();
    forall p | p in t.files ensures InCorpus(p) {
      assert p == [p[0]] && p[0] in ROOT_FILES;
      RootFileInCorpus(p[0]);
    }
    forall d | d in t.dirs ensures Stays(t, d) {
      if d != [] { assert !Removable(d); }
    }
    assert Exported(t).files == t.files;
    assert Exported(t).dirs == t.dirs;
  }

  lemma EmptyCorpusRoots()
    ensures HasRoots(EmptyCorpus())
  {
    hide InCorpus;
  }

  lemma EmptyCorpusFits()
    ensures var t := EmptyCorpus(); FitFiles(t) && !OverCount(t) && !OverBytes(t) && !HasBytes(t)
  {
    hide InCorpus, EmptyCorpus, SumSizes;
    RootFilesAreEmpty();
    NoSizes(EmptyCorpus().files);
  }

  lemma RootFilesAreEmpty()
    ensures var m := EmptyCorpus().files; |m| <= 3 && forall p :: p in m ==> m[p] == []
  {
    var m := EmptyCorpus().files;
    assert m.Keys == {["AGENTS.md"], ["README.md"], ["Makefile"]};
    assert |m| == |m.Keys|;
  }

  lemma {:induction false} NoSizes(files: map<Path, Content>)
    requires forall p :: p in files ==> files[p] == []
    ensures SumSizes(files) == 0
    decreases files.Keys
  {
    if files != map[] {
      var p :| p in files && SumSizes(files) == |files[p]| + SumSizes(files - {p});
      NoSizes(files - {p});
    }
  }

  // An enumeration for the filter exists

  /** Any finite set of directories has a bottom-up order. */
  lemma {:induction false} BottomUpExists(dirs: set<Path>) returns (order: seq<Path>)
    ensures BottomUp(order, dirs)
    decreases |dirs|
  {
    if dirs == {} {
      order := [];
    } else {
      var d := Shortest(dirs);
      var rest := BottomUpExists(dirs - {d});
      order := rest + [d];
      forall x ensures x in dirs <==> x in order {
        assert x in order <==> x in rest || x == d;
      }
      assert forall i :: 0 <= i < |rest| ==> rest[i] in rest;
    }
  }

  lemma {:induction false} Shortest(dirs: set<Path>) returns (d: Path)
    requires dirs != {}
    ensures d in dirs && forall x :: x in dirs ==> |d| <= |x|
    decreases |dirs|
  {
    d :| d in dirs;
    if dirs != {d} {
      var other := Shortest(dirs - {d});
      if |other| < |d| { d := other; }
    }
  }
}
