/** The validator of an exported tree: a recursive scan under the corpus policy, then the inventory and its digest stream. */
module Inventory {
  import opened Basics
  import opened AdmittedPaths
  import opened LexOrder
  import opened Export
  import opened DigestStream
  import Utf8

  const MAX_SNAPSHOT_FILES := 20_000
  const MAX_SNAPSHOT_BYTES := 128_000_000
  const CHUNK_BYTES := 65_536

  datatype SnapshotError =
    | MissingRoot | Hidden | UnapprovedRoot | ExcludedDirectory | Outside | TooLarge | NotText
    | NoFiles | TooManyFiles | TooManyBytes

  datatype SnapshotFile = SnapshotFile(path: Path, size: nat)

  predicate Exists(t: Tree, p: Path) { p in t.files || p in t.dirs }

  /** What the scan says about one directory entry. */
  function EntryFault(t: Tree, p: Path): Option<SnapshotError>
    requires p != [] && Exists(t, p)
  {
    var name := p[|p| - 1];
    if "." <= name then Some(Hidden)
    else if p in t.dirs then
      if |p| == 1 && name !in ROOT_DIRECTORIES then Some(UnapprovedRoot)
      else if Posix(p) == VendorDirectory() then Some(ExcludedDirectory)
      else None
    else if Judge(Posix(p)) != Admitted then Some(Outside)
    else if |t.files[p]| > MAX_FILE_BYTES then Some(TooLarge)
    else if Binary(t.files[p]) then Some(NotText)
    else None
  }

  /** What each fault says about the entry, in the policy's own terms. */
  ghost predicate Blames(t: Tree, p: Path, e: SnapshotError)
    requires p != [] && p[|p| - 1] != ""
  {
    var hidden := p[|p| - 1][0] == '.';
    match e
    case Hidden => hidden
    case UnapprovedRoot => !hidden && p in t.dirs && |p| == 1 && p[0] !in {"src", "instrument", "tools", "docs", "web"}
    case ExcludedDirectory => p in t.dirs && p == ["web", "grn-catalog", "vendor"]
    case Outside => !hidden && p !in t.dirs && !Belongs(p)
    case TooLarge => p !in t.dirs && p in t.files && Belongs(p) && |t.files[p]| > 1_000_000
    case NotText => p !in t.dirs && p in t.files && Belongs(p) && |t.files[p]| <= 1_000_000 && !IsText(t.files[p])
    case _ => false
  }

  lemma FaultMeans(t: Tree, p: Path, e: SnapshotError)
    requires p != [] && IsPath(p) && Exists(t, p)
    ensures EntryFault(t, p) == Some(e) <==> Blames(t, p, e)
  {
    hide Posix, Judge, VendorDirectory, InCorpus, Belongs, Binary, IsText;
    assert IsName(p[|p| - 1]) && forall i :: 0 <= i < |p| ==> IsName(p[i]);
    var name := p[|p| - 1];
    assert name[0] == '.' <==> "." <= name;
    VendorDirectoryIs(p);
    JudgeNames(p);
    PolicyMeans(p);
    if Belongs(p) { BelongsIsPlain(p); }
    if p in t.files { TextIsFit(t.files[p]); }
  }

  lemma BelongsIsPlain(p: Path)
    requires Belongs(p)
    ensures p != [] && p[|p| - 1] != "" && p[|p| - 1][0] != '.'
  {
    assert IsPlain(p[|p| - 1]);
  }

  /** A directory the scan accepts: unhidden, approved when it is a root, not the vendored one. */
  predicate MayStand(d: Path) {
    && d != [] && d[|d| - 1] != "" && d[|d| - 1][0] != '.'
    && (|d| == 1 ==> d[0] in {"src", "instrument", "tools", "docs", "web"})
    && d != ["web", "grn-catalog", "vendor"]
  }

  lemma EntryIsClean(t: Tree, p: Path)
    requires p != [] && IsPath(p) && (p in t.files <==> p !in t.dirs)
    ensures EntryFault(t, p) == None <==> if p in t.files then Belongs(p) && IsText(t.files[p]) else MayStand(p)
  {
    hide EntryFault, Belongs;
    assert IsName(p[|p| - 1]);
    FaultMeans(t, p, Hidden);
    FaultMeans(t, p, UnapprovedRoot);
    FaultMeans(t, p, ExcludedDirectory);
    FaultMeans(t, p, Outside);
    FaultMeans(t, p, TooLarge);
    FaultMeans(t, p, NotText);
    if EntryFault(t, p).Some? { FaultMeans(t, p, EntryFault(t, p).value); }
    if Belongs(p) { BelongsIsPlain(p); }
  }

  /** No entry below `d` is at fault. */
  ghost predicate Clean(t: Tree, d: Path) {
    forall p :: Exists(t, p) && d < p ==> EntryFault(t, p) == None
  }

  /** A tree is faultless if and only if every file is a text that belongs to the corpus and every directory may stand. */
  lemma CleanMeans(t: Tree)
    requires WellFormed(t)
    ensures Clean(t, []) <==>
              && (forall p :: p in t.files ==> Belongs(p) && IsText(t.files[p]))
              && (forall d :: d in t.dirs && d != [] ==> MayStand(d))
  {
    hide Belongs, IsText, EntryFault, MayStand;
    forall p | Exists(t, p) && p != []
      ensures EntryFault(t, p) == None <==> if p in t.files then Belongs(p) && IsText(t.files[p]) else MayStand(p)
    {
      EntryIsClean(t, p);
    }
  }

  ghost predicate Faulty(t: Tree, d: Path, e: SnapshotError) {
    exists p :: Exists(t, p) && d < p && EntryFault(t, p) == Some(e)
  }

  // Directory entries

  ghost predicate IsEntry(t: Tree, d: Path, p: Path) { Exists(t, p) && p != [] && Parent(p) == d }

  function NameKey(p: Path): seq<Byte>
    requires p != []
  {
    Utf8.Encode(p[|p| - 1])
  }

  function PathKey(p: Path): seq<Byte> { Utf8.Encode(Posix(p)) }

  lemma NameKeyInjective(d: Path, p: Path, q: Path)
    requires p != [] && q != [] && Parent(p) == d && Parent(q) == d && NameKey(p) == NameKey(q)
    ensures p == q
  {
    Utf8.Injective(p[|p| - 1], q[|q| - 1]);
    assert p == d + [p[|p| - 1]] && q == d + [q[|q| - 1]];
  }

  lemma PathKeyInjective(p: Path, q: Path)
    requires IsPath(p) && IsPath(q) && p != [] && q != [] && PathKey(p) == PathKey(q)
    ensures p == q
  {
    Utf8.Injective(Posix(p), Posix(q));
    assert forall i :: 0 <= i < |p| ==> IsName(p[i]);
    assert forall i :: 0 <= i < |q| ==> IsName(q[i]);
    SplitJoin(p, '/');
    SplitJoin(q, '/');
  }

  ghost predicate KeyedByName(t: Tree, d: Path, e: Keyed<Path>) {
    IsEntry(t, d, e.value) && e.key == NameKey(e.value)
  }

  /** os.scandir: the entries of a directory in whatever order. */
  method ScanEntries(t: Tree, d: Path) returns (found: seq<Keyed<Path>>)
    ensures forall k :: 0 <= k < |found| ==> KeyedByName(t, d, found[k])
    ensures forall p :: IsEntry(t, d, p) ==> Keyed(NameKey(p), p) in found
    ensures DifferentKeys(found)
  {
    hide NameKey;
    var remaining := (set p | p in t.files && p != [] && Parent(p) == d) + (set p | p in t.dirs && p != [] && Parent(p) == d);
    assert forall p :: IsEntry(t, d, p) <==> p in remaining;
    found := [];
    while remaining != {}
      invariant forall p :: p in remaining ==> IsEntry(t, d, p)
      invariant forall k :: 0 <= k < |found| ==> KeyedByName(t, d, found[k]) && found[k].value !in remaining
      invariant forall p :: IsEntry(t, d, p) ==> p in remaining || Keyed(NameKey(p), p) in found
      invariant DifferentKeys(found)
      decreases |remaining|
    {
      var p :| p in remaining;
      remaining := remaining - {p};
      forall k | 0 <= k < |found| ensures found[k].key != NameKey(p) {
        if found[k].key == NameKey(p) { NameKeyInjective(d, found[k].value, p); }
      }
      found := found + [Keyed(NameKey(p), p)];
    }
  }

  lemma DifferentEntries(entries: seq<Path>)
    requires forall k, l :: 0 <= k < l < |entries| ==>
               entries[k] != [] && entries[l] != [] && LexLess(NameKey(entries[k]), NameKey(entries[l]))
    ensures Distinct(entries)
  {
    hide LexLess, NameKey;
    forall k, l | 0 <= k < l < |entries| ensures entries[k] != entries[l] {
      assert entries[k] != [] && entries[l] != [];
      Irreflexive(NameKey(entries[k]));
    }
  }

  /** The entries sorted by the bytes of their names. */
  method SortedEntries(t: Tree, d: Path) returns (entries: seq<Path>)
    ensures forall p :: IsEntry(t, d, p) <==> p in entries
    ensures forall k, l :: 0 <= k < l < |entries| ==>
              entries[k] != [] && entries[l] != [] && LexLess(NameKey(entries[k]), NameKey(entries[l]))
    ensures Distinct(entries)
  {
    hide NameKey, Sort, LexLess;
    var found := ScanEntries(t, d);
    SortOrders(found);
    var sorted := Sort(found);
    forall k | 0 <= k < |sorted| ensures KeyedByName(t, d, sorted[k]) {
      assert sorted[k] in sorted;
    }
    entries := seq(|sorted|, k requires 0 <= k < |sorted| => sorted[k].value);
    forall p | IsEntry(t, d, p) ensures p in entries {
      var k :| 0 <= k < |sorted| && sorted[k] == Keyed(NameKey(p), p);
      assert entries[k] == p;
    }
    DifferentEntries(entries);
  }

  // What a scan lists

  ghost predicate Under(roots: seq<Path>, p: Path) { exists i :: 0 <= i < |roots| && roots[i] <= p }

  /** `found` lists every file at or below `roots` once, with its size. */
  ghost predicate Lists(t: Tree, roots: seq<Path>, found: seq<SnapshotFile>) {
    && (forall k :: 0 <= k < |found| ==>
          found[k].path in t.files && Under(roots, found[k].path) && found[k].size == |t.files[found[k].path]|)
    && (forall p :: p in t.files && Under(roots, p) ==> exists k :: 0 <= k < |found| && found[k].path == p)
    && (forall k, l :: 0 <= k < l < |found| ==> found[k].path != found[l].path)
  }

  lemma ListsMore(t: Tree, roots: seq<Path>, found: seq<SnapshotFile>, x: Path, more: seq<SnapshotFile>)
    requires Lists(t, roots, found) && Lists(t, [x], more)
    requires forall i :: 0 <= i < |roots| ==> |roots[i]| == |x| && roots[i] != x
    ensures Lists(t, roots + [x], found + more)
  {
    var both, all := roots + [x], found + more;
    forall p ensures Under(both, p) <==> Under(roots, p) || Under([x], p) {
      if Under(roots, p) {
        var i :| 0 <= i < |roots| && roots[i] <= p;
        assert both[i] <= p;
      }
      if Under([x], p) { assert both[|roots|] <= p; }
      if Under(both, p) {
        var i :| 0 <= i < |both| && both[i] <= p;
        if i < |roots| { assert roots[i] <= p; } else { assert [x][0] <= p; }
      }
    }
    forall p | p in t.files && Under(both, p) ensures exists k :: 0 <= k < |all| && all[k].path == p {
      if Under(roots, p) {
        var k :| 0 <= k < |found| && found[k].path == p;
        assert all[k].path == p;
      } else {
        var k :| 0 <= k < |more| && more[k].path == p;
        assert all[|found| + k].path == p;
      }
    }
  }

  lemma NothingBelowFile(t: Tree, p: Path, q: Path)
    requires WellFormed(t) && p in t.files && Exists(t, q)
    ensures !(p < q)
  {
    if p < q {
      assert q[..|p|] == p;
      PrefixIsDirectory(t, q, |p|);
    }
  }

  /** A file is the only thing at or below itself. */
  lemma ListsFile(t: Tree, p: Path)
    requires WellFormed(t) && p in t.files
    ensures Lists(t, [p], [SnapshotFile(p, |t.files[p]|)])
  {
    assert [p][0] <= p;
    forall q | q in t.files && Under([p], q) ensures q == p {
      NothingBelowFile(t, p, q);
    }
    var found := [SnapshotFile(p, |t.files[p]|)];
    assert found[0].path == p;
  }

  /** The entries of a directory cover everything below it. */
  lemma EntriesCover(t: Tree, d: Path, entries: seq<Path>, p: Path)
    requires WellFormed(t) && Exists(t, p)
    requires forall x :: IsEntry(t, d, x) <==> x in entries
    ensures Under(entries, p) <==> d < p
  {
    if d < p {
      var x := p[..|d| + 1];
      if |x| < |p| { PrefixIsDirectory(t, p, |x|); } else { assert x == p; }
      assert Parent(x) == d;
      assert IsEntry(t, d, x);
      var i :| 0 <= i < |entries| && entries[i] == x;
      assert entries[i] <= p;
    }
    if Under(entries, p) {
      var i :| 0 <= i < |entries| && entries[i] <= p;
      assert IsEntry(t, d, entries[i]);
      assert d < entries[i];
    }
  }

  /** A path with one of `entries` on it is the entry itself or lies below it. */
  lemma UnderLast(entries: seq<Path>, k: nat, p: Path)
    requires k < |entries|
    ensures Under(entries[..k + 1], p) <==> Under(entries[..k], p) || entries[k] <= p
  {
    var more := entries[..k + 1];
    if Under(entries[..k], p) {
      var i :| 0 <= i < k && entries[..k][i] <= p;
      assert more[i] <= p;
    }
    if entries[k] <= p { assert more[k] <= p; }
    if Under(more, p) {
      var i :| 0 <= i < k + 1 && more[i] <= p;
      if i < k { assert entries[..k][i] <= p; }
    }
  }

  lemma ListsNothing(t: Tree)
    ensures Lists(t, [], []) && forall p :: !Under([], p)
  {
  }

  lemma FewerBelow(t: Tree, d: Path, x: Path)
    requires d in t.dirs && d < x
    ensures |set y | y in t.dirs && x <= y| < |set y | y in t.dirs && d <= y|
  {
    var small, large := set y | y in t.dirs && x <= y, set y | y in t.dirs && d <= y;
    assert small <= large - {d};
    assert large == small + (large - small) && d in large - small;
  }

  /** Everything at or below `x` is without fault. */
  ghost predicate CleanFrom(t: Tree, x: Path) {
    forall p :: Exists(t, p) && p != [] && x <= p ==> EntryFault(t, p) == None
  }

  /** `found` is what a faultless scan of the first `k` entries appends. */
  ghost predicate Scanned(t: Tree, entries: seq<Path>, k: nat, found: seq<SnapshotFile>)
    requires k <= |entries|
  {
    && Lists(t, entries[..k], found)
    && forall p :: Exists(t, p) && p != [] && Under(entries[..k], p) ==> EntryFault(t, p) == None
  }

  lemma ScannedFirst(t: Tree, entries: seq<Path>)
    ensures Scanned(t, entries, 0, [])
  {
    assert entries[..0] == [];
    ListsNothing(t);
  }

  lemma ScannedNext(t: Tree, d: Path, entries: seq<Path>, k: nat, found: seq<SnapshotFile>, more: seq<SnapshotFile>)
    requires k < |entries| && Scanned(t, entries, k, found)
    requires forall i :: 0 <= i < |entries| ==> IsEntry(t, d, entries[i])
    requires forall i :: 0 <= i < k ==> entries[i] != entries[k]
    requires Lists(t, [entries[k]], more) && CleanFrom(t, entries[k])
    ensures Scanned(t, entries, k + 1, found + more)
  {
    hide EntryFault, Lists;
    var x := entries[k];
    assert entries[..k + 1] == entries[..k] + [x];
    ListsMore(t, entries[..k], found, x, more);
    forall p | Exists(t, p) && p != [] && Under(entries[..k + 1], p) ensures EntryFault(t, p) == None {
      UnderLast(entries, k, p);
    }
  }

  /** When every entry is scanned, so is the directory. */
  lemma ScannedAll(t: Tree, d: Path, entries: seq<Path>, found: seq<SnapshotFile>)
    requires WellFormed(t) && d in t.dirs && Scanned(t, entries, |entries|, found)
    requires forall x :: IsEntry(t, d, x) <==> x in entries
    ensures Lists(t, [d], found) && Clean(t, d)
  {
    hide EntryFault;
    assert entries[..|entries|] == entries;
    forall p | Exists(t, p) ensures Under(entries, p) <==> d < p {
      EntriesCover(t, d, entries, p);
    }
    forall p | p in t.files ensures Under([d], p) <==> d < p {
      assert d != p;
      if d < p { assert [d][0] <= p; }
    }
  }

  lemma BelowClean(t: Tree, x: Path)
    requires WellFormed(t) && Exists(t, x) && x != [] && EntryFault(t, x) == None
    requires x in t.dirs ==> Clean(t, x)
    ensures CleanFrom(t, x)
  {
    hide EntryFault;
    forall p | Exists(t, p) && p != [] && x <= p ensures EntryFault(t, p) == None {
      if x in t.files { NothingBelowFile(t, x, p); }
      if |x| == |p| { assert x == p; } else { assert x < p; }
    }
  }

  lemma FaultyAbove(t: Tree, d: Path, x: Path, e: SnapshotError)
    requires d < x && (Faulty(t, x, e) || (Exists(t, x) && EntryFault(t, x) == Some(e)))
    ensures Faulty(t, d, e)
  {
    hide EntryFault;
    if Faulty(t, x, e) {
      var p :| Exists(t, p) && x < p && EntryFault(t, p) == Some(e);
      assert d < p;
    }
  }

  /** The shared lists that the recursive scan appends to. */
  class Scan {
    var files: seq<SnapshotFile>
    var directories: seq<Path>

    constructor ()
      ensures files == [] && directories == [[]]
    {
      files, directories := [], [[]];
    }

    /** Looks at every entry below a directory, sorted, depth first, and stops at the first fault. */
    method ScanDirectory(t: Tree, d: Path) returns (error: Option<SnapshotError>)
      requires WellFormed(t) && d in t.dirs
      modifies this
      ensures error.None? <==> Clean(t, d)
      ensures error.Some? ==> Faulty(t, d, error.value)
      ensures old(files) <= files
      ensures error.None? ==> Lists(t, [d], files[|old(files)|..])
      decreases |set x | x in t.dirs && d <= x|
    {
      hide EntryFault, Lists, NameKey, LexLess, WellFormed, Scanned, CleanFrom, Clean, Faulty;
      var entries := SortedEntries(t, d);
      assert forall i :: 0 <= i < |entries| ==> entries[i] in entries;
      var k := 0;
      ghost var start := files;
      ScannedFirst(t, entries);
      assert files[|start|..] == [];
      while k < |entries|
        invariant k <= |entries| && start <= files
        invariant Scanned(t, entries, k, files[|start|..])
      {
        var x := entries[k];
        assert IsEntry(t, d, x) && d < x;
        error := EntryFault(t, x);
        if error.Some? {
          FaultyAbove(t, d, x, error.value);
          FaultyIsNotClean(t, d, error.value);
          return;
        }
        ghost var before := files;
        if x in t.dirs {
          directories := directories + [x];
          FewerBelow(t, d, x);
          error := ScanDirectory(t, x);
          if error.Some? {
            FaultyAbove(t, d, x, error.value);
            FaultyIsNotClean(t, d, error.value);
            return;
          }
        } else {
          files := files + [SnapshotFile(x, |t.files[x]|)];
          ListsFile(t, x);
          assert files[|before|..] == [SnapshotFile(x, |t.files[x]|)];
        }
        BelowClean(t, x);
        ScannedNext(t, d, entries, k, before[|start|..], files[|before|..]);
        assert files[|start|..] == before[|start|..] + files[|before|..];
        k := k + 1;
      }
      ScannedAll(t, d, entries, files[|start|..]);
      error := None;
    }
  }

  lemma FaultyIsNotClean(t: Tree, d: Path, e: SnapshotError)
    requires Faulty(t, d, e)
    ensures !Clean(t, d)
  {
    hide EntryFault;
  }
}
