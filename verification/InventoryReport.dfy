/** compute_content_inventory and the export that validates what it wrote. */
module InventoryReport {
  import opened Basics
  import opened AdmittedPaths
  import opened LexOrder
  import opened Export
  import opened DigestStream
  import opened Inventory
  import Utf8

  datatype Report = Report(files: seq<SnapshotFile>, count: nat, total: nat, hashed: seq<Byte>)

  function Total(files: seq<SnapshotFile>): nat {
    if files == [] then 0 else Total(files[..|files| - 1]) + files[|files| - 1].size
  }

  /** Every file of the tree once, with its size, in the order of the path bytes. */
  ghost predicate Listing(t: Tree, files: seq<SnapshotFile>) {
    && (forall k :: 0 <= k < |files| ==> files[k].path in t.files && files[k].size == |t.files[files[k].path]|)
    && (forall p :: p in t.files ==> exists k :: 0 <= k < |files| && files[k].path == p)
    && (forall k, l :: 0 <= k < l < |files| ==> LexLess(PathKey(files[k].path), PathKey(files[l].path)))
  }

  function ItemOf(t: Tree, f: SnapshotFile): Item {
    Item(Posix(f.path), f.size, if f.path in t.files then t.files[f.path] else [])
  }

  function Items(t: Tree, files: seq<SnapshotFile>): (items: seq<Item>)
    ensures |items| == |files| && forall k :: 0 <= k < |files| ==> items[k] == ItemOf(t, files[k])
  {
    seq(|files|, k requires 0 <= k < |files| => ItemOf(t, files[k]))
  }

  ghost predicate Reports(t: Tree, r: Report) {
    Listing(t, r.files) && r.count == |r.files| && r.total == Total(r.files) && r.hashed == Stream(Items(t, r.files))
  }

  /** The bytes of all files of a tree together. */
  ghost function SumSizes(files: map<Path, Content>): nat
    decreases files.Keys
  {
    if files == map[] then 0
    else
      var p :| p in files;
      |files[p]| + SumSizes(files - {p})
  }

  predicate OverCount(t: Tree) { |t.files| > MAX_SNAPSHOT_FILES }

  ghost predicate OverBytes(t: Tree) { SumSizes(t.files) > MAX_SNAPSHOT_BYTES }

  /** What each error says about the tree. */
  ghost predicate Excuses(t: Tree, e: SnapshotError) {
    match e
    case MissingRoot => !HasRoots(t)
    case NoFiles => t.files == map[]
    case TooManyFiles => OverCount(t)
    case TooManyBytes => OverBytes(t)
    case _ => Faulty(t, [], e)
  }

  // The digest

  class Digest {
    var hashed: seq<Byte>

    constructor ()
      ensures hashed == []
    {
      hashed := [];
    }

    method Update(chunk: seq<Byte>)
      modifies this
      ensures hashed == old(hashed) + chunk
    {
      hashed := hashed + chunk;
    }

    /** Reads the content chunk by chunk. */
    method UpdateFrom(content: seq<Byte>)
      modifies this
      ensures hashed == old(hashed) + content
    {
      var at := 0;
      while at < |content|
        invariant at <= |content| && hashed == old(hashed) + content[..at]
      {
        var end := if |content| - at < CHUNK_BYTES then |content| else at + CHUNK_BYTES;
        Update(content[at..end]);
        assert content[..at] + content[at..end] == content[..end];
        at := end;
      }
    }

    method UpdateItem(i: Item)
      modifies this
      ensures hashed == old(hashed) + Framed(i)
    {
      hide Utf8.Encode, SizeText;
      Update(Utf8.Encode(i.path));
      Update([0]);
      Update(SizeText(i.size));
      Update([0]);
      UpdateFrom(i.content);
      Update([0]);
    }
  }

  function KeyedFiles(files: seq<SnapshotFile>): (keyed: seq<Keyed<SnapshotFile>>)
    ensures |keyed| == |files|
    ensures forall k :: 0 <= k < |files| ==> keyed[k] == Keyed(PathKey(files[k].path), files[k])
  {
    seq(|files|, k requires 0 <= k < |files| => Keyed(PathKey(files[k].path), files[k]))
  }

  lemma KeysDiffer(t: Tree, files: seq<SnapshotFile>)
    requires WellFormed(t) && Lists(t, [[]], files)
    ensures DifferentKeys(KeyedFiles(files))
  {
    hide PathKey, IsPath, Under;
    forall k, l | 0 <= k < l < |files| ensures PathKey(files[k].path) != PathKey(files[l].path) {
      if PathKey(files[k].path) == PathKey(files[l].path) {
        PathKeyInjective(files[k].path, files[l].path);
      }
    }
  }

  /** A sorted rearrangement of a scan's list is the listing of the tree. */
  lemma SortedIsListing(t: Tree, files: seq<SnapshotFile>, s: seq<Keyed<SnapshotFile>>, sorted: seq<SnapshotFile>)
    requires Lists(t, [[]], files) && StrictlySorted(s)
    requires forall x :: x in s <==> x in KeyedFiles(files)
    requires |sorted| == |s| && forall k :: 0 <= k < |s| ==> sorted[k] == s[k].value
    ensures Listing(t, sorted)
  {
    hide PathKey, LexLess;
    var keyed := KeyedFiles(files);
    forall k | 0 <= k < |s| ensures s[k].key == PathKey(s[k].value.path) && s[k].value in files {
      assert s[k] in keyed;
      var j :| 0 <= j < |keyed| && keyed[j] == s[k];
      assert files[j] in files;
    }
    forall p | p in t.files ensures exists k :: 0 <= k < |sorted| && sorted[k].path == p {
      assert [[]][0] <= p;
      var j :| 0 <= j < |files| && files[j].path == p;
      assert keyed[j] in s;
      var k :| 0 <= k < |s| && s[k] == keyed[j];
      assert sorted[k].path == p;
    }
  }

  /** files.sort(key=path bytes) */
  method SortFiles(t: Tree, files: seq<SnapshotFile>) returns (sorted: seq<SnapshotFile>)
    requires WellFormed(t) && Lists(t, [[]], files)
    ensures Listing(t, sorted)
  {
    hide PathKey, Sort, LexLess, WellFormed, Lists, Listing, KeyedFiles;
    KeysDiffer(t, files);
    SortOrders(KeyedFiles(files));
    var s := Sort(KeyedFiles(files));
    sorted := seq(|s|, k requires 0 <= k < |s| => s[k].value);
    SortedIsListing(t, files, s, sorted);
  }

  method TotalBytes(files: seq<SnapshotFile>) returns (total: nat)
    ensures total == Total(files)
  {
    total := 0;
    for k := 0 to |files|
      invariant total == Total(files[..k])
    {
      total := total + files[k].size;
      assert files[..k + 1][..k] == files[..k];
    }
    assert files[..|files|] == files;
  }

  method Hash(t: Tree, files: seq<SnapshotFile>) returns (hashed: seq<Byte>)
    ensures hashed == Stream(Items(t, files))
  {
    hide Framed, ItemOf;
    var digest := new Digest();
    ghost var items := Items(t, files);
    assert items[..0] == [];
    for k := 0 to |files|
      invariant digest.hashed == Stream(items[..k])
    {
      digest.UpdateItem(ItemOf(t, files[k]));
      StreamMore(items[..k], items[k]);
      assert items[..k + 1] == items[..k] + [items[k]];
    }
    assert items[..|files|] == items;
    hashed := digest.hashed;
  }

  method ComputeContentInventory(t: Tree) returns (r: Result<Report, SnapshotError>)
    requires WellFormed(t)
    ensures r.Ok? <==> HasRoots(t) && Clean(t, []) && !OverCount(t) && !OverBytes(t)
    ensures r.Ok? ==> Reports(t, r.value) && 0 < r.value.count <= MAX_SNAPSHOT_FILES && r.value.total <= MAX_SNAPSHOT_BYTES
    ensures r.Err? ==> Excuses(t, r.error)
  {
    hide WellFormed, Clean, Faulty, Lists, Stream, Items, Listing, Total, Covers, EntryFault;
    if (exists n | n in ROOT_FILES :: [n] !in t.files) || (exists n | n in ROOT_DIRECTORIES :: [n] !in t.dirs) {
      RootsMissing(t);
      return Err(MissingRoot);
    }
    var scan := new Scan();
    RootExists(t);
    var error := scan.ScanDirectory(t, []);
    if error.Some? {
      ScanFaults(t, error.value);
      FaultyIsNotClean(t, [], error.value);
      return Err(error.value);
    }
    assert scan.files[0..] == scan.files;
    var files := SortFiles(t, scan.files);
    ListingCovers(t, files);
    ListedSizes(t.files, files);
    if files == [] {
      NoListing(t);
      return Err(NoFiles);
    }
    if |files| > MAX_SNAPSHOT_FILES { return Err(TooManyFiles); }
    var total := TotalBytes(files);
    if total > MAX_SNAPSHOT_BYTES { return Err(TooManyBytes); }
    var hashed := Hash(t, files);
    r := Ok(Report(files, |files|, total, hashed));
  }

  lemma RootsMissing(t: Tree)
    requires !HasRoots(t)
    ensures Excuses(t, MissingRoot)
  {
  }

  // Count and total, read off the tree

  lemma {:induction false} SumWithout(files: map<Path, Content>, p: Path)
    requires p in files
    ensures SumSizes(files) == |files[p]| + SumSizes(files - {p})
    decreases files.Keys
  {
    var q :| q in files && SumSizes(files) == |files[q]| + SumSizes(files - {q});
    if q != p {
      SumWithout(files - {q}, p);
      SumWithout(files - {p}, q);
      assert files - {q} - {p} == files - {p} - {q};
    }
  }

  /** `listed` names every file once with its size. */
  ghost predicate Covers(files: map<Path, Content>, listed: seq<SnapshotFile>) {
    && (forall k :: 0 <= k < |listed| ==> listed[k].path in files && listed[k].size == |files[listed[k].path]|)
    && (forall p :: p in files ==> exists k :: 0 <= k < |listed| && listed[k].path == p)
    && (forall k, l :: 0 <= k < l < |listed| ==> listed[k].path != listed[l].path)
  }

  lemma ListingCovers(t: Tree, files: seq<SnapshotFile>)
    requires Listing(t, files)
    ensures Covers(t.files, files)
  {
    hide PathKey, LexLess;
    forall k, l | 0 <= k < l < |files| ensures files[k].path != files[l].path {
      Irreflexive(PathKey(files[k].path));
    }
  }

  lemma CoversMost(files: map<Path, Content>, listed: seq<SnapshotFile>)
    requires Covers(files, listed) && listed != []
    ensures listed[|listed| - 1].path in files
    ensures listed[|listed| - 1].size == |files[listed[|listed| - 1].path]|
    ensures Covers(files - {listed[|listed| - 1].path}, listed[..|listed| - 1])
  {
    var most, last := listed[..|listed| - 1], listed[|listed| - 1];
    forall p | p in files - {last.path} ensures exists k :: 0 <= k < |most| && most[k].path == p {
      var k :| 0 <= k < |listed| && listed[k].path == p;
      assert most[k].path == p;
    }
  }

  lemma CoversNothing(files: map<Path, Content>)
    requires Covers(files, [])
    ensures files == map[]
  {
    assert files.Keys == {};
  }

  /** So the count and the total do not depend on the listing. */
  lemma {:induction false} ListedSizes(files: map<Path, Content>, listed: seq<SnapshotFile>)
    requires Covers(files, listed)
    ensures |listed| == |files| && Total(listed) == SumSizes(files)
    decreases |listed|
  {
    hide Covers;
    if listed == [] {
      CoversNothing(files);
    } else {
      var p := listed[|listed| - 1].path;
      CoversMost(files, listed);
      SumWithout(files, p);
      ListedSizes(files - {p}, listed[..|listed| - 1]);
      assert files.Keys == (files - {p}).Keys + {p};
      assert |files| == |files.Keys| && |files - {p}| == |(files - {p}).Keys|;
    }
  }

  lemma NoListing(t: Tree)
    requires Listing(t, [])
    ensures t.files == map[] && !HasRoots(t)
  {
    assert t.files.Keys == {};
    assert "AGENTS.md" in ROOT_FILES;
  }

  lemma RootExists(t: Tree)
    requires WellFormed(t)
    ensures [] in t.dirs
  {
  }

  lemma ScanFaults(t: Tree, e: SnapshotError)
    requires Faulty(t, [], e)
    ensures Excuses(t, e)
  {
  }

  // The inventory is a function of the tree

  /** Two listings of a tree are the same, in whatever order its directories were enumerated. */
  lemma OneListing(t: Tree, a: seq<SnapshotFile>, b: seq<SnapshotFile>)
    requires Listing(t, a) && Listing(t, b)
    ensures a == b
  {
    hide PathKey, LexLess;
    var s, u := KeyedFiles(a), KeyedFiles(b);
    forall x | x in s ensures x in u { SameEntries(t, a, b, x); }
    forall x | x in u ensures x in s { SameEntries(t, b, a, x); }
    OneOrder(s, u);
    assert forall k :: 0 <= k < |a| ==> a[k] == s[k].value == u[k].value == b[k];
  }

  lemma SameEntries(t: Tree, a: seq<SnapshotFile>, b: seq<SnapshotFile>, x: Keyed<SnapshotFile>)
    requires Listing(t, a) && Listing(t, b) && x in KeyedFiles(a)
    ensures x in KeyedFiles(b)
  {
    hide PathKey, LexLess;
    var k :| 0 <= k < |a| && KeyedFiles(a)[k] == x;
    var l :| 0 <= l < |b| && b[l].path == a[k].path;
    assert b[l] == a[k];
    assert KeyedFiles(b)[l] == x;
  }

  /** So a second inventory of the same tree matches the manifest of the first. */
  lemma OneReport(t: Tree, a: Report, b: Report)
    requires Reports(t, a) && Reports(t, b)
    ensures a == b
  {
    OneListing(t, a.files, b.files);
  }

  /** Equal digest streams mean equal corpora: the same paths with the same bytes. */
  lemma StreamDeterminesTree(t: Tree, a: Report, u: Tree, b: Report)
    requires WellFormed(t) && WellFormed(u) && Reports(t, a) && Reports(u, b) && a.hashed == b.hashed
    ensures t.files == u.files && a == b
  {
    hide Listing, WellFormed, Items, Stream, Honest, Total;
    AllHonest(t, a.files);
    AllHonest(u, b.files);
    StreamInjective(Items(t, a.files), Items(u, b.files));
    SameFiles(t, a.files, u, b.files);
    SameFiles(u, b.files, t, a.files);
    assert t.files == u.files;
    ListingReadsFiles(u, t, b.files);
    OneListing(t, a.files, b.files);
  }

  lemma ListingReadsFiles(t: Tree, u: Tree, files: seq<SnapshotFile>)
    requires Listing(t, files) && t.files == u.files
    ensures Listing(u, files)
  {
  }

  lemma AllHonest(t: Tree, files: seq<SnapshotFile>)
    requires WellFormed(t) && Listing(t, files)
    ensures forall k :: 0 <= k < |files| ==> Honest(Items(t, files)[k])
  {
    hide PathKey, LexLess;
    forall k | 0 <= k < |files| ensures Honest(ItemOf(t, files[k])) {
      var p := files[k].path;
      assert forall i :: 0 <= i < |p| ==> IsName(p[i]);
      InJoined(p, '/', '\0');
    }
  }

  lemma SameFiles(t: Tree, a: seq<SnapshotFile>, u: Tree, b: seq<SnapshotFile>)
    requires WellFormed(t) && WellFormed(u) && Listing(t, a) && Listing(u, b) && Items(t, a) == Items(u, b)
    ensures forall p :: p in t.files ==> p in u.files && u.files[p] == t.files[p]
  {
    hide PathKey, LexLess;
    forall p | p in t.files ensures p in u.files && u.files[p] == t.files[p] {
      var k :| 0 <= k < |a| && a[k].path == p;
      var q := b[k].path;
      assert ItemOf(t, a[k]) == Items(t, a)[k] == Items(u, b)[k] == ItemOf(u, b[k]);
      assert forall i :: 0 <= i < |p| ==> IsName(p[i]);
      assert forall i :: 0 <= i < |q| ==> IsName(q[i]);
      SplitJoin(p, '/');
      SplitJoin(q, '/');
    }
  }
}
