/** Content IDs of the files that a validated snapshot holds. */
module SnapshotIds {
  import opened Basics
  import opened AdmittedPaths
  import opened Export
  import opened Inventory
  import opened ContentId
  import Utf8

  /** The repository paths of a snapshot's files. */
  function FilePaths(t: Tree): set<string> { set p | p in t.files :: Posix(p) }

  lemma CleanFileIsInCorpus(t: Tree, p: Path)
    requires WellFormed(t) && Clean(t, []) && p in t.files
    ensures InCorpus(p) && InCorpus(Split(Posix(p), '/'))
  {
    hide Judge, InCorpus;
    assert [] < p;
    assert EntryFault(t, p) == None;
    JudgeNames(p);
    assert forall i :: 0 <= i < |p| ==> IsName(p[i]);
    SplitJoin(p, '/');
  }

  /**
   Every file of a snapshot that the validator accepts gets an ID under every commit. The ID leads
   back to that file, unless its path is over 6100 bytes; under another commit it is stale.
  */
  lemma EveryFileIsAddressable(t: Tree, p: Path, commit: string, active: string)
    requires WellFormed(t) && Clean(t, []) && p in t.files && IsCommit(commit) && |Utf8.Encode(Posix(p))| <= 6100
    ensures EncodeContentId(commit, Posix(p)).Ok?
    ensures Resolve(active, FilePaths(t), EncodeContentId(commit, Posix(p)).value) ==
              if commit == active then Ok(Posix(p)) else Err(Stale)
  {
    hide Clean, WellFormed, InCorpus, IsCommit, EncodeContentId, Resolve, Utf8.Encode;
    CleanFileIsInCorpus(t, p);
    assert Posix(p) in FilePaths(t);
    Resolves(commit, Posix(p), active, FilePaths(t));
  }

  /** No ID leads outside the snapshot: what resolves is one of its files. */
  lemma OnlyFilesResolve(t: Tree, active: string, id: string)
    requires Resolve(active, FilePaths(t), id).Ok?
    ensures exists p :: p in t.files && Posix(p) == Resolve(active, FilePaths(t), id).value
  {
    hide EncodeContentId, DecodeContentId, ValidateRelativePath, InCorpus;
    var path := Resolve(active, FilePaths(t), id).value;
    assert path in FilePaths(t);
  }
}
