/** The files of a pull request as open_pr validates them. */
module OpenPrFiles {
  import opened Basics

  const MAX_FILES := 32
  const MAX_FILE_CHARS := 200_000
  const MAX_TOTAL_CHARS := 1_000_000
  const MAX_PATH_CHARS := 300

  /** A value an entry may hold in place of a text. */
  datatype Value = Text(text: string) | NotText

  /** An element of the argument: a path and content, or neither an object nor a proposed file. */
  datatype Entry = Entry(path: Value, content: Value) | Malformed

  datatype ProposedFile = ProposedFile(path: string, content: string)

  datatype Fault =
    | Count | NoObject | PathLength | PathCharacters | PathAbsolute | PathSegments | PathForbidden
    | Duplicate | NoText | FileTooLong | TotalTooLong

  function Git(): string { ".git" }

  function Github(): string { ".github" }

  function WorkflowDirectory(): string { "workflows" }

  function Workflows(): string { Github() + "/" + WorkflowDirectory() }

  lemma FixedNames()
    ensures Git() == ".git" && Github() == ".github" && WorkflowDirectory() == "workflows"
    ensures Git() != "" && Github() != "" && WorkflowDirectory() != ""
    ensures '/' !in Git() && '/' !in Github() && '/' !in WorkflowDirectory()
  {
  }

  function PathFault(path: Value): Option<Fault> {
    if path.NotText? || path.text == "" || |path.text| > MAX_PATH_CHARS then Some(PathLength)
    else
      var p := path.text;
      if exists i | 0 <= i < |p| :: IsControl(p[i]) || p[i] == '\\' then Some(PathCharacters)
      else if p[0] == '/' || p[|p| - 1] == '/' then Some(PathAbsolute)
      else
        var segments := Split(p, '/');
        if exists k | 0 <= k < |segments| :: segments[k] in {"", ".", ".."} then Some(PathSegments)
        else if p == Git() || p == Workflows() || Git() + "/" <= p || Workflows() + "/" <= p then Some(PathForbidden)
        else None
  }

  ghost predicate ValidEntry(e: Entry) {
    e.Entry? && PathFault(e.path) == None && e.content.Text? && |e.content.text| <= 200_000
  }

  function Total(entries: seq<Entry>): nat {
    if entries == [] then 0
    else
      var last := entries[|entries| - 1];
      Total(entries[..|entries| - 1]) + if last.Entry? && last.content.Text? then |last.content.text| else 0
  }

  ghost predicate Acceptable(entries: seq<Entry>) {
    && 1 <= |entries| <= 32
    && (forall k :: 0 <= k < |entries| ==> ValidEntry(entries[k]))
    && (forall j, k :: 0 <= j < k < |entries| ==> entries[j].path != entries[k].path)
    && Total(entries) <= 1_000_000
  }

  lemma {:induction false} TotalGrows(entries: seq<Entry>, k: nat)
    requires k <= |entries|
    ensures Total(entries[..k]) <= Total(entries)
    decreases |entries|
  {
    if k < |entries| {
      TotalGrows(entries[..|entries| - 1], k);
      assert entries[..|entries| - 1][..k] == entries[..k];
    } else {
      assert entries[..k] == entries;
    }
  }

  /** The state of the loop after `k` entries without a fault. */
  ghost predicate Checked(entries: seq<Entry>, k: nat, validated: seq<ProposedFile>, seen: set<string>)
    requires k <= |entries|
  {
    && |validated| == k
    && (forall i :: 0 <= i < k ==> ValidEntry(entries[i]))
    && (forall i :: 0 <= i < k ==> entries[i] == Entry(Text(validated[i].path), Text(validated[i].content)))
    && (forall i, j :: 0 <= i < j < k ==> entries[i].path != entries[j].path)
    && (forall p :: p in seen <==> exists i :: 0 <= i < k && entries[i].path == Text(p))
  }

  lemma CheckedMore(entries: seq<Entry>, k: nat, validated: seq<ProposedFile>, seen: set<string>, path: string, content: string)
    requires k < |entries| && Checked(entries, k, validated, seen) && ValidEntry(entries[k])
    requires entries[k] == Entry(Text(path), Text(content)) && path !in seen
    ensures Checked(entries, k + 1, validated + [ProposedFile(path, content)], seen + {path})
  {
    hide PathFault, ValidEntry;
    var more := seen + {path};
    forall p ensures p in more <==> exists i :: 0 <= i < k + 1 && entries[i].path == Text(p) {
      if p == path { assert entries[k].path == Text(p); }
      if i :| 0 <= i < k && entries[i].path == Text(p) { assert p in seen; }
    }
  }

  lemma Repeated(entries: seq<Entry>, k: nat, validated: seq<ProposedFile>, seen: set<string>)
    requires k < |entries| && Checked(entries, k, validated, seen)
    requires entries[k].Entry? && entries[k].path.Text? && entries[k].path.text in seen
    ensures !Acceptable(entries)
  {
    hide PathFault, ValidEntry;
    var i :| 0 <= i < k && entries[i].path == Text(entries[k].path.text);
    assert entries[i].path == entries[k].path;
  }

  lemma NotValid(entries: seq<Entry>, k: nat)
    requires k < |entries| && !ValidEntry(entries[k])
    ensures !Acceptable(entries)
  {
  }

  lemma AllChecked(entries: seq<Entry>, validated: seq<ProposedFile>, seen: set<string>)
    requires Checked(entries, |entries|, validated, seen)
    requires 1 <= |entries| <= MAX_FILES && Total(entries) <= MAX_TOTAL_CHARS
    ensures Acceptable(entries)
  {
    hide PathFault, ValidEntry;
  }

  /** Accepts exactly the acceptable lists, and returns the files in order. */
  method ValidateFiles(entries: seq<Entry>) returns (r: Result<seq<ProposedFile>, Fault>)
    ensures r.Ok? <==> Acceptable(entries)
    ensures r.Ok? ==> |r.value| == |entries| && forall k :: 0 <= k < |entries| ==>
              entries[k] == Entry(Text(r.value[k].path), Text(r.value[k].content))
  {
    hide PathFault, Checked, Acceptable;
    if entries == [] || |entries| > MAX_FILES {
      WrongCount(entries);
      return Err(Count);
    }
    var seen: set<string> := {};
    var validated: seq<ProposedFile> := [];
    var total := 0;
    NothingChecked(entries);
    for k := 0 to |entries|
      invariant Checked(entries, k, validated, seen) && total == Total(entries[..k]) <= MAX_TOTAL_CHARS
    {
      var entry := entries[k];
      assert entries[..k + 1][..k] == entries[..k];
      if !ValidEntry(entry) { NotValid(entries, k); }
      if entry.Malformed? { return Err(NoObject); }
      var fault := PathFault(entry.path);
      if fault.Some? { return Err(fault.value); }
      PathIsText(entry.path);
      var path := entry.path.text;
      if path in seen {
        Repeated(entries, k, validated, seen);
        return Err(Duplicate);
      }
      if entry.content.NotText? { return Err(NoText); }
      var content := entry.content.text;
      if |content| > MAX_FILE_CHARS { return Err(FileTooLong); }
      total := total + |content|;
      if total > MAX_TOTAL_CHARS {
        TooMuch(entries, k + 1);
        return Err(TotalTooLong);
      }
      CheckedMore(entries, k, validated, seen, path, content);
      seen := seen + {path};
      validated := validated + [ProposedFile(path, content)];
    }
    assert entries[..|entries|] == entries;
    AllChecked(entries, validated, seen);
    CheckedFiles(entries, validated, seen);
    r := Ok(validated);
  }

  lemma WrongCount(entries: seq<Entry>)
    ensures Acceptable(entries) ==> 1 <= |entries| <= MAX_FILES
  {
  }

  lemma NothingChecked(entries: seq<Entry>)
    ensures Checked(entries, 0, [], {})
  {
  }

  lemma CheckedFiles(entries: seq<Entry>, validated: seq<ProposedFile>, seen: set<string>)
    requires Checked(entries, |entries|, validated, seen)
    ensures |validated| == |entries|
    ensures forall k :: 0 <= k < |entries| ==> entries[k] == Entry(Text(validated[k].path), Text(validated[k].content))
  {
  }

  lemma TooMuch(entries: seq<Entry>, k: nat)
    requires k <= |entries| && Total(entries[..k]) > MAX_TOTAL_CHARS
    ensures !Acceptable(entries)
  {
    TotalGrows(entries, k);
  }

  lemma PathIsText(path: Value)
    requires PathFault(path) == None
    ensures path.Text?
  {
  }

  // Where accepted paths lead

  /** What the first segment is, read off the text. */
  lemma FirstSegment(path: string, name: string)
    requires name != "" && '/' !in name
    ensures Split(path, '/')[0] == name <==> path == name || name + "/" <= path
  {
    hide Split;
    var parts := Split(path, '/');
    if parts[0] == name && |parts| > 1 {
      assert path == name + (['/'] + Join(parts[1..], '/'));
    }
    if name + "/" <= path {
      var rest := path[|name| + 1..];
      assert path == name + (['/'] + rest);
      SplitFirst(name, rest, '/');
    }
    if path == name { SplitFirst(name, "", '/'); }
  }

  predicate StartsIn(segments: seq<string>, a: string, b: string) { |segments| >= 2 && segments[0] == a && segments[1] == b }

  lemma TwoSegments(path: string, a: string, b: string)
    requires a != "" && b != "" && '/' !in a && '/' !in b
    ensures StartsIn(Split(path, '/'), a, b) <==> path == a + "/" + b || a + "/" + b + "/" <= path
  {
    hide Split;
    FirstSegment(path, a);
    var head := a + "/";
    if head <= path {
      var rest := path[|head|..];
      assert path == head + rest && head + rest == a + (['/'] + rest);
      SplitFirst(a, rest, '/');
      FirstSegment(rest, b);
      RestStarts(head, b, rest);
      assert Split(path, '/') == [a] + Split(rest, '/');
    } else {
      if path == a { SplitFirst(a, "", '/'); }
      NotBelow(path, head, b);
    }
  }

  lemma NotBelow(path: string, head: string, b: string)
    requires !(head <= path)
    ensures path != head + b && !(head + b + "/" <= path)
  {
  }

  lemma RestStarts(head: string, b: string, rest: string)
    ensures b + "/" <= rest <==> head + b + "/" <= head + rest
    ensures rest == b <==> head + rest == head + b
  {
    assert (head + rest)[|head|..] == rest;
    if head + b + "/" <= head + rest {
      assert (head + rest)[|head|..|head| + |b| + 1] == b + "/";
    }
    if b + "/" <= rest { assert head + b + "/" == (head + rest)[..|head| + |b| + 1]; }
    if head + rest == head + b { assert (head + b)[|head|..] == b; }
  }

  /** A text that starts or ends with a slash has an empty segment. */
  lemma {:induction false} EdgesAreSegments(path: string)
    requires path != ""
    ensures path[0] == '/' ==> "" in Split(path, '/')
    ensures path[|path| - 1] == '/' ==> "" in Split(path, '/')
    decreases |path|
  {
    var k := IndexOf(path, '/', 0);
    if k < |path| {
      var rest := path[k + 1..];
      assert Split(path, '/') == [path[..k]] + Split(rest, '/');
      if rest == "" {
        assert Split(rest, '/') == [""];
      } else {
        EdgesAreSegments(rest);
      }
    }
  }

  predicate RealSegments(segments: seq<string>) {
    forall k :: 0 <= k < |segments| ==> segments[k] != "" && segments[k] != "." && segments[k] != ".."
  }

  predicate PlainText(p: string) { forall i :: 0 <= i < |p| ==> !IsControl(p[i]) && p[i] != '\\' }

  lemma PathFaultIs(p: string)
    ensures PathFault(Text(p)) == None <==>
              && 1 <= |p| <= MAX_PATH_CHARS && PlainText(p) && p[0] != '/' && p[|p| - 1] != '/'
              && RealSegments(Split(p, '/'))
              && p != Git() && p != Workflows() && !(Git() + "/" <= p) && !(Workflows() + "/" <= p)
  {
    hide IsControl, Split, Git, Workflows;
  }

  /** Exactly the plain texts of real segments are accepted that lie neither in .git nor in the workflow directory. */
  lemma AcceptedPathStaysOut(p: string)
    ensures PathFault(Text(p)) == None <==>
              && 1 <= |p| <= 300 && PlainText(p) && RealSegments(Split(p, '/'))
              && Split(p, '/')[0] != ".git" && !StartsIn(Split(p, '/'), ".github", "workflows")
  {
    hide PlainText, Split, PathFault, Git, Github, WorkflowDirectory, StartsIn;
    FixedNames();
    PathFaultIs(p);
    FirstSegment(p, Git());
    TwoSegments(p, Github(), WorkflowDirectory());
    if p != "" { EdgesAreSegments(p); }
  }
}
