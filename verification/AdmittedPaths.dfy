/** Which repository paths belong to the exported corpus. */
module AdmittedPaths {
  import opened Basics

  const ROOT_FILES: set<string> := {"AGENTS.md", "README.md", "Makefile"}
  const ROOT_DIRECTORIES: set<string> := {"src", "instrument", "tools", "docs", "web"}
  const ALLOWED_SUFFIXES: set<string> :=
    {".md", ".txt", ".rst", ".c", ".h", ".cc", ".cpp", ".py", ".java", ".sh", ".js", ".css", ".html", ".toml", ".json",
     ".yaml", ".yml", ".csv", ".tsv"}
  const EXCLUDED_FILES: set<string> :=
    {"src/engine/stb_image.h", "src/engine/glad.c", "src/engine/glad.h", "src/engine/cgltf.h"}

  function VendorDirectory(): string { "web/grn-catalog/vendor" }

  function ExcludedPrefix(): string { VendorDirectory() + "/" }

  /** The pieces between slashes that pathlib keeps. */
  function KeptPieces(pieces: seq<string>): seq<string> {
    if pieces == [] then []
    else (if pieces[0] == "" || pieces[0] == "." then [] else [pieces[0]]) + KeptPieces(pieces[1..])
  }

  /** PurePosixPath(raw).parts of a relative path. */
  function PosixParts(raw: string): seq<string> { KeptPieces(Split(raw, '/')) }

  function LastDot(s: string): (k: int)
    ensures -1 <= k < |s|
    ensures k >= 0 ==> s[k] == '.'
    ensures forall i :: k < i < |s| ==> s[i] != '.'
  {
    if s == "" then -1
    else if s[|s| - 1] == '.' then |s| - 1
    else LastDot(s[..|s| - 1])
  }

  /** PurePosixPath.suffix of a path whose last part is `name`. */
  function Suffix(name: string): string {
    var k := LastDot(name);
    if 0 < k < |name| - 1 then name[k..] else ""
  }

  // Besides the ASCII letters, no character lowers into a letter that an allowed suffix holds.

  datatype Verdict = Admitted | Refused | IndexError

  /** is_admitted_repository_path, which indexes an empty tuple for "." and its like. */
  function Judge(raw: string): Verdict {
    if raw == "" || '\0' in raw || '\\' in raw then Refused
    else
      var parts := PosixParts(raw);
      if raw[0] == '/' || (exists i | 0 <= i < |parts| :: parts[i] in {"", ".", ".."} || "." <= parts[i]) then Refused
      else if raw in EXCLUDED_FILES || ExcludedPrefix() <= raw then Refused
      else if |parts| == 1 then (if raw in ROOT_FILES then Admitted else Refused)
      else if parts == [] then IndexError
      else if parts[0] !in ROOT_DIRECTORIES then Refused
      else if LowerAscii(Suffix(parts[|parts| - 1])) in ALLOWED_SUFFIXES then Admitted
      else Refused
  }

  /** A directory entry's name. */
  predicate IsName(n: string) {
    n != "" && n != "." && n != ".." && '/' !in n && '\0' !in n
  }

  /** A name the corpus may hold. */
  predicate IsPlain(n: string) {
    n != "" && '/' !in n && '\0' !in n && '\\' !in n && n[0] != '.'
  }

  type Path = seq<string>

  predicate IsPath(p: Path) { forall i :: 0 <= i < |p| ==> IsName(p[i]) }

  function Posix(p: Path): string { Join(p, '/') }

  /** The policy, stated on the names along a path. */
  predicate InCorpus(p: Path) {
    && p != []
    && (forall i :: 0 <= i < |p| ==> IsPlain(p[i]))
    && Posix(p) !in EXCLUDED_FILES
    && !(ExcludedPrefix() <= Posix(p))
    && if |p| == 1 then p[0] in ROOT_FILES
       else p[0] in ROOT_DIRECTORIES && LowerAscii(Suffix(p[|p| - 1])) in ALLOWED_SUFFIXES
  }

  // Joined paths

  /** A character other than the separator occurs in a joined path when it occurs in a name. */
  lemma {:induction false} InJoined(p: Path, sep: char, c: char)
    requires c != sep
    ensures c in Join(p, sep) <==> exists i :: 0 <= i < |p| && c in p[i]
  {
    if |p| == 1 {
      assert p[0] == Join(p, sep);
    } else if |p| > 1 {
      InJoined(p[1..], sep, c);
      assert Join(p, sep) == p[0] + ([sep] + Join(p[1..], sep));
      if exists i :: 0 <= i < |p| && c in p[i] {
        var i :| 0 <= i < |p| && c in p[i];
        if i > 0 { assert p[i] == p[1..][i - 1]; }
      }
      if i :| 0 <= i < |p[1..]| && c in p[1..][i] { assert p[1..][i] == p[i + 1]; }
    }
  }

  lemma JoinedFirst(p: Path, sep: char)
    requires p != [] && p[0] != ""
    ensures Join(p, sep) != "" && Join(p, sep)[0] == p[0][0]
  {
  }

  lemma {:induction false} KeepsNames(p: Path)
    requires forall i :: 0 <= i < |p| ==> p[i] != "" && p[i] != "."
    ensures KeptPieces(p) == p
  {
    if p != [] {
      KeepsNames(p[1..]);
    }
  }

  /** On names joined by slashes the string test is the policy, and it never crashes. */
  lemma JudgeNames(p: Path)
    requires p != [] && IsPath(p)
    ensures Judge(Posix(p)) == if InCorpus(p) then Admitted else Refused
  {
    hide Split, LastDot, Suffix, LowerAscii, ExcludedPrefix, VendorDirectory;
    SplitJoin(p, '/');
    KeepsNames(p);
    InJoined(p, '/', '\0');
    InJoined(p, '/', '\\');
    JoinedFirst(p, '/');
    var raw := Posix(p);
    assert forall i :: 0 <= i < |p| ==> IsName(p[i]);
    assert PosixParts(raw) == p;
    assert '\0' !in raw;
    assert '\\' in raw <==> exists i :: 0 <= i < |p| && '\\' in p[i];
    assert forall i :: 0 <= i < |p| ==> (p[i][0] == '.' <==> "." <= p[i]);
    assert |p| == 1 ==> raw == p[0];
  }

  /** The string test crashes on exactly the relative paths whose every piece is empty or a dot. */
  lemma JudgeCrashes(raw: string)
    ensures Judge(raw) == IndexError <==>
              raw != "" && raw[0] != '/' && OnlyDots(Split(raw, '/'))
  {
    hide Judge, Split, KeptPieces, OnlyDots;
    KeptNone(Split(raw, '/'));
    CrashesWithoutParts(raw);
  }

  /** That is, on those that pathlib reads as the empty path. */
  lemma CrashesWithoutParts(raw: string)
    ensures Judge(raw) == IndexError <==> raw != "" && raw[0] != '/' && PosixParts(raw) == []
  {
    hide Split, Join, Suffix, LowerAscii, KeptPieces;
    var pieces := Split(raw, '/');
    KeptNone(pieces);
    if PosixParts(raw) == [] {
      forall c: char | c != '/' && c != '.' ensures c !in raw {
        InJoined(pieces, '/', c);
      }
      assert 's' !in raw && 'w' !in raw && '\0' !in raw && '\\' !in raw;
      assert forall f :: f in EXCLUDED_FILES ==> f[0] == 's';
      assert ExcludedPrefix()[0] == 'w';
    }
  }

  predicate OnlyDots(pieces: seq<string>) { forall i :: 0 <= i < |pieces| ==> pieces[i] == "" || pieces[i] == "." }

  lemma {:induction false} KeptNone(pieces: seq<string>)
    ensures KeptPieces(pieces) == [] <==> OnlyDots(pieces)
  {
    if pieces != [] {
      KeptNone(pieces[1..]);
      assert pieces == [pieces[0]] + pieces[1..];
      assert forall i :: 0 < i < |pieces| ==> pieces[i] == pieces[1..][i - 1];
      assert forall i :: 0 <= i < |pieces| - 1 ==> pieces[1..][i] == pieces[i + 1];
    }
  }

  // validate_relative_path

  predicate HasDrive(raw: string) {
    |raw| >= 2 && raw[1] == ':' && ('a' <= raw[0] <= 'z' || 'A' <= raw[0] <= 'Z')
  }

  predicate HasDoubleSlash(raw: string) {
    exists i | 0 <= i < |raw| - 1 :: raw[i] == '/' && raw[i + 1] == '/'
  }

  datatype PathError = Unsafe | Crashed

  function ValidateRelativePath(raw: string): Result<string, PathError> {
    if raw == "" || '\0' in raw || '\\' in raw || HasDoubleSlash(raw) then Err(Unsafe)
    else if raw[0] == '/' || HasDrive(raw) then Err(Unsafe)
    else
      var pieces := Split(raw, '/');
      if exists i | 0 <= i < |pieces| :: pieces[i] in {"", ".", ".."} || "." <= pieces[i] then Err(Unsafe)
      else
        match Judge(raw)
        case Admitted => Ok(Posix(PosixParts(raw)))
        case Refused => Err(Unsafe)
        case IndexError => Err(Crashed)
  }

  lemma CorpusHasNoDrive(p: Path)
    requires InCorpus(p)
    ensures !HasDrive(Posix(p))
  {
    hide ExcludedPrefix;
    var raw := Posix(p);
    if |p| == 1 {
      assert raw == p[0];
    } else {
      assert |p[0]| >= 3;
      assert raw[0] == p[0][0] && raw[1] == p[0][1];
    }
  }

  /** Two slashes in a row leave an empty piece between them. */
  lemma {:induction false} DoubleSlashSplits(raw: string)
    requires HasDoubleSlash(raw)
    ensures "" in Split(raw, '/')
    decreases |raw|
  {
    var i :| 0 <= i < |raw| - 1 && raw[i] == '/' && raw[i + 1] == '/';
    var k := IndexOf(raw, '/', 0);
    var rest := raw[k + 1..];
    assert Split(raw, '/') == [raw[..k]] + Split(rest, '/');
    if i == k {
      assert rest[0] == '/';
      assert IndexOf(rest, '/', 0) == 0;
      assert Split(rest, '/')[0] == rest[..0];
    } else {
      assert rest[i - k - 1] == '/' && rest[i - k] == '/';
      DoubleSlashSplits(rest);
    }
  }

  /** A path is accepted, unchanged, exactly when its pieces satisfy the policy; nothing crashes. */
  lemma ValidatesCorpus(raw: string)
    ensures ValidateRelativePath(raw) == if InCorpus(Split(raw, '/')) then Ok(raw) else Err(Unsafe)
  {
    hide LastDot, Suffix, LowerAscii, ExcludedPrefix, VendorDirectory, Judge, HasDrive, HasDoubleSlash, Split, Join, KeptPieces;
    var pieces := Split(raw, '/');
    assert Posix(pieces) == raw;
    InJoined(pieces, '/', '\0');
    InJoined(pieces, '/', '\\');
    if HasDoubleSlash(raw) { DoubleSlashSplits(raw); }
    if InCorpus(pieces) {
      CorpusHasNoDrive(pieces);
      JoinedFirst(pieces, '/');
    }
    if raw != "" && '\0' !in raw && forall i :: 0 <= i < |pieces| ==> pieces[i] !in {"", ".", ".."} {
      assert IsPath(pieces);
      JudgeNames(pieces);
      KeepsNames(pieces);
    }
  }

  // The policy in its own terms

  /** A nonempty suffix is a dot and at least one more character, none of them a dot, after a nonempty stem. */
  lemma SuffixIs(name: string, ext: string)
    requires ext != ""
    ensures Suffix(name) == ext <==>
              |name| > |ext| > 1 && name[|name| - |ext|..] == ext && ext[0] == '.' && '.' !in ext[1..]
  {
    var k := LastDot(name);
    if |name| > |ext| && name[|name| - |ext|..] == ext && ext[0] == '.' && '.' !in ext[1..] {
      var cut := |name| - |ext|;
      assert name[cut] == '.';
      forall i | cut < i < |name| ensures name[i] != '.' { assert name[i] == ext[1..][i - cut - 1]; }
      assert k == cut;
    }
    if Suffix(name) == ext { assert forall i :: 0 < i < |ext| ==> ext[i] == name[k + i]; }
  }

  /** A nonempty stem and then `ext`, in any mix of cases. */
  predicate EndsIn(name: string, ext: string) {
    |name| > |ext| && SameLetters(name[|name| - |ext|..], ext)
  }

  /** The extensions that the corpus admits. */
  function Extensions(): set<string> {
    {".md", ".txt", ".rst", ".c", ".h", ".cc", ".cpp", ".py", ".java", ".sh", ".js", ".css", ".html", ".toml", ".json",
     ".yaml", ".yml", ".csv", ".tsv"}
  }

  /** What belongs to the corpus, name by name. */
  ghost predicate Belongs(p: Path) {
    && p != []
    && (forall i :: 0 <= i < |p| ==> IsPlain(p[i]))
    && p !in {["src", "engine", "stb_image.h"], ["src", "engine", "glad.c"], ["src", "engine", "glad.h"], ["src", "engine", "cgltf.h"]}
    && !(["web", "grn-catalog", "vendor"] < p)
    && if |p| == 1 then p[0] in {"AGENTS.md", "README.md", "Makefile"}
       else p[0] in {"src", "instrument", "tools", "docs", "web"} && exists ext :: ext in Extensions() && EndsIn(p[|p| - 1], ext)
  }

  predicate IsExtension(ext: string) {
    |ext| > 1 && ext[0] == '.' && forall i :: 1 <= i < |ext| ==> 'a' <= ext[i] <= 'z'
  }

  lemma ExtensionsAre()
    ensures forall ext :: ext in Extensions() ==> IsExtension(ext)
  {
  }

  lemma SuffixEndsIn(name: string, ext: string)
    requires IsExtension(ext)
    ensures LowerAscii(Suffix(name)) == ext <==> EndsIn(name, ext)
  {
    assert LowerAscii(ext) == ext;
    var s := Suffix(name);
    LowerAsciiFolds(s, ext);
    if LowerAscii(s) == ext {
      assert |s| == |ext|;
      SuffixIs(name, s);
    }
    if EndsIn(name, ext) {
      var end := name[|name| - |ext|..];
      LowerAsciiFolds(end, ext);
      assert SameLetter(end[0], ext[0]);
      forall i | 0 <= i < |end[1..]| ensures end[1..][i] != '.' { assert SameLetter(end[i + 1], ext[i + 1]); }
      SuffixIs(name, end);
    }
  }

  lemma AllowedSuffix(name: string)
    ensures LowerAscii(Suffix(name)) in ALLOWED_SUFFIXES <==> exists ext :: ext in Extensions() && EndsIn(name, ext)
  {
    hide EndsIn, LowerAscii, Suffix;
    ExtensionsAre();
    assert ALLOWED_SUFFIXES == Extensions();
    forall ext | ext in Extensions() ensures LowerAscii(Suffix(name)) == ext <==> EndsIn(name, ext) {
      SuffixEndsIn(name, ext);
    }
  }

  lemma PosixInjective(p: Path, q: Path)
    requires p != [] && q != []
    requires forall i :: 0 <= i < |p| ==> '/' !in p[i]
    requires forall i :: 0 <= i < |q| ==> '/' !in q[i]
    ensures Posix(p) == Posix(q) <==> p == q
  {
    SplitJoin(p, '/');
    SplitJoin(q, '/');
  }

  function EngineFile(name: string): string { "src/engine/" + name }

  lemma EngineFileNames(name: string)
    requires '/' !in name
    ensures Posix(["src", "engine", name]) == EngineFile(name)
  {
    var p := ["src", "engine", name];
    assert p[1..] == ["engine", name] && p[1..][1..] == [name];
    assert Join(p[1..], '/') == "engine" + (['/'] + Join([name], '/'));
  }

  lemma ExcludedFilesAre()
    ensures EXCLUDED_FILES == {EngineFile("stb_image.h"), EngineFile("glad.c"), EngineFile("glad.h"), EngineFile("cgltf.h")}
    ensures forall name :: name in {"stb_image.h", "glad.c", "glad.h", "cgltf.h"} ==> '/' !in name
  {
    assert EngineFile("stb_image.h") == "src/engine/stb_image.h";
    assert EngineFile("glad.c") == "src/engine/glad.c";
    assert EngineFile("glad.h") == "src/engine/glad.h";
    assert EngineFile("cgltf.h") == "src/engine/cgltf.h";
  }

  lemma Excluded(p: Path)
    requires p != [] && forall i :: 0 <= i < |p| ==> '/' !in p[i]
    ensures Posix(p) in EXCLUDED_FILES <==>
              p in {["src", "engine", "stb_image.h"], ["src", "engine", "glad.c"], ["src", "engine", "glad.h"], ["src", "engine", "cgltf.h"]}
  {
    hide Posix, Join, Split, EngineFile;
    ExcludedFilesAre();
    IsEngineFile(p, "stb_image.h");
    IsEngineFile(p, "glad.c");
    IsEngineFile(p, "glad.h");
    IsEngineFile(p, "cgltf.h");
  }

  lemma IsEngineFile(p: Path, name: string)
    requires p != [] && '/' !in name && forall i :: 0 <= i < |p| ==> '/' !in p[i]
    ensures Posix(p) == EngineFile(name) <==> p == ["src", "engine", name]
  {
    hide Posix, Join, Split, EngineFile;
    EngineFileNames(name);
    PosixInjective(p, ["src", "engine", name]);
  }

  /** Reading a name and a slash off the front of a joined path. */
  lemma JoinedPrefix(p: Path, name: string, rest: string)
    requires p != [] && '/' !in name && forall i :: 0 <= i < |p| ==> '/' !in p[i]
    ensures name + ['/'] + rest <= Posix(p) <==> |p| > 1 && p[0] == name && rest <= Posix(p[1..])
  {
    hide Split;
    var raw, head := Posix(p), name + ['/'] + rest;
    if head <= raw {
      var tail := raw[|name| + 1..];
      assert raw == name + (['/'] + tail);
      SplitFirst(name, tail, '/');
      SplitJoin(p, '/');
      assert |Split(tail, '/')| >= 1;
      assert Posix(p[1..]) == tail;
      assert rest == head[|name| + 1..] <= tail;
    }
    if |p| > 1 && p[0] == name && rest <= Posix(p[1..]) {
      assert raw == head + Posix(p[1..])[|rest|..];
    }
  }

  function VendorNames(): Path { ["web", "grn-catalog", "vendor"] }

  lemma VendorDirectoryIs(p: Path)
    requires p != [] && forall i :: 0 <= i < |p| ==> '/' !in p[i]
    ensures Posix(p) == VendorDirectory() <==> p == ["web", "grn-catalog", "vendor"]
  {
    hide Join, Split;
    JoinedVendor();
    PosixInjective(p, VendorNames());
  }

  lemma JoinedVendor()
    ensures Posix(VendorNames()) == VendorDirectory()
  {
    var p := VendorNames();
    assert p[1..] == ["grn-catalog", "vendor"] && p[1..][1..] == ["vendor"];
    assert Join(p[1..], '/') == "grn-catalog" + (['/'] + "vendor");
  }

  lemma ExcludedPrefixNames() returns (below: string, rest: string)
    ensures ExcludedPrefix() == "web" + ['/'] + below && below == "grn-catalog" + ['/'] + rest && rest == "vendor" + ['/'] + ""
  {
    rest := "vendor" + ['/'] + "";
    below := "grn-catalog" + ['/'] + rest;
  }

  lemma Vendored(p: Path)
    requires p != [] && forall i :: 0 <= i < |p| ==> '/' !in p[i]
    ensures ExcludedPrefix() <= Posix(p) <==> ["web", "grn-catalog", "vendor"] < p
  {
    hide Posix, Join, Split, ExcludedPrefix;
    var below, rest := ExcludedPrefixNames();
    JoinedPrefix(p, "web", below);
    if |p| > 1 {
      JoinedPrefix(p[1..], "grn-catalog", rest);
      if |p| > 2 { JoinedPrefix(p[2..], "vendor", ""); }
    }
  }

  /** The policy, without paths joined into text and without computing a suffix. */
  lemma PolicyMeans(p: Path)
    ensures InCorpus(p) <==> Belongs(p)
  {
    hide Posix, LowerAscii, Suffix, ExcludedPrefix, EndsIn, Extensions;
    if p != [] && forall i :: 0 <= i < |p| ==> IsPlain(p[i]) {
      Excluded(p);
      Vendored(p);
      AllowedSuffix(p[|p| - 1]);
    }
  }
}
