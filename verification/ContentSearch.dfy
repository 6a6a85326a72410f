/** Bounded literal search with two engines that share one post-processing path. */
module ContentSearch {
  import opened Basics
  import opened LexOrder

  const MAX_QUERY_CHARS := 200
  const MAX_SEARCH_RESULTS := 50
  const MAX_MATCHES_PER_FILE := 20
  const MAX_MATCH_TEXT_CHARS := 500
  const MAX_SEARCH_CONTENT_CHARS := 10_000

  datatype Scope = All | Source | Docs | Re | Tasks

  datatype Kind = Task | ReverseEngineering | Documentation | SourceCode

  /** A classified file of the snapshot with the text it is read as. */
  datatype File = File(path: string, text: string, kind: Kind, scopes: set<Scope>)

  /** str.casefold() and the title rule, which the search only passes through. */
  datatype Text = Text(fold: string -> string, title: (string, string) -> string)

  datatype Match = Match(line: int, text: string)

  datatype Found = Found(path: string, title: string, kind: Kind, matches: seq<Match>, content: Option<string>)

  datatype RequestError = BadQuery | BadLimit

  /** One line of ripgrep's output; None is anything but a well-formed match inside the content root. */
  type Event = Option<(string, int)>

  type LineMap = map<string, seq<int>>

  predicate Contains(hay: string, needle: string) {
    exists i | 0 <= i <= |hay| :: needle <= hay[i..]
  }

  function Lines(f: File): seq<string> { Split(f.text, '\n') }

  predicate Hit(t: Text, needle: string, line: string) { Contains(t.fold(line), needle) }

  function Selected(files: seq<File>, scope: Scope): seq<File> {
    if files == [] then [] else (if scope in files[0].scopes then [files[0]] else []) + Selected(files[1..], scope)
  }

  function First<T>(s: seq<T>, n: nat): (r: seq<T>)
    ensures r <= s && |r| == if |s| < n then |s| else n
  {
    s[..if |s| < n then |s| else n]
  }

  // The Python engine

  /** The numbers of all matching lines, ascending. */
  function Hits(t: Text, needle: string, lines: seq<string>): seq<int> {
    if lines == [] then []
    else Hits(t, needle, lines[..|lines| - 1]) + if Hit(t, needle, lines[|lines| - 1]) then [|lines|] else []
  }

  function FirstHits(t: Text, needle: string, f: File): seq<int> {
    First(Hits(t, needle, Lines(f)), MAX_MATCHES_PER_FILE)
  }

  lemma {:induction false} HitsPrefix(t: Text, needle: string, lines: seq<string>, k: nat)
    requires k <= |lines|
    ensures Hits(t, needle, lines[..k]) <= Hits(t, needle, lines)
    decreases |lines|
  {
    if k < |lines| {
      HitsPrefix(t, needle, lines[..|lines| - 1], k);
      assert lines[..|lines| - 1][..k] == lines[..k];
    } else {
      assert lines[..k] == lines;
    }
  }

  method FileLines(t: Text, needle: string, f: File) returns (matches: seq<int>)
    ensures matches == FirstHits(t, needle, f)
  {
    hide Split, Hit;
    var lines := Lines(f);
    matches := [];
    var k := 0;
    while k < |lines|
      invariant k <= |lines|
      invariant matches == Hits(t, needle, lines[..k])
      invariant |matches| < MAX_MATCHES_PER_FILE
    {
      assert lines[..k + 1][..k] == lines[..k];
      if Hit(t, needle, lines[k]) {
        matches := matches + [k + 1];
        if |matches| >= MAX_MATCHES_PER_FILE {
          HitsPrefix(t, needle, lines, k + 1);
          return;
        }
      }
      k := k + 1;
    }
    assert lines[..k] == lines;
  }

  predicate DistinctPaths(files: seq<File>) {
    forall i, j :: 0 <= i < j < |files| ==> files[i].path != files[j].path
  }

  /** The line map of an exact engine. */
  ghost predicate IsPythonMap(t: Text, needle: string, selected: seq<File>, m: LineMap) {
    && (forall k :: 0 <= k < |selected| ==>
          var hits := FirstHits(t, needle, selected[k]);
          if hits == [] then selected[k].path !in m else selected[k].path in m && m[selected[k].path] == hits)
    && (forall p :: p in m ==> exists k :: 0 <= k < |selected| && selected[k].path == p)
  }

  method PythonLineMap(t: Text, needle: string, selected: seq<File>) returns (m: LineMap)
    requires DistinctPaths(selected)
    ensures IsPythonMap(t, needle, selected, m)
  {
    hide FirstHits;
    m := map[];
    for k := 0 to |selected|
      invariant IsPythonMap(t, needle, selected[..k], m)
    {
      var matches := FileLines(t, needle, selected[k]);
      if matches != [] {
        m := m[selected[k].path := matches];
      }
      assert selected[..k + 1][..k] == selected[..k] && selected[..k + 1][k] == selected[k];
      assert forall j :: 0 <= j < k ==> selected[..k + 1][j] == selected[..k][j];
    }
    assert selected[..|selected|] == selected;
  }

  // The ripgrep engine

  function Paths(selected: seq<File>): set<string> { set k | 0 <= k < |selected| :: selected[k].path }

  /** The effect of one event on the line map. */
  function AddEvent(m: LineMap, paths: set<string>, e: Event): LineMap {
    if e.None? || e.value.0 !in paths then m
    else
      var numbers := if e.value.0 in m then m[e.value.0] else [];
      m[e.value.0 := if e.value.1 !in numbers && |numbers| < MAX_MATCHES_PER_FILE then numbers + [e.value.1] else numbers]
  }

  function Collected(paths: set<string>, events: seq<Event>): LineMap {
    if events == [] then map[] else AddEvent(Collected(paths, events[..|events| - 1]), paths, events[|events| - 1])
  }

  function Keys(numbers: seq<int>): (keyed: seq<Keyed<int>>)
    ensures |keyed| == |numbers| && forall k :: 0 <= k < |numbers| ==> keyed[k] == Keyed([numbers[k]], numbers[k])
  {
    seq(|numbers|, k requires 0 <= k < |numbers| => Keyed([numbers[k]], numbers[k]))
  }

  /** list.sort() on line numbers. */
  function SortedNumbers(numbers: seq<int>): seq<int> {
    var s := Sort(Keys(numbers));
    seq(|s|, k requires 0 <= k < |s| => s[k].value)
  }

  function RipgrepMap(paths: set<string>, events: seq<Event>): LineMap {
    var m := Collected(paths, events);
    map p | p in m :: SortedNumbers(m[p])
  }

  method RipgrepLineMap(selected: seq<File>, events: seq<Event>) returns (m: LineMap)
    ensures m == RipgrepMap(Paths(selected), events)
  {
    hide SortedNumbers;
    var paths := Paths(selected);
    m := map[];
    for k := 0 to |events|
      invariant m == Collected(paths, events[..k])
    {
      assert events[..k + 1][..k] == events[..k];
      var e := events[k];
      if e.None? || e.value.0 !in paths { continue; }
      var path, line := e.value.0, e.value.1;
      if path !in m { m := m[path := []]; }
      if line !in m[path] && |m[path]| < MAX_MATCHES_PER_FILE {
        m := m[path := m[path] + [line]];
      }
    }
    assert events[..|events|] == events;
    ghost var collected := m;
    var remaining := m.Keys;
    while remaining != {}
      invariant m.Keys == collected.Keys && remaining <= m.Keys
      invariant forall p :: p in m ==> m[p] == if p in remaining then collected[p] else SortedNumbers(collected[p])
      decreases |remaining|
    {
      var p :| p in remaining;
      remaining := remaining - {p};
      m := m[p := SortedNumbers(m[p])];
    }
  }

  // Post-processing

  /** The matches that survive the recheck. */
  function Rechecked(t: Text, needle: string, lines: seq<string>, numbers: seq<int>): seq<Match> {
    if numbers == [] then []
    else
      Rechecked(t, needle, lines, numbers[..|numbers| - 1]) +
      var n := numbers[|numbers| - 1];
      if 1 <= n <= |lines| && Hit(t, needle, lines[n - 1])
      then [Match(n, First(lines[n - 1], MAX_MATCH_TEXT_CHARS))] else []
  }

  function ResultOf(t: Text, needle: string, f: File, numbers: seq<int>, content: bool): Option<Found> {
    var matches := First(Rechecked(t, needle, Lines(f), numbers), MAX_MATCHES_PER_FILE);
    if matches == [] then None
    else Some(Found(f.path, t.title(f.path, f.text), f.kind, matches,
                    if content then Some(First(f.text, MAX_SEARCH_CONTENT_CHARS)) else None))
  }

  function Results(t: Text, needle: string, selected: seq<File>, m: LineMap, content: bool): seq<Found> {
    if selected == [] then []
    else
      var f := selected[|selected| - 1];
      var r := if f.path in m && m[f.path] != [] then ResultOf(t, needle, f, m[f.path], content) else None;
      Results(t, needle, selected[..|selected| - 1], m, content) + if r.Some? then [r.value] else []
  }

  // Ranking

  function LastPart(path: string): string {
    var parts := Split(path, '/');
    parts[|parts| - 1]
  }

  function KindOrder(k: Kind): int {
    match k
    case Task => 0
    case ReverseEngineering => 1
    case Documentation => 2
    case SourceCode => 3
  }

  function Rank(t: Text, needle: string, r: Found): int {
    var filename := t.fold(LastPart(r.path));
    if needle == filename || needle == t.fold(r.title) then 0
    else if Contains(filename, needle) || Contains(t.fold(r.path), needle) then 1
    else 2
  }

  function CharCodes(s: string): (c: seq<int>)
    ensures |c| == |s| && forall i :: 0 <= i < |s| ==> c[i] == s[i] as int
  {
    seq(|s|, i requires 0 <= i < |s| => s[i] as int)
  }

  /** The sort key (rank, kind, folded path, path) as one string of numbers; -1 ends the folded path. */
  function SortKey(t: Text, needle: string, r: Found): seq<int> {
    [Rank(t, needle, r), KindOrder(r.kind)] + (CharCodes(t.fold(r.path)) + ([-1] + CharCodes(r.path)))
  }

  function KeyedResults(t: Text, needle: string, results: seq<Found>): (keyed: seq<Keyed<Found>>)
    ensures |keyed| == |results|
    ensures forall k :: 0 <= k < |results| ==> keyed[k] == Keyed(SortKey(t, needle, results[k]), results[k])
  {
    seq(|results|, k requires 0 <= k < |results| => Keyed(SortKey(t, needle, results[k]), results[k]))
  }

  function Ranked(t: Text, needle: string, results: seq<Found>): seq<Found> {
    var s := Sort(KeyedResults(t, needle, results));
    seq(|s|, k requires 0 <= k < |s| => s[k].value)
  }

  /** The results for a line map: rechecked, ranked, cut to the limit. */
  function Response(t: Text, needle: string, selected: seq<File>, m: LineMap, content: bool, limit: nat): seq<Found> {
    First(Ranked(t, needle, Results(t, needle, selected, m, content)), limit)
  }

  datatype Engine = Python | Ripgrep(events: seq<Event>)

  /** The line map that an engine may return. */
  ghost predicate MapOf(t: Text, needle: string, selected: seq<File>, engine: Engine, m: LineMap) {
    match engine
    case Python => IsPythonMap(t, needle, selected, m)
    case Ripgrep(events) => m == RipgrepMap(Paths(selected), events)
  }

  method BuildLineMap(t: Text, needle: string, selected: seq<File>, engine: Engine) returns (m: LineMap)
    requires DistinctPaths(selected)
    ensures MapOf(t, needle, selected, engine, m)
  {
    hide IsPythonMap, RipgrepMap, DistinctPaths;
    if engine.Python? {
      m := PythonLineMap(t, needle, selected);
    } else {
      m := RipgrepLineMap(selected, engine.events);
    }
  }

  method Recheck(t: Text, needle: string, selected: seq<File>, m: LineMap, content: bool) returns (results: seq<Found>)
    ensures results == Results(t, needle, selected, m, content)
  {
    hide ResultOf;
    results := [];
    for k := 0 to |selected|
      invariant results == Results(t, needle, selected[..k], m, content)
    {
      assert selected[..k + 1][..k] == selected[..k];
      var f := selected[k];
      if f.path !in m || m[f.path] == [] { continue; }
      var found := ResultOf(t, needle, f, m[f.path], content);
      if found.None? { continue; }
      results := results + [found.value];
    }
    assert selected[..|selected|] == selected;
  }

  /** A search for a query already stripped of surrounding white space. */
  method Search(t: Text, files: seq<File>, clean: string, scope: Scope, limit: int, content: bool, engine: Engine)
    returns (r: Result<seq<Found>, RequestError>)
    requires DistinctPaths(files)
    ensures r.Ok? <==> 1 <= |clean| <= 200 && 1 <= limit <= 50
    ensures r.Ok? ==>
              exists m ::
                && MapOf(t, t.fold(clean), Selected(files, scope), engine, m)
                && r.value == Response(t, t.fold(clean), Selected(files, scope), m, content, limit)
    ensures r.Err? ==> (r.error == BadQuery <==> !(1 <= |clean| <= 200))
  {
    hide Ranked, MapOf, Results, Selected, DistinctPaths;
    if clean == "" || |clean| > MAX_QUERY_CHARS { return Err(BadQuery); }
    if !(1 <= limit <= MAX_SEARCH_RESULTS) { return Err(BadLimit); }
    var selected := Selected(files, scope);
    SelectedDistinct(files, scope);
    var needle := t.fold(clean);
    var m := BuildLineMap(t, needle, selected, engine);
    var results := Recheck(t, needle, selected, m, content);
    r := Ok(First(Ranked(t, needle, results), limit));
  }

  lemma {:induction false} SelectedDistinct(files: seq<File>, scope: Scope)
    requires DistinctPaths(files)
    ensures DistinctPaths(Selected(files, scope))
    ensures forall f :: f in Selected(files, scope) <==> f in files && scope in f.scopes
  {
    if files != [] {
      var rest := Selected(files[1..], scope);
      SelectedDistinct(files[1..], scope);
      assert files == [files[0]] + files[1..];
      forall k | 0 <= k < |rest| ensures rest[k].path != files[0].path {
        assert rest[k] in rest;
        var j :| 0 <= j < |files[1..]| && files[1..][j] == rest[k];
        assert files[j + 1] == rest[k];
      }
    }
  }
}
