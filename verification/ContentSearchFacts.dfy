/** What a search reports, whatever the engine says. */
module ContentSearchFacts {
  import opened Basics
  import opened LexOrder
  import opened ContentSearch

  ghost predicate Ascending(s: seq<int>) { forall i, j :: 0 <= i < j < |s| ==> s[i] < s[j] }

  // Line maps

  lemma NumberOrder(a: int, b: int)
    ensures LexLess([a], [b]) <==> a < b
  {
    assert [a][1..] == [] && [b][1..] == [];
  }

  /** Sorting distinct numbers: ascending, the same numbers. */
  lemma SortedNumbersAscend(numbers: seq<int>)
    requires Distinct(numbers)
    ensures Ascending(SortedNumbers(numbers)) && |SortedNumbers(numbers)| == |numbers|
    ensures forall n :: n in SortedNumbers(numbers) <==> n in numbers
  {
    hide Sort, LexLess;
    var keyed := Keys(numbers);
    assert forall k :: 0 <= k < |keyed| ==> keyed[k].key[0] == numbers[k];
    SortOrders(keyed);
    var s, sorted := Sort(keyed), SortedNumbers(numbers);
    forall k | 0 <= k < |s| ensures s[k] == Keyed([s[k].value], s[k].value) && s[k].value in numbers {
      assert s[k] in s;
      var j :| 0 <= j < |keyed| && keyed[j] == s[k];
      assert numbers[j] in numbers;
    }
    forall n | n in numbers ensures n in sorted {
      var j :| 0 <= j < |numbers| && numbers[j] == n;
      assert keyed[j] in s;
      var k :| 0 <= k < |s| && s[k] == keyed[j];
      assert sorted[k] == n;
    }
    forall i, j | 0 <= i < j < |sorted| ensures sorted[i] < sorted[j] {
      assert LexLess(s[i].key, s[j].key);
      NumberOrder(sorted[i], sorted[j]);
    }
  }

  /** There is one ascending list of a set of numbers. */
  lemma {:induction false} OneAscending(s: seq<int>, t: seq<int>)
    requires Ascending(s) && Ascending(t) && forall n :: n in s <==> n in t
    ensures s == t
  {
    hide LexLess;
    var a, b := Keys(s), Keys(t);
    forall i, j | 0 <= i < j < |a| ensures LexLess(a[i].key, a[j].key) { NumberOrder(s[i], s[j]); }
    forall i, j | 0 <= i < j < |b| ensures LexLess(b[i].key, b[j].key) { NumberOrder(t[i], t[j]); }
    forall x ensures x in a <==> x in b {
      KeysMember(s, x);
      KeysMember(t, x);
    }
    OneOrder(a, b);
    assert forall k :: 0 <= k < |s| ==> s[k] == a[k].value == b[k].value == t[k];
  }

  lemma KeysMember(s: seq<int>, x: Keyed<int>)
    ensures x in Keys(s) <==> x.value in s && x.key == [x.value]
  {
    if x.value in s && x.key == [x.value] {
      var k :| 0 <= k < |s| && s[k] == x.value;
      assert Keys(s)[k] == x;
    }
  }

  lemma {:induction false} HitsAscend(t: Text, needle: string, lines: seq<string>)
    ensures Ascending(Hits(t, needle, lines))
    ensures forall n :: n in Hits(t, needle, lines) <==> 1 <= n <= |lines| && Hit(t, needle, lines[n - 1])
    decreases |lines|
  {
    hide Hit;
    if lines != [] {
      HitsAscend(t, needle, lines[..|lines| - 1]);
      var before := Hits(t, needle, lines[..|lines| - 1]);
      assert forall i :: 0 <= i < |before| ==> before[i] in before;
    }
  }

  /** The lines that the events name for a path. */
  ghost predicate Named(events: seq<Event>, path: string, n: int) { Some((path, n)) in events }

  /** Collecting keeps at most twenty different lines a file, all of them named by events; none is lost below the cap. */
  lemma {:induction false} CollectedLines(paths: set<string>, events: seq<Event>, path: string)
    ensures var m := Collected(paths, events);
            && (path in m ==> path in paths && m[path] != [] && Distinct(m[path]) && |m[path]| <= MAX_MATCHES_PER_FILE
                              && forall n :: n in m[path] ==> Named(events, path, n))
            && (path in paths && (path in m ==> |m[path]| < MAX_MATCHES_PER_FILE) ==>
                  forall n :: Named(events, path, n) ==> path in m && n in m[path])
  {
    if events != [] {
      var before, e := events[..|events| - 1], events[|events| - 1];
      assert events == before + [e];
      CollectedLines(paths, before, path);
      assert forall n :: Named(events, path, n) <==> Named(before, path, n) || e == Some((path, n));
    }
  }

  function Elements(s: seq<int>): set<int> { set x | x in s }

  lemma {:induction false} ElementsSize(s: seq<int>)
    ensures |Elements(s)| <= |s|
    ensures Distinct(s) ==> |Elements(s)| == |s|
  {
    if s != [] {
      ElementsSize(s[1..]);
      assert s == [s[0]] + s[1..];
      assert Elements(s) == {s[0]} + Elements(s[1..]);
    }
  }

  /** A list of different numbers that is as long as a list it is drawn from holds all of it. */
  lemma DrawsAll(s: seq<int>, t: seq<int>)
    requires Distinct(s) && |t| <= |s| && forall n :: n in s ==> n in t
    ensures forall n :: n in t ==> n in s
  {
    ElementsSize(s);
    ElementsSize(t);
    var a, b := Elements(s), Elements(t);
    assert a <= b && b == a + (b - a);
    assert forall n :: n in t ==> n in b;
  }

  lemma FirstHitsAre(t: Text, needle: string, f: File)
    ensures Ascending(FirstHits(t, needle, f)) && |FirstHits(t, needle, f)| <= MAX_MATCHES_PER_FILE
    ensures forall n :: n in FirstHits(t, needle, f) ==> 1 <= n <= |Lines(f)| && Hit(t, needle, Lines(f)[n - 1])
  {
    hide Hit, Split;
    HitsAscend(t, needle, Lines(f));
    var hits := Hits(t, needle, Lines(f));
    forall n | n in FirstHits(t, needle, f) ensures n in hits {
      var i :| 0 <= i < |FirstHits(t, needle, f)| && FirstHits(t, needle, f)[i] == n;
      assert hits[i] == n;
    }
  }

  /** Line `n` exists and the query occurs in it, both folded. */
  ghost predicate MatchesAt(t: Text, needle: string, lines: seq<string>, n: int) {
    1 <= n <= |lines| && Occurs(t.fold(lines[n - 1]), needle)
  }

  /** The matching lines before line `n`. */
  ghost function Earlier(t: Text, needle: string, lines: seq<string>, n: int): set<int> {
    set k | 1 <= k < n && MatchesAt(t, needle, lines, k)
  }

  lemma HitsMatch(t: Text, needle: string, lines: seq<string>)
    ensures Ascending(Hits(t, needle, lines))
    ensures forall n :: n in Hits(t, needle, lines) <==> MatchesAt(t, needle, lines, n)
  {
    hide Contains, Occurs, Hits;
    HitsAscend(t, needle, lines);
    forall n | 1 <= n <= |lines| ensures n in Hits(t, needle, lines) <==> MatchesAt(t, needle, lines, n) {
      ContainsIsOccurs(t.fold(lines[n - 1]), needle);
    }
  }

  /** The Python engine's lines for a file: those that match with fewer than twenty matching lines before them. */
  lemma FirstHitsMean(t: Text, needle: string, f: File, n: int)
    ensures n in FirstHits(t, needle, f) <==>
              MatchesAt(t, needle, Lines(f), n) && |Earlier(t, needle, Lines(f), n)| < 20
  {
    hide MatchesAt, Split, Hits, Earlier;
    var lines := Lines(f);
    HitsMatch(t, needle, lines);
    var hits, first := Hits(t, needle, lines), FirstHits(t, needle, f);
    if n in first { InFirst(hits, MAX_MATCHES_PER_FILE, n); }
    if n in hits {
      var i :| 0 <= i < |hits| && hits[i] == n;
      HitsBefore(t, needle, lines, i);
      if i < 20 { assert first[i] == n; }
      if n in first {
        var j :| 0 <= j < |first| && first[j] == n;
        assert hits[j] == n;
      }
    }
  }

  lemma HitsBefore(t: Text, needle: string, lines: seq<string>, i: nat)
    requires i < |Hits(t, needle, lines)| && Ascending(Hits(t, needle, lines))
    requires forall k :: k in Hits(t, needle, lines) <==> MatchesAt(t, needle, lines, k)
    ensures |Earlier(t, needle, lines, Hits(t, needle, lines)[i])| == i
  {
    hide Hits;
    var hits := Hits(t, needle, lines);
    var earlier := Earlier(t, needle, lines, hits[i]);
    ElementsSize(hits[..i]);
    forall k | k in earlier ensures k in Elements(hits[..i]) {
      assert k in hits;
      var j :| 0 <= j < |hits| && hits[j] == k;
      assert j < i && hits[..i][j] == k;
    }
    forall k | k in Elements(hits[..i]) ensures k in earlier {
      var j :| 0 <= j < i && hits[..i][j] == k;
      assert hits[j] == k && k in hits;
    }
    assert earlier == Elements(hits[..i]);
  }

  /** The events name, for every selected file, exactly its first twenty matching lines. */
  ghost predicate ExactEvents(t: Text, needle: string, selected: seq<File>, events: seq<Event>) {
    forall k, n :: 0 <= k < |selected| ==> (Named(events, selected[k].path, n) <==> n in FirstHits(t, needle, selected[k]))
  }

  /** For such events, in any order and however often repeated, ripgrep's map is the Python engine's. */
  lemma EnginesAgree(t: Text, needle: string, selected: seq<File>, events: seq<Event>)
    requires DistinctPaths(selected) && ExactEvents(t, needle, selected, events)
    ensures IsPythonMap(t, needle, selected, RipgrepMap(Paths(selected), events))
  {
    hide FirstHits, Collected, SortedNumbers, Distinct;
    var paths := Paths(selected);
    var m := Collected(paths, events);
    forall k | 0 <= k < |selected|
      ensures var hits := FirstHits(t, needle, selected[k]);
              if hits == [] then selected[k].path !in m
              else selected[k].path in m && SortedNumbers(m[selected[k].path]) == hits
    {
      FileAgrees(t, needle, selected, events, k);
    }
    forall p | p in m ensures exists k :: 0 <= k < |selected| && selected[k].path == p {
      CollectedLines(paths, events, p);
    }
  }

  lemma FileAgrees(t: Text, needle: string, selected: seq<File>, events: seq<Event>, k: nat)
    requires ExactEvents(t, needle, selected, events) && k < |selected|
    ensures var m, path, hits := Collected(Paths(selected), events), selected[k].path, FirstHits(t, needle, selected[k]);
            if hits == [] then path !in m else path in m && SortedNumbers(m[path]) == hits
  {
    hide FirstHits, Collected, SortedNumbers;
    var m, path, hits := Collected(Paths(selected), events), selected[k].path, FirstHits(t, needle, selected[k]);
    CollectedLines(Paths(selected), events, path);
    FirstHitsAre(t, needle, selected[k]);
    HeadOccurs(hits);
    assert forall n :: n in hits ==> Named(events, path, n);
    if path in m {
      HeadOccurs(m[path]);
      if |m[path]| == MAX_MATCHES_PER_FILE { DrawsAll(m[path], hits); }
      SortedNumbersAscend(m[path]);
      OneAscending(SortedNumbers(m[path]), hits);
    }
  }

  // Results

  function Least(m: nat, n: nat): nat { if m < n then m else n }

  /** A match that is true of the lines. */
  ghost predicate IsHit(t: Text, needle: string, lines: seq<string>, m: Match) {
    && 1 <= m.line <= |lines| && Occurs(t.fold(lines[m.line - 1]), needle)
    && m.text <= lines[m.line - 1] && |m.text| == Least(|lines[m.line - 1]|, 500)
  }

  ghost predicate LinesAscend(matches: seq<Match>) {
    forall k, l :: 0 <= k < l < |matches| ==> matches[k].line < matches[l].line
  }

  /** A result that is true of its file. */
  ghost predicate Genuine(t: Text, needle: string, f: File, content: bool, r: Found) {
    && r.path == f.path && r.title == t.title(f.path, f.text) && r.kind == f.kind
    && (if content then r.content.Some? && r.content.value <= f.text && |r.content.value| == Least(|f.text|, 10_000)
        else r.content == None)
    && 1 <= |r.matches| <= 20
    && (forall k :: 0 <= k < |r.matches| ==> IsHit(t, needle, Lines(f), r.matches[k]))
    && LinesAscend(r.matches)
  }

  lemma {:induction false} RecheckedAreHits(t: Text, needle: string, lines: seq<string>, numbers: seq<int>)
    requires Ascending(numbers)
    ensures var matches := Rechecked(t, needle, lines, numbers);
            && (forall k :: 0 <= k < |matches| ==> IsHit(t, needle, lines, matches[k]) && matches[k].line in numbers)
            && LinesAscend(matches)
    decreases |numbers|
  {
    hide Contains, Occurs, First;
    if numbers != [] {
      var before, last := numbers[..|numbers| - 1], numbers[|numbers| - 1];
      if 1 <= last <= |lines| { ContainsIsOccurs(t.fold(lines[last - 1]), needle); }
      RecheckedAreHits(t, needle, lines, before);
      var some, all := Rechecked(t, needle, lines, before), Rechecked(t, needle, lines, numbers);
      assert forall n :: n in before ==> n < last && n in numbers;
      assert last in numbers;
      assert forall k :: 0 <= k < |some| ==> all[k] == some[k];
    }
  }

  /** A map whose lists ascend, as both engines' do. */
  ghost predicate AscendingMap(m: LineMap) { forall p :: p in m ==> Ascending(m[p]) }

  lemma {:induction false} ResultsAreGenuine(t: Text, needle: string, selected: seq<File>, m: LineMap, content: bool)
    requires AscendingMap(m)
    ensures forall r :: r in Results(t, needle, selected, m, content) ==> exists f :: f in selected && Genuine(t, needle, f, content, r)
    decreases |selected|
  {
    hide Hit, Rechecked, IsHit;
    if selected != [] {
      var before, f := selected[..|selected| - 1], selected[|selected| - 1];
      assert selected == before + [f];
      ResultsAreGenuine(t, needle, before, m, content);
      if f.path in m {
        RecheckedAreHits(t, needle, Lines(f), m[f.path]);
        var all := Rechecked(t, needle, Lines(f), m[f.path]);
        var r := ResultOf(t, needle, f, m[f.path], content);
        if r.Some? {
          assert forall k :: 0 <= k < |r.value.matches| ==> r.value.matches[k] == all[k];
          assert Genuine(t, needle, f, content, r.value);
        }
      }
    }
  }

  /** Every engine's map ascends. */
  lemma MapsAscend(t: Text, needle: string, selected: seq<File>, engine: Engine, m: LineMap)
    requires MapOf(t, needle, selected, engine, m)
    ensures AscendingMap(m)
  {
    hide FirstHits, Collected, SortedNumbers, Hit;
    forall p | p in m ensures Ascending(m[p]) {
      match engine
      case Python =>
        var k :| 0 <= k < |selected| && selected[k].path == p;
        FirstHitsAre(t, needle, selected[k]);
      case Ripgrep(events) =>
        CollectedLines(Paths(selected), events, p);
        SortedNumbersAscend(Collected(Paths(selected), events)[p]);
    }
  }

  /**
   Whatever the engine reports (unordered, repeated, foreign paths, lines out of range), every result
   of a search is a file of the scope, and its matches are real, ascending and at most twenty.
  */
  lemma SearchIsSound(t: Text, needle: string, files: seq<File>, scope: Scope, engine: Engine, m: LineMap, content: bool,
                      limit: nat, r: Found)
    requires DistinctPaths(files) && MapOf(t, needle, Selected(files, scope), engine, m)
    requires r in Response(t, needle, Selected(files, scope), m, content, limit)
    ensures exists f :: f in files && scope in f.scopes && Genuine(t, needle, f, content, r)
    ensures |Response(t, needle, Selected(files, scope), m, content, limit)| <= limit
  {
    hide Genuine, Selected, Results, MapOf, DistinctPaths, Ranked, First;
    var selected := Selected(files, scope);
    SelectedDistinct(files, scope);
    MapsAscend(t, needle, selected, engine, m);
    ResultsAreGenuine(t, needle, selected, m, content);
    InFirst(Ranked(t, needle, Results(t, needle, selected, m, content)), limit, r);
    RankedOrder(t, needle, selected, m, content);
  }

  lemma InFirst<T>(s: seq<T>, n: nat, x: T)
    requires x in First(s, n)
    ensures x in s
  {
    var k :| 0 <= k < |First(s, n)| && First(s, n)[k] == x;
    assert s[k] == x;
  }

  // The two engines

  lemma OnePythonMap(t: Text, needle: string, selected: seq<File>, a: LineMap, b: LineMap)
    requires IsPythonMap(t, needle, selected, a) && IsPythonMap(t, needle, selected, b)
    ensures a == b
  {
    hide FirstHits;
    forall p | p in a ensures p in b && a[p] == b[p] {
      var k :| 0 <= k < |selected| && selected[k].path == p;
    }
    forall p | p in b ensures p in a {
      var k :| 0 <= k < |selected| && selected[k].path == p;
    }
  }

  /** With such events both engines give the same response. */
  lemma SameResponse(t: Text, needle: string, selected: seq<File>, events: seq<Event>, python: LineMap, rg: LineMap,
                     content: bool, limit: nat)
    requires DistinctPaths(selected) && ExactEvents(t, needle, selected, events)
    requires MapOf(t, needle, selected, Python, python) && MapOf(t, needle, selected, Ripgrep(events), rg)
    ensures Response(t, needle, selected, python, content, limit) == Response(t, needle, selected, rg, content, limit)
  {
    hide IsPythonMap, RipgrepMap, ExactEvents, DistinctPaths;
    EnginesAgree(t, needle, selected, events);
    OnePythonMap(t, needle, selected, python, rg);
  }

  // Ranking

  /** The last component of a path: what follows its last slash, or all of it. */
  predicate IsBaseName(path: string, name: string) {
    && '/' !in name && |name| <= |path| && path[|path| - |name|..] == name
    && (|name| < |path| ==> path[|path| - |name| - 1] == '/')
  }

  lemma {:induction false} LastPartIs(path: string, name: string)
    ensures LastPart(path) == name <==> IsBaseName(path, name)
    decreases |path|
  {
    hide Split, Join;
    var k := IndexOf(path, '/', 0);
    if k == |path| {
      SplitFirst(path, "", '/');
      NoSlashBase(path, name);
    } else {
      var head, rest := path[..k], path[k + 1..];
      assert path == head + (['/'] + rest);
      SplitFirst(head, rest, '/');
      LastPartIs(rest, name);
      BaseAfterSlash(head, rest, name);
    }
  }

  lemma NoSlashBase(path: string, name: string)
    requires '/' !in path
    ensures IsBaseName(path, name) <==> path == name
  {
    assert forall i :: 0 <= i < |path| ==> path[i] in path;
  }

  lemma BaseAfterSlash(head: string, rest: string, name: string)
    ensures IsBaseName(head + (['/'] + rest), name) <==> IsBaseName(rest, name)
  {
    var path := head + (['/'] + rest);
    assert path[|head|] == '/';
    if |name| <= |rest| {
      assert path[|path| - |name|..] == rest[|rest| - |name|..];
    } else if |name| <= |path| {
      assert path[|path| - |name|..][|name| - |rest| - 1] == '/';
    }
  }

  /** The query is the whole folded file name or title. */
  ghost predicate NameOrTitle(t: Text, needle: string, r: Found) {
    t.fold(r.title) == needle || exists name :: IsBaseName(r.path, name) && t.fold(name) == needle
  }

  /** The query occurs in the folded file name or path. */
  ghost predicate InName(t: Text, needle: string, r: Found) {
    Occurs(t.fold(r.path), needle) || exists name :: IsBaseName(r.path, name) && Occurs(t.fold(name), needle)
  }

  ghost predicate Occurs(hay: string, needle: string) { exists i :: OccursAt(hay, needle, i) }

  predicate OccursAt(hay: string, needle: string, i: int) { 0 <= i <= |hay| - |needle| && hay[i..i + |needle|] == needle }

  lemma ContainsIsOccurs(hay: string, needle: string)
    ensures Contains(hay, needle) <==> Occurs(hay, needle)
  {
    if Contains(hay, needle) {
      var i :| 0 <= i <= |hay| && needle <= hay[i..];
      assert hay[i..i + |needle|] == hay[i..][..|needle|];
      assert OccursAt(hay, needle, i);
    }
    if Occurs(hay, needle) {
      var i :| OccursAt(hay, needle, i);
      assert hay[i..][..|needle|] == hay[i..i + |needle|];
      assert needle <= hay[i..];
    }
  }

  /** Tasks before reverse engineering before documentation before source code. */
  predicate EarlierKind(k: Kind, l: Kind) {
    match k
    case Task => l != Task
    case ReverseEngineering => l == Documentation || l == SourceCode
    case Documentation => l == SourceCode
    case SourceCode => false
  }

  /**
   The order of results: those whose name or title is the query, then those with the query in name or path,
   then the rest; within each by kind, then by folded path, then by path.
  */
  ghost predicate Before(t: Text, needle: string, a: Found, b: Found) {
    if NameOrTitle(t, needle, a) != NameOrTitle(t, needle, b) then NameOrTitle(t, needle, a)
    else if !NameOrTitle(t, needle, a) && InName(t, needle, a) != InName(t, needle, b) then InName(t, needle, a)
    else if a.kind != b.kind then EarlierKind(a.kind, b.kind)
    else if t.fold(a.path) != t.fold(b.path) then TextLess(t.fold(a.path), t.fold(b.path))
    else TextLess(a.path, b.path)
  }

  lemma RankMeans(t: Text, needle: string, r: Found)
    ensures Rank(t, needle, r) == if NameOrTitle(t, needle, r) then 0 else if InName(t, needle, r) then 1 else 2
  {
    hide LastPart, IsBaseName, Contains, Occurs;
    forall name ensures LastPart(r.path) == name <==> IsBaseName(r.path, name) { LastPartIs(r.path, name); }
    ContainsIsOccurs(t.fold(LastPart(r.path)), needle);
    ContainsIsOccurs(t.fold(r.path), needle);
  }

  lemma BeforeIsTuple(t: Text, needle: string, a: Found, b: Found)
    ensures Before(t, needle, a, b) <==>
              var ra, rb := Rank(t, needle, a), Rank(t, needle, b);
              var ka, kb := KindOrder(a.kind), KindOrder(b.kind);
              var fa, fb := t.fold(a.path), t.fold(b.path);
              || ra < rb
              || (ra == rb && ka < kb)
              || (ra == rb && ka == kb && TextLess(fa, fb))
              || (ra == rb && ka == kb && fa == fb && TextLess(a.path, b.path))
  {
    hide Rank, NameOrTitle, InName, TextLess;
    RankMeans(t, needle, a);
    RankMeans(t, needle, b);
    TextTotal(t.fold(a.path), t.fold(b.path));
  }

  lemma {:induction false} CodesOrder(s: string, t: string)
    ensures LexLess(CharCodes(s), CharCodes(t)) <==> TextLess(s, t)
  {
    if s != "" && t != "" {
      assert CharCodes(s)[1..] == CharCodes(s[1..]) && CharCodes(t)[1..] == CharCodes(t[1..]);
      CodesOrder(s[1..], t[1..]);
    }
  }

  /** A terminated text before two tails: the texts decide, and the tails when they are equal. */
  lemma {:induction false} TerminatedOrder(s: string, t: string, x: seq<int>, y: seq<int>)
    ensures LexLess(CharCodes(s) + ([-1] + x), CharCodes(t) + ([-1] + y)) <==> TextLess(s, t) || (s == t && LexLess(x, y))
  {
    var a, b := CharCodes(s) + ([-1] + x), CharCodes(t) + ([-1] + y);
    if s == "" || t == "" {
      assert s == "" ==> a == [-1] + x && a[1..] == x;
      assert t == "" ==> b == [-1] + y && b[1..] == y;
    } else {
      assert CharCodes(s)[1..] == CharCodes(s[1..]) && CharCodes(t)[1..] == CharCodes(t[1..]);
      assert a[1..] == CharCodes(s[1..]) + ([-1] + x) && b[1..] == CharCodes(t[1..]) + ([-1] + y);
      assert s == [s[0]] + s[1..] && t == [t[0]] + t[1..];
      TerminatedOrder(s[1..], t[1..], x, y);
    }
  }

  lemma PairThen(a: int, b: int, x: seq<int>, c: int, d: int, y: seq<int>)
    ensures LexLess([a, b] + x, [c, d] + y) <==> a < c || (a == c && b < d) || (a == c && b == d && LexLess(x, y))
  {
    assert ([a, b] + x)[1..] == [b] + x && ([c, d] + y)[1..] == [d] + y;
    assert ([b] + x)[1..] == x && ([d] + y)[1..] == y;
  }

  lemma SortKeyOrder(t: Text, needle: string, a: Found, b: Found)
    ensures LexLess(SortKey(t, needle, a), SortKey(t, needle, b)) <==> Before(t, needle, a, b)
  {
    hide Rank, KindOrder, LexLess, TextLess, CharCodes, Before;
    BeforeIsTuple(t, needle, a, b);
    PairThen(Rank(t, needle, a), KindOrder(a.kind), CharCodes(t.fold(a.path)) + ([-1] + CharCodes(a.path)),
             Rank(t, needle, b), KindOrder(b.kind), CharCodes(t.fold(b.path)) + ([-1] + CharCodes(b.path)));
    TerminatedOrder(t.fold(a.path), t.fold(b.path), CharCodes(a.path), CharCodes(b.path));
    CodesOrder(a.path, b.path);
  }

  lemma SortKeysDiffer(t: Text, needle: string, a: Found, b: Found)
    requires a.path != b.path
    ensures SortKey(t, needle, a) != SortKey(t, needle, b)
  {
    hide Rank, KindOrder, SortKey, TextLess, LexLess, Before;
    SortKeyOrder(t, needle, a, b);
    SortKeyOrder(t, needle, b, a);
    BeforeIsTuple(t, needle, a, b);
    BeforeIsTuple(t, needle, b, a);
    TextTotal(t.fold(a.path), t.fold(b.path));
    TextTotal(a.path, b.path);
    Irreflexive(SortKey(t, needle, a));
  }

  ghost predicate PathOf(selected: seq<File>, path: string) { exists j :: 0 <= j < |selected| && selected[j].path == path }

  ghost predicate DifferentPaths(results: seq<Found>) {
    forall k, l :: 0 <= k < l < |results| ==> results[k].path != results[l].path
  }

  lemma {:induction false} ResultPaths(t: Text, needle: string, selected: seq<File>, m: LineMap, content: bool)
    requires DistinctPaths(selected)
    ensures var results := Results(t, needle, selected, m, content);
            DifferentPaths(results) && forall k :: 0 <= k < |results| ==> PathOf(selected, results[k].path)
    decreases |selected|
  {
    hide Rechecked, Lines;
    if selected != [] {
      var before, last := selected[..|selected| - 1], selected[|selected| - 1];
      ResultPaths(t, needle, before, m, content);
      var some, all := Results(t, needle, before, m, content), Results(t, needle, selected, m, content);
      forall k | 0 <= k < |some| ensures PathOf(selected, some[k].path) && some[k].path != last.path {
        var j :| 0 <= j < |before| && before[j].path == some[k].path;
        assert selected[j].path == some[k].path;
      }
      assert forall k :: 0 <= k < |some| ==> all[k] == some[k];
      if |all| > |some| {
        assert |all| == |some| + 1 && all[|some|].path == last.path;
        assert PathOf(selected, last.path);
      }
    }
  }

  /** The ranked results are the results, strictly in the order of the tuples. */
  lemma RankedOrder(t: Text, needle: string, selected: seq<File>, m: LineMap, content: bool)
    requires DistinctPaths(selected)
    ensures var results := Results(t, needle, selected, m, content);
            var ranked := Ranked(t, needle, results);
            && |ranked| == |results|
            && (forall r :: r in ranked <==> r in results)
            && (forall k, l :: 0 <= k < l < |ranked| ==> Before(t, needle, ranked[k], ranked[l]))
  {
    hide SortKey, Before, Sort, LexLess, Results, DistinctPaths;
    var results := Results(t, needle, selected, m, content);
    ResultPaths(t, needle, selected, m, content);
    var keyed := KeyedResults(t, needle, results);
    forall k, l | 0 <= k < l < |keyed| ensures keyed[k].key != keyed[l].key {
      SortKeysDiffer(t, needle, results[k], results[l]);
    }
    SortOrders(keyed);
    var s, ranked := Sort(keyed), Ranked(t, needle, results);
    forall k | 0 <= k < |s| ensures s[k].key == SortKey(t, needle, s[k].value) && s[k].value in results {
      assert s[k] in s;
      var j :| 0 <= j < |keyed| && keyed[j] == s[k];
      assert results[j] in results;
    }
    forall r | r in results ensures r in ranked {
      var j :| 0 <= j < |results| && results[j] == r;
      assert keyed[j] in s;
      var k :| 0 <= k < |s| && s[k] == keyed[j];
      assert ranked[k] == r;
    }
    forall k, l | 0 <= k < l < |ranked| ensures Before(t, needle, ranked[k], ranked[l]) {
      SortKeyOrder(t, needle, ranked[k], ranked[l]);
    }
  }

  /** The response is the `limit` least results: what it leaves out comes after everything in it. */
  lemma ResponseIsLeast(t: Text, needle: string, selected: seq<File>, m: LineMap, content: bool, limit: nat, out: Found, r: Found)
    requires DistinctPaths(selected)
    requires out in Results(t, needle, selected, m, content) && out !in Response(t, needle, selected, m, content, limit)
    requires r in Response(t, needle, selected, m, content, limit)
    ensures |Response(t, needle, selected, m, content, limit)| == limit && Before(t, needle, r, out)
  {
    hide Before, Results, DistinctPaths, Ranked;
    RankedOrder(t, needle, selected, m, content);
    var ranked := Ranked(t, needle, Results(t, needle, selected, m, content));
    var response := Response(t, needle, selected, m, content, limit);
    var l :| 0 <= l < |ranked| && ranked[l] == out;
    var k :| 0 <= k < |response| && response[k] == r;
    assert forall i :: 0 <= i < |response| ==> response[i] == ranked[i] && response[i] in response;
  }

  // Nothing that matches is missed

  lemma {:induction false} RecheckedAll(t: Text, needle: string, lines: seq<string>, numbers: seq<int>)
    requires forall n :: n in numbers ==> 1 <= n <= |lines| && Hit(t, needle, lines[n - 1])
    ensures var matches := Rechecked(t, needle, lines, numbers);
            |matches| == |numbers| && forall k :: 0 <= k < |matches| ==> matches[k].line == numbers[k]
    decreases |numbers|
  {
    hide Hit;
    if numbers != [] {
      var before := numbers[..|numbers| - 1];
      assert forall n :: n in before ==> n in numbers;
      assert numbers[|numbers| - 1] in numbers;
      RecheckedAll(t, needle, lines, before);
    }
  }

  /** With an exact line map every selected file that matches has a result, holding its first twenty matching lines. */
  lemma {:induction false} NothingMissed(t: Text, needle: string, selected: seq<File>, m: LineMap, content: bool, f: File)
    requires f in selected && f.path in m && m[f.path] == FirstHits(t, needle, f) && m[f.path] != []
    ensures exists r :: r in Results(t, needle, selected, m, content) && r.path == f.path
                        && |r.matches| == |m[f.path]| && forall k :: 0 <= k < |r.matches| ==> r.matches[k].line == m[f.path][k]
    decreases |selected|
  {
    hide Hit, FirstHits, Rechecked;
    var before, last := selected[..|selected| - 1], selected[|selected| - 1];
    assert selected == before + [last];
    var all := Results(t, needle, selected, m, content);
    if last == f {
      FirstHitsAre(t, needle, f);
      RecheckedAll(t, needle, Lines(f), m[f.path]);
      assert all[|all| - 1] in all;
    } else {
      NothingMissed(t, needle, before, m, content, f);
      var some := Results(t, needle, before, m, content);
      var r :| r in some && r.path == f.path && |r.matches| == |m[f.path]|
               && forall k :: 0 <= k < |r.matches| ==> r.matches[k].line == m[f.path][k];
      assert r in all;
    }
  }
}
