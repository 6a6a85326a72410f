/** The sections under the headings of a Markdown text, given as its lines. */
module HeadingSections {
  import opened Basics

  datatype Heading = Heading(line: nat, level: nat, title: string)

  /** A heading and the lines below it, up to `end`. */
  datatype Section = Section(level: nat, title: string, start: nat, end: nat, body: seq<string>)

  function Leading(s: string, p: char -> bool): (k: nat)
    ensures k <= |s|
    ensures forall i :: 0 <= i < k ==> p(s[i])
    ensures k < |s| ==> !p(s[k])
  {
    if s == "" || !p(s[0]) then 0 else 1 + Leading(s[1..], p)
  }

  function TrimEnd(s: string, p: char -> bool): string {
    if s == "" || !p(s[|s| - 1]) then s else TrimEnd(s[..|s| - 1], p)
  }

  /**
   The heading pattern on one line: one to six hashes, white space, a title, trailing white space.
   Of nothing but white space, at least two characters, the last one is the title.
  */
  function MatchHeading(line: string, isSpace: char -> bool): Option<(nat, string)> {
    var level := Leading(line, c => c == '#');
    var rest := line[level..];
    var gap := Leading(rest, isSpace);
    var text := rest[gap..];
    if level == 0 || level > 6 || gap == 0 then None
    else if text != "" then Some((level, TrimEnd(text, isSpace)))
    else if gap >= 2 then Some((level, rest[|rest| - 1..]))
    else None
  }

  // The pattern as a way to cut a line

  ghost predicate Every(s: string, p: char -> bool) { forall i :: 0 <= i < |s| ==> p(s[i]) }

  function Hashes(n: nat): (h: string)
    ensures |h| == n && forall i :: 0 <= i < n ==> h[i] == '#'
  {
    seq(n, i requires 0 <= i < n => '#')
  }

  /** The line is one to six hashes, a gap, a title and a tail; gap and tail are white space, and only the tail may be empty. */
  ghost predicate Cut(line: string, isSpace: char -> bool, level: nat, gap: string, title: string, tail: string) {
    && 1 <= level <= 6 && line == Hashes(level) + gap + title + tail
    && gap != "" && Every(gap, isSpace) && title != "" && Every(tail, isSpace)
  }

  /** The cut that the pattern makes: the gap takes what white space it can, and then the title as little as it can. */
  ghost predicate Chosen(line: string, isSpace: char -> bool, level: nat, gap: string, title: string, tail: string) {
    && Cut(line, isSpace, level, gap, title, tail)
    && if Every(title, isSpace) then |title| == 1 && tail == "" else !isSpace(title[0]) && !isSpace(title[|title| - 1])
  }

  lemma {:induction false} LeadingIs(s: string, p: char -> bool, k: nat)
    requires k <= |s| && (forall i :: 0 <= i < k ==> p(s[i])) && (k < |s| ==> !p(s[k]))
    ensures Leading(s, p) == k
  {
    if k > 0 { LeadingIs(s[1..], p, k - 1); }
  }

  lemma {:induction false} TrimEndIs(title: string, tail: string, p: char -> bool)
    requires title != "" && !p(title[|title| - 1]) && Every(tail, p)
    ensures TrimEnd(title + tail, p) == title
  {
    var s := title + tail;
    if tail == "" {
      assert s == title;
    } else {
      assert s[|s| - 1] == tail[|tail| - 1];
      assert s[..|s| - 1] == title + tail[..|tail| - 1];
      TrimEndIs(title, tail[..|tail| - 1], p);
    }
  }

  lemma {:induction false} TrimEndCuts(s: string, p: char -> bool) returns (tail: string)
    ensures s == TrimEnd(s, p) + tail && Every(tail, p)
    ensures TrimEnd(s, p) != "" ==> !p(TrimEnd(s, p)[|TrimEnd(s, p)| - 1])
    ensures s != "" && !p(s[0]) ==> TrimEnd(s, p) != "" && TrimEnd(s, p)[0] == s[0]
  {
    if s == "" || !p(s[|s| - 1]) {
      tail := "";
    } else {
      var front, last := s[..|s| - 1], s[|s| - 1];
      var before := TrimEndCuts(front, p);
      tail := before + [last];
      assert s == front + [last] && TrimEnd(s, p) == TrimEnd(front, p);
    }
  }

  /** The hashes of any cut are all the leading hashes. */
  lemma CutHashes(line: string, isSpace: char -> bool, level: nat, gap: string, title: string, tail: string)
    requires !isSpace('#') && Cut(line, isSpace, level, gap, title, tail)
    ensures level <= |line| && Leading(line, c => c == '#') == level && line[level..] == gap + title + tail
  {
    hide Leading;
    assert line[level] == gap[0];
    LeadingIs(line, c => c == '#', level);
  }

  /** The gap of a cut is all the leading white space, unless the title is white space too. */
  lemma CutGap(isSpace: char -> bool, gap: string, title: string, tail: string)
    requires gap != "" && Every(gap, isSpace) && title != "" && Every(tail, isSpace)
    ensures var rest := gap + title + tail;
            && |rest| >= 2 && Leading(rest, isSpace) >= 1
            && (!isSpace(title[0]) ==> Leading(rest, isSpace) == |gap| && rest[|gap|..] == title + tail)
            && (Every(title, isSpace) ==> Leading(rest, isSpace) == |rest|)
  {
    hide Leading;
    var rest := gap + title + tail;
    assert rest[0] == gap[0];
    if !isSpace(title[0]) {
      assert rest[|gap|] == title[0];
      LeadingIs(rest, isSpace, |gap|);
      assert rest[|gap|..] == title + tail;
    }
    if Every(title, isSpace) {
      AllWhiteSpace(isSpace, gap, title, tail);
      LeadingIs(rest, isSpace, |rest|);
    }
  }

  lemma AllWhiteSpace(isSpace: char -> bool, gap: string, title: string, tail: string)
    requires Every(gap, isSpace) && Every(title, isSpace) && Every(tail, isSpace)
    ensures Every(gap + title + tail, isSpace)
  {
  }

  lemma ChosenMatches(line: string, isSpace: char -> bool, level: nat, gap: string, title: string, tail: string)
    requires !isSpace('#') && Chosen(line, isSpace, level, gap, title, tail)
    ensures MatchHeading(line, isSpace) == Some((level, title))
  {
    hide Leading, TrimEnd, Hashes;
    CutHashes(line, isSpace, level, gap, title, tail);
    CutGap(isSpace, gap, title, tail);
    if Every(title, isSpace) {
      assert line[level..][|line[level..]| - 1..] == title;
    } else {
      TrimEndIs(title, tail, isSpace);
    }
  }

  lemma MatchIsChosen(line: string, isSpace: char -> bool) returns (gap: string, tail: string)
    requires MatchHeading(line, isSpace).Some?
    ensures var (level, title) := MatchHeading(line, isSpace).value; Chosen(line, isSpace, level, gap, title, tail)
  {
    hide Leading, TrimEnd;
    var level := Leading(line, c => c == '#');
    var rest := line[level..];
    assert line == Hashes(level) + rest;
    var n := Leading(rest, isSpace);
    var title := MatchHeading(line, isSpace).value.1;
    gap, tail := CutRest(rest, isSpace, title);
    assert line == Hashes(level) + gap + title + tail;
  }

  /** Gap, title and tail of what follows the hashes. */
  lemma CutRest(rest: string, isSpace: char -> bool, title: string) returns (gap: string, tail: string)
    requires var n := Leading(rest, isSpace);
             && n >= 1 && title == (if n < |rest| then TrimEnd(rest[n..], isSpace) else rest[|rest| - 1..]) && |rest| >= 2
    ensures rest == gap + title + tail && gap != "" && Every(gap, isSpace) && title != "" && Every(tail, isSpace)
    ensures if Every(title, isSpace) then |title| == 1 && tail == "" else !isSpace(title[0]) && !isSpace(title[|title| - 1])
  {
    hide Leading, TrimEnd;
    var n := Leading(rest, isSpace);
    if n < |rest| {
      gap := rest[..n];
      tail := TrimEndCuts(rest[n..], isSpace);
      assert rest[n..] == title + tail;
    } else {
      gap, tail := rest[..n - 1], "";
      assert title[0] == rest[n - 1];
    }
  }

  /** A line is a heading exactly when it can be cut so, and its level and title are those of the chosen cut, which is unique. */
  lemma HeadingExactly(line: string, isSpace: char -> bool)
    requires !isSpace('#')
    ensures MatchHeading(line, isSpace).Some? <==> exists level: nat, gap, title, tail :: Cut(line, isSpace, level, gap, title, tail)
    ensures forall level: nat, title :: MatchHeading(line, isSpace) == Some((level, title)) <==>
              exists gap, tail :: Chosen(line, isSpace, level, gap, title, tail)
  {
    hide Chosen, MatchHeading;
    if MatchHeading(line, isSpace).Some? {
      var gap, tail := MatchIsChosen(line, isSpace);
      ChosenIsCut(line, isSpace, MatchHeading(line, isSpace).value.0, gap, MatchHeading(line, isSpace).value.1, tail);
    }
    if level: nat, gap, title, tail :| Cut(line, isSpace, level, gap, title, tail) {
      CutMatches(line, isSpace, level, gap, title, tail);
    }
    forall level: nat, gap, title, tail | Chosen(line, isSpace, level, gap, title, tail)
      ensures MatchHeading(line, isSpace) == Some((level, title))
    {
      ChosenMatches(line, isSpace, level, gap, title, tail);
    }
  }

  lemma ChosenIsCut(line: string, isSpace: char -> bool, level: nat, gap: string, title: string, tail: string)
    requires Chosen(line, isSpace, level, gap, title, tail)
    ensures Cut(line, isSpace, level, gap, title, tail)
  {
  }

  lemma CutMatches(line: string, isSpace: char -> bool, level: nat, gap: string, title: string, tail: string)
    requires !isSpace('#') && Cut(line, isSpace, level, gap, title, tail)
    ensures MatchHeading(line, isSpace).Some?
  {
    hide Leading, TrimEnd, Hashes;
    CutHashes(line, isSpace, level, gap, title, tail);
    CutGap(isSpace, gap, title, tail);
  }

  predicate IsHeading(lines: seq<string>, isSpace: char -> bool, x: nat) {
    x < |lines| && MatchHeading(lines[x], isSpace).Some?
  }

  function LevelAt(lines: seq<string>, isSpace: char -> bool, x: nat): nat
    requires IsHeading(lines, isSpace, x)
  {
    MatchHeading(lines[x], isSpace).value.0
  }

  function Headings(lines: seq<string>, isSpace: char -> bool): seq<Heading> {
    if lines == [] then []
    else
      var m := MatchHeading(lines[|lines| - 1], isSpace);
      Headings(lines[..|lines| - 1], isSpace) +
      if m.Some? then [Heading(|lines| - 1, m.value.0, m.value.1)] else []
  }

  /** Where the section of a heading ends: the next heading that is not deeper, or the end of the text. */
  function EndOf(level: nat, later: seq<Heading>, n: nat): nat {
    if later == [] then n
    else if later[0].level <= level then later[0].line
    else EndOf(level, later[1..], n)
  }

  ghost predicate IsSection(lines: seq<string>, headings: seq<Heading>, k: nat, s: Section) {
    && k < |headings| && s.level == headings[k].level && s.title == headings[k].title && s.start == headings[k].line
    && s.end == EndOf(headings[k].level, headings[k + 1..], |lines|)
    && s.start < s.end <= |lines| && s.body == lines[s.start + 1..s.end]
  }

  ghost predicate AreHeadings(lines: seq<string>, isSpace: char -> bool, hs: seq<Heading>) {
    forall k :: 0 <= k < |hs| ==>
      hs[k].line < |lines| && MatchHeading(lines[hs[k].line], isSpace) == Some((hs[k].level, hs[k].title))
  }

  ghost predicate InOrder(hs: seq<Heading>) { forall k, l :: 0 <= k < l < |hs| ==> hs[k].line < hs[l].line }

  ghost predicate AtLine(hs: seq<Heading>, x: nat) { exists k :: 0 <= k < |hs| && hs[k].line == x }

  /** The heading lines, in order. */
  lemma {:induction false} HeadingsAre(lines: seq<string>, isSpace: char -> bool)
    ensures var hs := Headings(lines, isSpace);
            AreHeadings(lines, isSpace, hs) && InOrder(hs) && forall x: nat :: x < |lines| && IsHeading(lines, isSpace, x) ==> AtLine(hs, x)
    decreases |lines|
  {
    hide MatchHeading;
    if lines != [] {
      var before := lines[..|lines| - 1];
      HeadingsAre(before, isSpace);
      var some, all := Headings(before, isSpace), Headings(lines, isSpace);
      assert forall k :: 0 <= k < |some| ==> all[k] == some[k];
      forall x: nat | x < |lines| && IsHeading(lines, isSpace, x) ensures AtLine(all, x) {
        if x < |before| {
          assert IsHeading(before, isSpace, x);
          var k :| 0 <= k < |some| && some[k].line == x;
          assert all[k].line == x;
        } else {
          assert all[|some|].line == x;
        }
      }
    }
  }

  lemma {:induction false} EndOfIs(level: nat, later: seq<Heading>, n: nat)
    requires forall k :: 0 <= k < |later| ==> later[k].line < n
    requires forall k, l :: 0 <= k < l < |later| ==> later[k].line < later[l].line
    ensures var end := EndOf(level, later, n);
            && end <= n
            && (forall k :: 0 <= k < |later| && later[k].line < end ==> later[k].level > level)
            && (end < n ==> exists k :: 0 <= k < |later| && later[k].line == end && later[k].level <= level)
            && (later != [] ==> later[0].line <= end)
    decreases |later|
  {
    if later != [] && later[0].level > level {
      var rest := later[1..];
      EndOfIs(level, rest, n);
      assert forall k :: 0 < k < |later| ==> later[k] == rest[k - 1];
      var end := EndOf(level, later, n);
      if end < n {
        var k :| 0 <= k < |rest| && rest[k].line == end && rest[k].level <= level;
        assert later[k + 1].line == end;
      }
    }
  }

  method FindHeadings(lines: seq<string>, isSpace: char -> bool) returns (headings: seq<Heading>)
    ensures headings == Headings(lines, isSpace)
  {
    hide MatchHeading;
    headings := [];
    for x := 0 to |lines|
      invariant headings == Headings(lines[..x], isSpace)
    {
      assert lines[..x + 1][..x] == lines[..x];
      var m := MatchHeading(lines[x], isSpace);
      if m.Some? { headings := headings + [Heading(x, m.value.0, m.value.1)]; }
    }
    assert lines[..|lines|] == lines;
  }

  /** The inner loop: the first later heading that is not deeper ends the section. */
  method SectionEnd(headings: seq<Heading>, k: nat, n: nat) returns (end: nat)
    requires k < |headings|
    ensures end == EndOf(headings[k].level, headings[k + 1..], n)
  {
    end := n;
    var j := k + 1;
    while j < |headings|
      invariant k + 1 <= j <= |headings|
      invariant end == n
      invariant EndOf(headings[k].level, headings[k + 1..], n) == EndOf(headings[k].level, headings[j..], n)
    {
      assert headings[j..][0] == headings[j] && headings[j..][1..] == headings[j + 1..];
      if headings[j].level <= headings[k].level {
        end := headings[j].line;
        break;
      }
      j := j + 1;
    }
  }

  method FindSections(lines: seq<string>, isSpace: char -> bool) returns (sections: seq<Section>)
    ensures AreSections(lines, isSpace, sections)
  {
    hide MatchHeading, Headings, EndOf;
    var headings := FindHeadings(lines, isSpace);
    HeadingsAre(lines, isSpace);
    sections := [];
    for k := 0 to |headings|
      invariant |sections| == k
      invariant forall i :: 0 <= i < k ==> IsSection(lines, headings, i, sections[i])
    {
      var h := headings[k];
      EndAfterStart(lines, headings, k);
      var end := SectionEnd(headings, k, |lines|);
      sections := sections + [Section(h.level, h.title, h.line, end, lines[h.line + 1..end])];
    }
  }

  lemma EndAfterStart(lines: seq<string>, headings: seq<Heading>, k: nat)
    requires k < |headings| && forall i :: 0 <= i < |headings| ==> headings[i].line < |lines|
    requires InOrder(headings)
    ensures headings[k].line < EndOf(headings[k].level, headings[k + 1..], |lines|) <= |lines|
  {
    var later := headings[k + 1..];
    EndOfIs(headings[k].level, later, |lines|);
    var end := EndOf(headings[k].level, later, |lines|);
    if end < |lines| {
      var i :| 0 <= i < |later| && later[i].line == end && later[i].level <= headings[k].level;
      assert later[i] == headings[k + 1 + i];
    }
  }

  lemma EndOfSection(headings: seq<Heading>, k: nat, n: nat)
    requires k < |headings| && forall i :: 0 <= i < |headings| ==> headings[i].line < n
    requires InOrder(headings)
    ensures var end := EndOf(headings[k].level, headings[k + 1..], n);
            && (forall i :: k < i < |headings| && headings[i].line < end ==> headings[i].level > headings[k].level)
            && (end < n ==> exists i :: k < i < |headings| && headings[i].line == end && headings[i].level <= headings[k].level)
  {
    var later := headings[k + 1..];
    EndOfIs(headings[k].level, later, n);
    var end := EndOf(headings[k].level, later, n);
    forall i | k < i < |headings| && headings[i].line < end ensures headings[i].level > headings[k].level {
      assert later[i - k - 1] == headings[i];
    }
    if end < n {
      var j :| 0 <= j < |later| && later[j].line == end && later[j].level <= headings[k].level;
      assert headings[k + 1 + j] == later[j];
    }
  }

  // What the sections are

  /** The sections of a text, as FindSections returns them. */
  ghost predicate AreSections(lines: seq<string>, isSpace: char -> bool, sections: seq<Section>) {
    && |sections| == |Headings(lines, isSpace)|
    && forall k :: 0 <= k < |sections| ==> IsSection(lines, Headings(lines, isSpace), k, sections[k])
  }

  /**
   A line belongs to a heading's section exactly when every heading after that one, up to the line,
   is strictly deeper; so the section is the longest such range.
  */
  lemma InSection(lines: seq<string>, isSpace: char -> bool, sections: seq<Section>, k: nat, x: nat)
    requires AreSections(lines, isSpace, sections) && k < |sections| && x < |lines|
    ensures IsHeading(lines, isSpace, sections[k].start)
    ensures sections[k].start <= x < sections[k].end <==>
              sections[k].start <= x &&
              forall h :: sections[k].start < h <= x && IsHeading(lines, isSpace, h) ==>
                LevelAt(lines, isSpace, h) > LevelAt(lines, isSpace, sections[k].start)
  {
    hide MatchHeading, Headings;
    HeadingsAre(lines, isSpace);
    var headings := Headings(lines, isSpace);
    var s := sections[k];
    assert IsSection(lines, headings, k, s);
    EndOfSection(headings, k, |lines|);
    if s.start <= x < s.end {
      forall h: nat | s.start < h <= x && IsHeading(lines, isSpace, h) ensures LevelAt(lines, isSpace, h) > s.level {
        assert AtLine(headings, h);
        var i :| 0 <= i < |headings| && headings[i].line == h;
      }
    } else if s.end <= x {
      var i :| k < i < |headings| && headings[i].line == s.end && headings[i].level <= s.level;
      assert IsHeading(lines, isSpace, s.end);
    }
  }

  /** Every heading has its section, and nothing else has one. */
  lemma OneSectionPerHeading(lines: seq<string>, isSpace: char -> bool, sections: seq<Section>, x: nat)
    requires AreSections(lines, isSpace, sections)
    ensures IsHeading(lines, isSpace, x) <==> exists k :: 0 <= k < |sections| && sections[k].start == x
    ensures forall k, l :: 0 <= k < l < |sections| ==> sections[k].start < sections[l].start
  {
    hide MatchHeading, Headings, EndOf;
    HeadingsAre(lines, isSpace);
    var headings := Headings(lines, isSpace);
    forall k | 0 <= k < |sections| ensures sections[k].start == headings[k].line {
      assert IsSection(lines, headings, k, sections[k]);
    }
    if IsHeading(lines, isSpace, x) {
      assert AtLine(headings, x);
      var k :| 0 <= k < |headings| && headings[k].line == x;
      assert sections[k].start == x;
    }
  }

  /** For any text, the ranges of two sections are nested or disjoint. */
  lemma Laminar(lines: seq<string>, isSpace: char -> bool, sections: seq<Section>, k: nat, l: nat)
    requires AreSections(lines, isSpace, sections) && k < l < |sections|
    ensures sections[k].end <= sections[l].start || sections[l].end <= sections[k].end
  {
    hide MatchHeading, Headings, LevelAt, IsHeading;
    var s, u := sections[k], sections[l];
    OneSectionPerHeading(lines, isSpace, sections, u.start);
    assert IsSection(lines, Headings(lines, isSpace), k, s) && IsSection(lines, Headings(lines, isSpace), l, u);
    if u.start < s.end < u.end {
      InSection(lines, isSpace, sections, k, u.start);
      InSection(lines, isSpace, sections, l, s.end);
      InSection(lines, isSpace, sections, k, s.end);
    }
  }
}
