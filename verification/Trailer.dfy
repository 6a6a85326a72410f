/** The commit message that open_pr writes and the idempotency key it reads back from one. */
module Trailer {
  import opened Basics

  function Prefix(): string { "Idempotency-Key: " }

  function Proposer(): string { "Proposed-by: " }

  lemma FixedTexts()
    ensures '\n' !in Prefix() && '\n' !in Proposer()
    ensures |Prefix()| > 0 && |Proposer()| > 0 && Prefix()[0] != Proposer()[0]
  {
  }

  predicate IsKey(s: string) {
    8 <= |s| <= 64 && forall i :: 0 <= i < |s| ==> IsKeyChar(s[i])
  }

  /** 8 to 64 letters, digits, dots, underscores and hyphens. */
  lemma KeyMeans(s: string)
    ensures IsKey(s) <==>
              8 <= |s| <= 64 && forall i :: 0 <= i < |s| ==>
                'A' <= s[i] <= 'Z' || 'a' <= s[i] <= 'z' || '0' <= s[i] <= '9' || s[i] in {'.', '_', '-'}
  {
    assert forall i :: 0 <= i < |s| && IsKey(s) ==> IsKeyChar(s[i]);
  }

  /** _validate_title */
  predicate ValidTitle(title: string) {
    1 <= |title| <= 120 && title == Strip(title) && NoControl(title)
  }

  /** A title has 1 to 120 characters, none of them a control character, and neither the first nor the last is white space. */
  lemma TitleMeans(title: string)
    ensures ValidTitle(title) <==>
              && 1 <= |title| <= 120 && !IsWhiteSpace(title[0]) && !IsWhiteSpace(title[|title| - 1])
              && forall i :: 0 <= i < |title| ==> title[i] as int >= 32 && title[i] as int != 127
  {
    hide Strip, IsWhiteSpace;
    StripLeaves(title);
  }

  lemma TitleIsOneLine(title: string)
    requires ValidTitle(title)
    ensures '\n' !in title
  {
    hide Strip;
    assert IsControl('\n');
  }

  /** The key a line carries when the whole line is a trailer. */
  function LineKey(line: string): Option<string> {
    if Prefix() <= line && IsKey(line[|Prefix()|..]) then Some(line[|Prefix()|..]) else None
  }

  function FirstKey(lines: seq<string>): Option<string> {
    if lines == [] then None
    else if LineKey(lines[0]).Some? then LineKey(lines[0])
    else FirstKey(lines[1..])
  }

  /** _head_idempotency_key: the first multiline match of the trailer pattern in a message. */
  function TrailerKey(message: string): Option<string> {
    FirstKey(Split(message, '\n'))
  }

  /** The part of the message before the trailer line. */
  function Head(title: string, identity: string): string {
    title + (['\n'] + (['\n'] + (Proposer() + identity)))
  }

  function Message(title: string, identity: string, key: string): string {
    Head(title, identity) + (['\n'] + (Prefix() + key + ['\n']))
  }

  lemma {:induction false} SplitConcat(a: string, b: string)
    ensures Split(a + (['\n'] + b), '\n') == Split(a, '\n') + Split(b, '\n')
    decreases |a|
  {
    hide Split;
    var k := IndexOf(a, '\n', 0);
    if k == |a| {
      SplitFirst(a, b, '\n');
    } else {
      var piece, rest := a[..k], a[k + 1..];
      assert a == piece + (['\n'] + rest);
      SplitFirst(piece, rest, '\n');
      SplitFirst(piece, rest + (['\n'] + b), '\n');
      assert a + (['\n'] + b) == piece + (['\n'] + (rest + (['\n'] + b)));
      SplitConcat(rest, b);
    }
  }

  lemma {:induction false} FirstKeyConcat(a: seq<string>, b: seq<string>)
    ensures FirstKey(a + b) == if FirstKey(a).Some? then FirstKey(a) else FirstKey(b)
  {
    if a == [] {
      assert a + b == b;
    } else {
      assert (a + b)[1..] == a[1..] + b;
      FirstKeyConcat(a[1..], b);
    }
  }

  lemma KeyLine(key: string)
    requires IsKey(key)
    ensures Split(Prefix() + key, '\n') == [Prefix() + key] && LineKey(Prefix() + key) == Some(key)
  {
    hide Split, Prefix;
    FixedTexts();
    var line := Prefix() + key;
    assert line[|Prefix()|..] == key;
    assert '\n' !in key by { assert forall i :: 0 <= i < |key| ==> IsKeyChar(key[i]); }
    SplitFirst(line, "", '\n');
  }

  /** For any title and identity, the key read back is the first one that a line before the trailer carries, or the call's. */
  lemma MessageKey(title: string, identity: string, key: string)
    requires IsKey(key)
    ensures var earlier := FirstKey(Split(Head(title, identity), '\n'));
            TrailerKey(Message(title, identity, key)) == if earlier.Some? then earlier else Some(key)
  {
    hide Split, Prefix, Head, IsKey, LineKey;
    var head, line := Head(title, identity), Prefix() + key;
    assert line + ['\n'] == line + (['\n'] + "");
    SplitConcat(line, "");
    SplitConcat(head, line + ['\n']);
    KeyLine(key);
    FirstKeyConcat([line], Split("", '\n'));
    FirstKeyConcat(Split(head, '\n'), [line] + Split("", '\n'));
    FirstKeyOne(line);
  }

  lemma FirstKeyOne(line: string)
    ensures FirstKey([line]) == LineKey(line)
  {
  }

  /** The lines before the trailer, for a one-line title and identity. */
  lemma HeadKey(title: string, identity: string)
    requires '\n' !in title && '\n' !in identity
    ensures FirstKey(Split(Head(title, identity), '\n')) == LineKey(title)
  {
    hide Split, Prefix, Proposer, IsKey;
    FixedTexts();
    var proposer := Proposer() + identity;
    assert "" + (['\n'] + proposer) == ['\n'] + proposer;
    SplitConcat(title, ['\n'] + proposer);
    SplitConcat("", proposer);
    SplitFirst(title, "", '\n');
    SplitFirst("", "", '\n');
    SplitFirst(proposer, "", '\n');
    assert proposer[0] == Proposer()[0];
    FirstKeyConcat([title], [""] + [proposer]);
    FirstKeyConcat([""], [proposer]);
    FirstKeyOne(title);
    FirstKeyOne("");
    FirstKeyOne(proposer);
  }

  /** The message line by line: title, a blank line, proposer, key. */
  lemma MessageLines(title: string, identity: string, key: string)
    requires '\n' !in title && '\n' !in identity && '\n' !in key
    ensures Split(Message(title, identity, key), '\n')
              == [title, "", "Proposed-by: " + identity, "Idempotency-Key: " + key, ""]
  {
    hide Split, Prefix, Proposer;
    FixedTexts();
    var proposer, line := Proposer() + identity, Prefix() + key;
    assert "" + (['\n'] + proposer) == ['\n'] + proposer;
    assert line + ['\n'] == line + (['\n'] + "");
    SplitConcat(Head(title, identity), line + ['\n']);
    SplitConcat(line, "");
    SplitConcat(title, ['\n'] + proposer);
    SplitConcat("", proposer);
    SplitFirst(title, "", '\n');
    SplitFirst("", "", '\n');
    SplitFirst(proposer, "", '\n');
    SplitFirst(line, "", '\n');
    LineTexts(identity, key);
  }

  lemma LineTexts(identity: string, key: string)
    ensures Proposer() + identity == "Proposed-by: " + identity && Prefix() + key == "Idempotency-Key: " + key
  {
  }

  /**
   A replay recognises its own branch exactly when the title is not itself a trailer line with
   another key, which _validate_title does not exclude.
  */
  lemma RoundTrip(title: string, identity: string, key: string)
    requires '\n' !in title && '\n' !in identity && IsKey(key)
    ensures TrailerKey(Message(title, identity, key)) == Some(key) <==> LineKey(title) in {None, Some(key)}
  {
    MessageKey(title, identity, key);
    HeadKey(title, identity);
  }

  /** A trailer line is a valid title: every key has a title that carries it. */
  lemma TrailerIsTitle(other: string)
    requires IsKey(other)
    ensures ValidTitle(Prefix() + other)
  {
    hide Strip;
    var title := Prefix() + other;
    assert IsKeyChar(other[|other| - 1]);
    assert title[0] == 'I' && title[|title| - 1] == other[|other| - 1];
    StripLeaves(title);
    forall i | 0 <= i < |title| ensures !IsControl(title[i]) {
      if i >= |Prefix()| { assert IsKeyChar(other[i - |Prefix()|]); }
    }
  }

  /** A title that is itself a trailer line is accepted, and hides the call's own key. */
  lemma OtherKey(other: string, identity: string, key: string)
    requires IsKey(other) && IsKey(key) && '\n' !in identity
    ensures ValidTitle(Prefix() + other)
    ensures TrailerKey(Message(Prefix() + other, identity, key)) == Some(other)
  {
    hide Split, Prefix, Head, Message, ValidTitle;
    FixedTexts();
    KeyLine(other);
    TrailerIsTitle(other);
    TitleIsOneLine(Prefix() + other);
    MessageKey(Prefix() + other, identity, key);
    HeadKey(Prefix() + other, identity);
  }
}
