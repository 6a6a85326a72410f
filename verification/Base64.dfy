/** Unpadded base64url (section 5 of RFC 4648): the strict encoder and Python's decoder, which ignores trailing bits. */
module Base64Url {
  import opened Basics

  type Sextet = n: int | 0 <= n < 64

  function CharOf(v: Sextet): char {
    if v < 26 then ('A' as int + v) as char
    else if v < 52 then ('a' as int + v - 26) as char
    else if v < 62 then ('0' as int + v - 52) as char
    else if v == 62 then '-' else '_'
  }

  predicate InAlphabet(c: char) {
    'A' <= c <= 'Z' || 'a' <= c <= 'z' || '0' <= c <= '9' || c == '-' || c == '_'
  }

  function ValueOf(c: char): Sextet
    requires InAlphabet(c)
  {
    if 'A' <= c <= 'Z' then c as int - 'A' as int
    else if 'a' <= c <= 'z' then c as int - 'a' as int + 26
    else if '0' <= c <= '9' then c as int - '0' as int + 52
    else if c == '-' then 62 else 63
  }

  lemma CharValue(v: Sextet)
    ensures InAlphabet(CharOf(v)) && ValueOf(CharOf(v)) == v
  {
  }

  lemma ValueChar(c: char)
    requires InAlphabet(c)
    ensures CharOf(ValueOf(c)) == c
  {
  }

  predicate AllInAlphabet(s: string) { forall i :: 0 <= i < |s| ==> InAlphabet(s[i]) }

  /** The sextets of one to three bytes. */
  function Group(b: seq<Byte>): (q: seq<Sextet>)
    requires 1 <= |b| <= 3
    ensures |q| == |b| + 1
  {
    var first := b[0] / 4;
    if |b| == 1 then [first, b[0] % 4 * 16]
    else
      var second := b[0] % 4 * 16 + b[1] / 16;
      if |b| == 2 then [first, second, b[1] % 16 * 4]
      else [first, second, b[1] % 16 * 4 + b[2] / 64, b[2] % 64]
  }

  /** The bytes of two to four sextets; bits left over are dropped. */
  function Ungroup(q: seq<Sextet>): (b: seq<Byte>)
    requires 2 <= |q| <= 4
    ensures |b| == |q| - 1
  {
    var first: Byte := q[0] as int * 4 + q[1] / 16;
    if |q| == 2 then [first]
    else
      var second: Byte := (q[1] as int % 16) * 16 + q[2] / 4;
      if |q| == 3 then [first, second]
      else [first, second, (q[2] as int % 4) * 64 + q[3]]
  }

  /** Clears the bits that decoding drops. */
  function Clear(q: seq<Sextet>): (r: seq<Sextet>)
    requires 2 <= |q| <= 4
    ensures |r| == |q|
  {
    if |q| == 2 then [q[0], q[1] / 16 * 16]
    else if |q| == 3 then [q[0], q[1], q[2] / 4 * 4]
    else q
  }

  lemma UngroupGroup(b: seq<Byte>)
    requires 1 <= |b| <= 3
    ensures Ungroup(Group(b)) == b
  {
    var q := Group(b);
    assert q[0] as int * 4 + q[1] / 16 == b[0];
  }

  lemma GroupUngroup(q: seq<Sextet>)
    requires 2 <= |q| <= 4
    ensures Group(Ungroup(q)) == Clear(q)
  {
    var b := Ungroup(q);
    assert b[0] / 4 == q[0] && b[0] % 4 == q[1] / 16;
    if |q| > 2 {
      assert b[1] / 16 == q[1] % 16 && b[1] % 16 == q[2] / 4;
    }
    if |q| == 4 {
      assert b[2] / 64 == q[2] % 4 && b[2] % 64 == q[3];
    }
  }

  function Chars(q: seq<Sextet>): (s: string)
    ensures |s| == |q| && AllInAlphabet(s)
  {
    seq(|q|, i requires 0 <= i < |q| => CharValue(q[i]); CharOf(q[i]))
  }

  function Values(s: string): (q: seq<Sextet>)
    requires AllInAlphabet(s)
    ensures |q| == |s|
  {
    seq(|s|, i requires 0 <= i < |s| => ValueOf(s[i]))
  }

  lemma ValuesOfChars(q: seq<Sextet>)
    ensures Values(Chars(q)) == q
  {
    forall i | 0 <= i < |q| ensures Values(Chars(q))[i] == q[i] { CharValue(q[i]); }
  }

  lemma CharsOfValues(s: string)
    requires AllInAlphabet(s)
    ensures Chars(Values(s)) == s
  {
    forall i | 0 <= i < |s| ensures Chars(Values(s))[i] == s[i] { ValueChar(s[i]); }
  }

  /** urlsafe_b64encode with the padding stripped. */
  function Encode(b: seq<Byte>): (s: string)
    ensures AllInAlphabet(s)
    ensures |s| == (4 * |b| + 2) / 3
  {
    if b == [] then ""
    else if |b| <= 3 then Chars(Group(b))
    else Chars(Group(b[..3])) + Encode(b[3..])
  }

  /** b64decode of the text with its padding put back; one character over a multiple of four is an error. */
  function Decode(s: string): (r: Option<seq<Byte>>)
    requires AllInAlphabet(s)
    ensures r.None? <==> |s| % 4 == 1
  {
    if s == "" then Some([])
    else if |s| == 1 then None
    else if |s| <= 4 then Some(Ungroup(Values(s)))
    else
      var rest := Decode(s[4..]);
      if rest.None? then None else Some(Ungroup(Values(s[..4])) + rest.value)
  }

  /** The text with the bits that decoding drops set to zero. */
  function Canonical(s: string): string
    requires AllInAlphabet(s) && |s| % 4 != 1
  {
    if s == "" then ""
    else if |s| <= 4 then Chars(Clear(Values(s)))
    else s[..4] + Canonical(s[4..])
  }

  lemma {:induction false} RoundTrip(b: seq<Byte>)
    ensures Decode(Encode(b)) == Some(b)
  {
    hide Group, Ungroup, Values, Chars;
    if b == [] {
    } else if |b| <= 3 {
      ValuesOfChars(Group(b));
      UngroupGroup(b);
    } else {
      RoundTrip(b[3..]);
      var s := Encode(b);
      ValuesOfChars(Group(b[..3]));
      UngroupGroup(b[..3]);
      assert s[..4] == Chars(Group(b[..3])) && s[4..] == Encode(b[3..]);
      assert b == b[..3] + b[3..];
    }
  }

  /** Re-encoding what was decoded gives the text back up to the dropped bits. */
  lemma {:induction false} Reencodes(s: string)
    requires AllInAlphabet(s) && |s| % 4 != 1
    ensures Encode(Decode(s).value) == Canonical(s)
    decreases |s|
  {
    hide Group, Ungroup, Values, Chars, Clear;
    if s == "" {
    } else if |s| <= 4 {
      GroupUngroup(Values(s));
    } else {
      Reencodes(s[4..]);
      var head, rest := Ungroup(Values(s[..4])), Decode(s[4..]).value;
      GroupUngroup(Values(s[..4]));
      FullGroupIsClear(Values(s[..4]));
      CharsOfValues(s[..4]);
      assert (head + rest)[..3] == head && (head + rest)[3..] == rest;
      assert |s[4..]| >= 2 && |rest| >= 1;
    }
  }

  lemma FullGroupIsClear(q: seq<Sextet>)
    requires |q| == 4
    ensures Clear(q) == q
  {
  }

  /** Whole groups leave no bits to drop. */
  lemma {:induction false} WholeGroupsAreCanonical(s: string)
    requires AllInAlphabet(s) && |s| % 4 != 1 && |Decode(s).value| % 3 == 0
    ensures Canonical(s) == s
    decreases |s|
  {
    hide Ungroup, Values, Chars, Clear;
    if s == "" {
    } else if |s| <= 4 {
      assert |s| == 4;
      FullGroupIsClear(Values(s));
      CharsOfValues(s);
    } else {
      WholeGroupsAreCanonical(s[4..]);
      assert s == s[..4] + s[4..];
    }
  }

  /** Two texts decode alike exactly when they differ in dropped bits only. */
  lemma DecodesAlike(s: string, t: string)
    requires AllInAlphabet(s) && AllInAlphabet(t) && |s| % 4 != 1 && |t| % 4 != 1
    ensures Decode(s) == Decode(t) <==> Canonical(s) == Canonical(t)
  {
    hide Decode, Canonical, Encode;
    Reencodes(s);
    Reencodes(t);
    RoundTrip(Decode(s).value);
    RoundTrip(Decode(t).value);
  }

  /** An encoding that is not whole groups has a second spelling. */
  lemma {:induction false} SecondSpelling(b: seq<Byte>) returns (t: string)
    requires |b| % 3 != 0
    ensures AllInAlphabet(t) && t != Encode(b) && |t| == |Encode(b)| && Decode(t) == Some(b)
  {
    hide Values, Chars, Group, Ungroup;
    if |b| <= 3 {
      t := OtherTail(b);
    } else {
      var rest := SecondSpelling(b[3..]);
      var head := Chars(Group(b[..3]));
      t := head + rest;
      assert t[..4] == head && t[4..] == rest && Encode(b)[4..] == Encode(b[3..]);
      ValuesOfChars(Group(b[..3]));
      UngroupGroup(b[..3]);
      assert b == b[..3] + b[3..];
    }
  }

  lemma OtherTail(b: seq<Byte>) returns (t: string)
    requires |b| == 1 || |b| == 2
    ensures AllInAlphabet(t) && t != Encode(b) && |t| == |b| + 1 && Decode(t) == Some(b)
  {
    hide Values, Chars;
    var q := Group(b);
    var last := q[|b|];
    var r := q[|b| := last + 1];
    UngroupGroup(b);
    assert Ungroup(r) == Ungroup(q);
    ValuesOfChars(r);
    ValuesOfChars(q);
    t := Chars(r);
  }
}
