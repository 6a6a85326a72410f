/** Types and sequence facts shared by the other modules. */
module Basics {

  type Byte = b: int | 0 <= b < 256

  datatype Option<+T> = None | Some(value: T)

  datatype Result<+T, +E> = Ok(value: T) | Err(error: E)

  /** The code units of an ASCII text, one byte a character. */
  function Ascii(s: string): (r: seq<Byte>)
    requires IsAscii(s)
    ensures |r| == |s|
    ensures forall i :: 0 <= i < |s| ==> r[i] == s[i] as int
  {
    seq(|s|, i requires 0 <= i < |s| => s[i] as int)
  }

  predicate IsAscii(s: string) {
    forall i :: 0 <= i < |s| ==> s[i] as int < 128
  }

  predicate IsAlphanumeric(c: char) { 'A' <= c <= 'Z' || 'a' <= c <= 'z' || '0' <= c <= '9' }

  /** The characters of idempotency keys. */
  predicate IsKeyChar(c: char) { IsAlphanumeric(c) || c == '.' || c == '_' || c == '-' }

  predicate IsControl(c: char) { c as int < 0x20 || c as int == 0x7f }

  predicate NoControl(s: string) { forall i :: 0 <= i < |s| ==> !IsControl(s[i]) }

  /** str.isspace, the characters that str.strip removes. */
  predicate IsWhiteSpace(c: char) {
    var n := c as int;
    9 <= n <= 13 || 28 <= n <= 32 || n == 0x85 || n == 0xa0 || n == 0x1680 || 0x2000 <= n <= 0x200a ||
    n == 0x2028 || n == 0x2029 || n == 0x202f || n == 0x205f || n == 0x3000
  }

  /** str.strip() */
  function Strip(s: string): (r: string)
    ensures |r| <= |s|
  {
    if s == "" then s
    else if IsWhiteSpace(s[0]) then Strip(s[1..])
    else if IsWhiteSpace(s[|s| - 1]) then Strip(s[..|s| - 1])
    else s
  }

  predicate IsStripped(s: string) { s != "" ==> !IsWhiteSpace(s[0]) && !IsWhiteSpace(s[|s| - 1]) }

  lemma StripLeaves(s: string)
    ensures Strip(s) == s <==> IsStripped(s)
  {
    hide IsWhiteSpace;
    if s != "" && IsWhiteSpace(s[0]) {
      assert |Strip(s[1..])| < |s|;
    } else if s != "" && IsWhiteSpace(s[|s| - 1]) {
      assert |Strip(s[..|s| - 1])| < |s|;
    }
  }

  /** str.lower() and str.casefold() of ASCII letters. */
  function LowerAscii(s: string): string {
    seq(|s|, i requires 0 <= i < |s| => if 'A' <= s[i] <= 'Z' then (s[i] as int + 32) as char else s[i])
  }

  /** Equal up to the case of ASCII letters. */
  predicate SameLetter(a: char, b: char) {
    || a == b
    || ('A' <= a <= 'Z' && b as int == a as int + ('a' as int - 'A' as int))
    || ('A' <= b <= 'Z' && a as int == b as int + ('a' as int - 'A' as int))
  }

  predicate SameLetters(s: string, t: string) {
    |s| == |t| && forall i :: 0 <= i < |s| ==> SameLetter(s[i], t[i])
  }

  /** Lower-casing identifies the texts that differ in the case of letters, and no others. */
  lemma LowerAsciiFolds(s: string, t: string)
    ensures LowerAscii(s) == LowerAscii(t) <==> SameLetters(s, t)
  {
    var a, b := LowerAscii(s), LowerAscii(t);
    if a == b {
      assert |s| == |a| == |b| == |t|;
      forall i | 0 <= i < |s| ensures SameLetter(s[i], t[i]) { assert a[i] == b[i]; }
    }
    if SameLetters(s, t) {
      assert forall i :: 0 <= i < |s| ==> SameLetter(s[i], t[i]) && a[i] == b[i];
    }
  }

  /** No two positions of `s` hold the same element. */
  ghost predicate Distinct<T>(s: seq<T>) {
    forall i, j :: 0 <= i < j < |s| ==> s[i] != s[j]
  }

  /** The position of the first `c` in `s` at or after `from`, or |s|. */
  function IndexOf(s: string, c: char, from: nat): (k: nat)
    requires from <= |s|
    ensures from <= k <= |s|
    ensures forall i :: from <= i < k ==> s[i] != c
    ensures k < |s| ==> s[k] == c
    decreases |s| - from
  {
    if from == |s| || s[from] == c then from else IndexOf(s, c, from + 1)
  }

  /** str.split(c): the pieces between the occurrences of `c`; never empty. */
  function Split(s: string, c: char): (parts: seq<string>)
    ensures |parts| >= 1
    ensures forall i :: 0 <= i < |parts| ==> c !in parts[i]
    ensures Join(parts, c) == s
    decreases |s|
  {
    var k := IndexOf(s, c, 0);
    if k == |s| then
      [s]
    else
      assert s == s[..k] + [c] + s[k + 1..];
      [s[..k]] + Split(s[k + 1..], c)
  }

  function Join(parts: seq<string>, c: char): string {
    if |parts| == 0 then ""
    else if |parts| == 1 then parts[0]
    else parts[0] + ([c] + Join(parts[1..], c))
  }

  lemma SplitFirst(piece: string, rest: string, c: char)
    requires c !in piece
    ensures Split(piece, c) == [piece]
    ensures Split(piece + ([c] + rest), c) == [piece] + Split(rest, c)
  {
    var s := piece + ([c] + rest);
    assert forall i :: 0 <= i < |piece| ==> s[i] == piece[i] && s[i] in piece;
    assert s[|piece|] == c;
    assert s[..|piece|] == piece && s[|piece| + 1..] == rest;
    assert IndexOf(piece, c, 0) == |piece|;
  }

  /** Splitting undoes joining when no piece contains the separator. */
  lemma {:induction false} SplitJoin(parts: seq<string>, c: char)
    requires |parts| >= 1
    requires forall i :: 0 <= i < |parts| ==> c !in parts[i]
    ensures Split(Join(parts, c), c) == parts
  {
    hide Split;
    if |parts| == 1 {
      SplitFirst(parts[0], "", c);
    } else {
      SplitFirst(parts[0], Join(parts[1..], c), c);
      SplitJoin(parts[1..], c);
    }
  }
}

/** Decimal numerals, as int() and str() read and write them. */
module Decimal {
  import opened Basics

  predicate IsDigit(c: char) { '0' <= c <= '9' }

  predicate AllDigits(s: string) { forall i :: 0 <= i < |s| ==> IsDigit(s[i]) }

  function DigitChar(d: nat): (c: char)
    requires d < 10
    ensures IsDigit(c) && DigitValue(c) == d
  {
    (('0' as int) + d) as char
  }

  function DigitValue(c: char): (d: nat)
    requires IsDigit(c)
    ensures d < 10
  {
    c as int - '0' as int
  }

  /** str(n) */
  function Digits(n: nat): (s: string)
    ensures |s| >= 1 && AllDigits(s)
    ensures Value(s) == n
    ensures s[0] == '0' ==> n == 0 && |s| == 1
  {
    if n < 10 then [DigitChar(n)]
    else
      var s := Digits(n / 10) + [DigitChar(n % 10)];
      assert s[..|s| - 1] == Digits(n / 10);
      s
  }

  /** The number a run of digits denotes. */
  function Value(s: string): nat
    requires AllDigits(s)
  {
    if s == "" then 0 else Value(s[..|s| - 1]) * 10 + DigitValue(s[|s| - 1])
  }

  /** Different numbers have different numerals. */
  lemma DigitsInjective(a: nat, b: nat)
    requires Digits(a) == Digits(b)
    ensures a == b
  {
    assert Value(Digits(a)) == Value(Digits(b));
  }

  /** The numeral of a number below 10^k has at most k digits. */
  lemma DigitsBelow10000(n: nat)
    requires n < 10000
    ensures |Digits(n)| <= 4
  {
    assert n / 10 < 1000;
    assert n / 10 / 10 < 100;
    assert n / 10 / 10 / 10 < 10;
    assert |Digits(n / 10 / 10 / 10)| == 1;
    assert |Digits(n / 10 / 10)| <= 2;
    assert |Digits(n / 10)| <= 3;
  }

  /** The longest run of leading digits, and what follows it. */
  function LeadingDigits(s: string): (k: nat)
    ensures k <= |s| && AllDigits(s[..k])
    ensures k < |s| ==> !IsDigit(s[k])
  {
    if s == "" || !IsDigit(s[0]) then 0
    else
      var k := LeadingDigits(s[1..]);
      assert s[..k + 1] == [s[0]] + s[1..][..k];
      k + 1
  }

  lemma LeadingDigitsOf(d: string, rest: string)
    requires AllDigits(d)
    requires rest == "" || !IsDigit(rest[0])
    ensures LeadingDigits(d + rest) == |d|
  {
    var t := d + rest;
    var k := LeadingDigits(t);
    assert forall i :: 0 <= i < |d| ==> t[i] == d[i];
    assert rest != "" ==> t[|d|] == rest[0];
    assert forall i :: 0 <= i < k ==> t[..k][i] == t[i];
  }

  /** A fixed-width numeral: n written with leading zeros on `width` places. */
  function Padded(n: nat, width: nat): (s: string)
    ensures |s| == width && AllDigits(s)
  {
    if width == 0 then "" else Padded(n / 10, width - 1) + [DigitChar(n % 10)]
  }

  function Pow10(k: nat): (p: nat)
    ensures p >= 1
  {
    if k == 0 then 1 else 10 * Pow10(k - 1)
  }

  lemma {:induction false} PaddedValue(n: nat, width: nat)
    requires n < Pow10(width)
    ensures Value(Padded(n, width)) == n
  {
    if width > 0 {
      var s := Padded(n, width);
      assert s[..width - 1] == Padded(n / 10, width - 1);
      assert n / 10 < Pow10(width - 1);
      PaddedValue(n / 10, width - 1);
    }
  }
}
