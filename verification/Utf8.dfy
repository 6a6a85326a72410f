/** Strict UTF-8 (section 3 of RFC 3629), as str.encode and bytes.decode apply it. */
module Utf8 {
  import opened Basics

  /** The bytes of one character. */
  function EncodeChar(c: char): (b: seq<Byte>)
    ensures 1 <= |b| <= 4
    ensures |b| == 1 <==> c as int < 0x80
    ensures |b| == 1 ==> b[0] == c as int
    ensures |b| > 1 ==> forall i :: 0 <= i < |b| ==> b[i] >= 0x80
  {
    var n := c as int;
    if n < 0x80 then [n]
    else if n < 0x800 then [0xC0 + n / 64, 0x80 + n % 64]
    else if n < 0x10000 then [0xE0 + n / 4096, 0x80 + n / 64 % 64, 0x80 + n % 64]
    else [0xF0 + n / 262144, 0x80 + n / 4096 % 64, 0x80 + n / 64 % 64, 0x80 + n % 64]
  }

  function Encode(s: string): (b: seq<Byte>)
    ensures |b| >= |s|
  {
    if s == "" then [] else EncodeChar(s[0]) + Encode(s[1..])
  }

  predicate Continues(b: Byte) { 0x80 <= b < 0xC0 }

  /** Whether a number is a Unicode scalar value. */
  predicate IsScalar(n: int) { 0 <= n < 0xD800 || 0xE000 <= n < 0x110000 }

  /** The first character of `b` and the bytes it takes; None where a strict decoder raises. */
  function DecodeChar(b: seq<Byte>): (r: Option<(char, nat)>)
    requires b != []
    ensures r.Some? ==> 1 <= r.value.1 <= |b|
  {
    if b[0] < 0x80 then
      Some((b[0] as char, 1))
    else if 0xC2 <= b[0] < 0xE0 && |b| >= 2 && Continues(b[1]) then
      Some((Bits2(b[0], b[1]) as char, 2))
    else if 0xE0 <= b[0] < 0xF0 && |b| >= 3 && Continues(b[1]) && Continues(b[2]) then
      var n := Bits3(b[0], b[1], b[2]);
      if n < 0x800 || !IsScalar(n) then None else Some((n as char, 3))
    else if 0xF0 <= b[0] < 0xF5 && |b| >= 4 && Continues(b[1]) && Continues(b[2]) && Continues(b[3]) then
      var n := Bits4(b[0], b[1], b[2], b[3]);
      if n < 0x10000 || !IsScalar(n) then None else Some((n as char, 4))
    else
      None
  }

  // The number in the payload bits of a two-, three- and four-byte sequence.

  function Bits2(a: Byte, b: Byte): (n: nat)
    requires 0xC2 <= a < 0xE0 && Continues(b)
    ensures 0x80 <= n < 0x800 && n / 64 == a - 0xC0 && n % 64 == b - 0x80
  {
    (a as int - 0xC0) * 64 + (b as int - 0x80)
  }

  function Bits3(a: Byte, b: Byte, c: Byte): (n: nat)
    requires 0xE0 <= a < 0xF0 && Continues(b) && Continues(c)
    ensures n < 0x10000 && n / 4096 == a - 0xE0 && n / 64 % 64 == b - 0x80 && n % 64 == c - 0x80
  {
    var high := (a as int - 0xE0) * 64 + (b as int - 0x80);
    assert high / 64 == a - 0xE0 && high % 64 == b - 0x80;
    var n := high * 64 + (c as int - 0x80);
    assert n / 64 == high;
    assert n / 64 / 64 == n / 4096;
    n
  }

  function Bits4(a: Byte, b: Byte, c: Byte, d: Byte): (n: nat)
    requires 0xF0 <= a < 0xF5 && Continues(b) && Continues(c) && Continues(d)
    ensures n / 262144 == a - 0xF0 && n / 4096 % 64 == b - 0x80
    ensures n / 64 % 64 == c - 0x80 && n % 64 == d - 0x80
  {
    var top := (a as int - 0xF0) * 64 + (b as int - 0x80);
    assert top / 64 == a - 0xF0 && top % 64 == b - 0x80;
    var high := top * 64 + (c as int - 0x80);
    assert high / 64 == top && high % 64 == c - 0x80;
    var n := high * 64 + (d as int - 0x80);
    assert n / 64 == high && n / 64 / 64 == n / 4096 && n / 4096 / 64 == n / 262144;
    n
  }

  lemma DecodedCharReencodes(b: seq<Byte>)
    requires b != [] && DecodeChar(b).Some?
    ensures var (c, k) := DecodeChar(b).value; b[..k] == EncodeChar(c)
  {
  }

  function Decode(b: seq<Byte>): Option<string>
    decreases |b|
  {
    if b == [] then Some("")
    else
      match DecodeChar(b)
      case None => None
      case Some((c, k)) =>
        match Decode(b[k..])
        case None => None
        case Some(rest) => Some([c] + rest)
  }

  lemma Split2(n: int)
    requires 0x80 <= n < 0x800
    ensures 2 <= n / 64 < 32 && (n / 64) * 64 + n % 64 == n
  {
  }

  lemma Split3(n: int)
    requires 0x800 <= n < 0x10000
    ensures 0 <= n / 4096 < 16 && (n / 4096) * 4096 + (n / 64 % 64) * 64 + n % 64 == n
  {
    assert n / 64 / 64 == n / 4096;
    assert n / 64 == (n / 4096) * 64 + n / 64 % 64;
  }

  lemma Split4(n: int)
    requires 0x10000 <= n < 0x110000
    ensures 0 <= n / 262144 < 5
    ensures (n / 262144) * 262144 + (n / 4096 % 64) * 4096 + (n / 64 % 64) * 64 + n % 64 == n
  {
    assert n / 64 / 64 == n / 4096;
    assert n / 4096 / 64 == n / 262144;
    assert n / 64 == (n / 4096) * 64 + n / 64 % 64;
    assert n / 4096 == (n / 262144) * 64 + n / 4096 % 64;
  }

  /** Whatever bytes follow an encoded character, that character is read first. */
  lemma DecodeEncodedChar(c: char, rest: seq<Byte>)
    ensures DecodeChar(EncodeChar(c) + rest) == Some((c, |EncodeChar(c)|))
  {
    var n := c as int;
    var b := EncodeChar(c) + rest;
    assert forall i :: 0 <= i < |EncodeChar(c)| ==> b[i] == EncodeChar(c)[i];
    if n < 0x80 {
    } else if n < 0x800 {
      Split2(n);
    } else if n < 0x10000 {
      Split3(n);
    } else {
      Split4(n);
    }
  }

  /** Decoding undoes encoding, for every text. */
  lemma {:induction false} RoundTrip(s: string)
    ensures Decode(Encode(s)) == Some(s)
  {
    hide DecodeChar, EncodeChar;
    if s != "" {
      var b := Encode(s);
      DecodeEncodedChar(s[0], Encode(s[1..]));
      assert b[|EncodeChar(s[0])|..] == Encode(s[1..]);
      RoundTrip(s[1..]);
      assert s == [s[0]] + s[1..];
    }
  }

  /** The decoder is strict: what it accepts is the encoding of what it returns. */
  lemma {:induction false} DecodedReencodes(b: seq<Byte>)
    requires Decode(b).Some?
    ensures Encode(Decode(b).value) == b
    decreases |b|
  {
    hide DecodeChar, EncodeChar;
    if b != [] {
      var (c, k) := DecodeChar(b).value;
      DecodedCharReencodes(b);
      DecodedReencodes(b[k..]);
      var rest := Decode(b[k..]).value;
      assert ([c] + rest)[1..] == rest;
      assert b == b[..k] + b[k..];
    }
  }

  lemma Injective(s: string, t: string)
    requires Encode(s) == Encode(t)
    ensures s == t
  {
    RoundTrip(s);
    RoundTrip(t);
  }

  lemma {:induction false} EncodeConcat(s: string, t: string)
    ensures Encode(s + t) == Encode(s) + Encode(t)
  {
    if s == "" {
      assert s + t == t;
    } else {
      assert (s + t)[0] == s[0] && (s + t)[1..] == s[1..] + t;
      EncodeConcat(s[1..], t);
    }
  }

  lemma {:induction false} EncodeAscii(s: string)
    requires IsAscii(s)
    ensures Encode(s) == Ascii(s)
  {
    if s != "" {
      EncodeAscii(s[1..]);
    }
  }

  /** A byte below 128 occurs in the encoding exactly where its character occurs in the text. */
  lemma {:induction false} AsciiByteOccurs(s: string, c: char)
    requires c as int < 128
    ensures (c as int) in Encode(s) <==> c in s
  {
    if s != "" {
      AsciiByteOccurs(s[1..], c);
      assert s == [s[0]] + s[1..];
    }
  }
}
