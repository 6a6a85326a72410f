/** Commit-bound content IDs. */
module ContentId {
  import opened Basics
  import opened AdmittedPaths
  import Utf8
  import Base64Url

  const MAX_CONTENT_ID_CHARS := 8_192

  function Prefix(): string { "jn1_" }

  datatype IdError = Invalid | UnsafePath | Stale | NotFound | Crash

  datatype Decoded = Decoded(commit: string, path: string)

  predicate IsHex(c: char) { '0' <= c <= '9' || 'a' <= c <= 'f' }

  predicate IsCommit(s: string) { |s| == 40 && forall i :: 0 <= i < |s| ==> IsHex(s[i]) }

  function Payload(commit: string, path: string): seq<Byte> { Utf8.Encode(commit + "\0" + path) }

  function EncodeContentId(commit: string, path: string): Result<string, IdError> {
    if !IsCommit(commit) then Err(Invalid)
    else
      match ValidateRelativePath(path)
      case Ok(normalized) => Ok(Prefix() + Base64Url.Encode(Payload(commit, normalized)))
      case Err(Unsafe) => Err(UnsafePath)
      case Err(Crashed) => Err(Crash)
  }

  /** The position of the first zero byte, or the length. */
  function FirstZero(b: seq<Byte>): (k: nat)
    ensures k <= |b| && 0 !in b[..k]
    ensures k < |b| ==> b[k] == 0
  {
    if b == [] || b[0] == 0 then 0
    else
      var k := FirstZero(b[1..]);
      assert b[..k + 1] == [b[0]] + b[1..][..k];
      k + 1
  }

  /** bytes.decode("ascii") */
  function AsciiText(b: seq<Byte>): Option<string> {
    if exists i | 0 <= i < |b| :: b[i] >= 128 then None
    else Some(seq(|b|, i requires 0 <= i < |b| => b[i] as char))
  }

  function DecodePayload(raw: seq<Byte>): Result<Decoded, IdError> {
    var k := FirstZero(raw);
    if k == |raw| || 0 in raw[k + 1..] then Err(Invalid)
    else
      match (AsciiText(raw[..k]), Utf8.Decode(raw[k + 1..]))
      case (Some(commit), Some(path)) =>
        if !IsCommit(commit) then Err(Invalid)
        else (match ValidateRelativePath(path)
              case Ok(normalized) => Ok(Decoded(commit, normalized))
              case Err(Unsafe) => Err(Invalid)
              case Err(Crashed) => Err(Crash))
      case _ => Err(Invalid)
  }

  function DecodeContentId(id: string): Result<Decoded, IdError> {
    if !(Prefix() <= id) || |id| > MAX_CONTENT_ID_CHARS then Err(Invalid)
    else
      var encoded := id[|Prefix()|..];
      if encoded == "" || !Base64Url.AllInAlphabet(encoded) then Err(Invalid)
      else
        match Base64Url.Decode(encoded)
        case None => Err(Invalid)
        case Some(raw) => DecodePayload(raw)
  }

  /** The ID with the bits that decoding ignores set to zero. */
  function CanonicalId(id: string): string
    requires DecodeContentId(id).Ok?
  {
    Prefix() + Base64Url.Canonical(id[|Prefix()|..])
  }

  // Payloads

  lemma CommitText(commit: string)
    requires IsCommit(commit)
    ensures IsAscii(commit) && '\0' !in commit && AsciiText(Ascii(commit)) == Some(commit)
  {
    assert forall i :: 0 <= i < |commit| ==> IsHex(commit[i]);
    var bytes := Ascii(commit);
    assert seq(|bytes|, i requires 0 <= i < |bytes| => bytes[i] as char) == commit;
  }

  lemma PayloadBytes(commit: string, path: string)
    requires IsCommit(commit)
    ensures Payload(commit, path) == Ascii(commit) + [0] + Utf8.Encode(path)
  {
    CommitText(commit);
    Utf8.EncodeConcat(commit + "\0", path);
    Utf8.EncodeConcat(commit, "\0");
    Utf8.EncodeAscii(commit);
    Utf8.EncodeAscii("\0");
  }

  lemma FirstZeroOf(a: seq<Byte>, rest: seq<Byte>)
    requires 0 !in a
    ensures FirstZero(a + [0] + rest) == |a|
  {
    var b := a + [0] + rest;
    var k := FirstZero(b);
    assert b[|a|] == 0;
    assert forall i :: 0 <= i < |a| ==> b[i] == a[i] && a[i] in a;
    assert forall i :: 0 <= i < k ==> b[..k][i] == b[i] && b[..k][i] in b[..k];
  }

  lemma CommitBytes(commit: string)
    requires IsCommit(commit)
    ensures 0 !in Ascii(commit)
  {
    assert forall i :: 0 <= i < |commit| ==> IsHex(commit[i]);
  }

  /** A payload reads back exactly when its path is accepted. */
  lemma PayloadRoundTrip(commit: string, path: string)
    requires IsCommit(commit) && InCorpus(Split(path, '/'))
    ensures DecodePayload(Payload(commit, path)) == Ok(Decoded(commit, path))
  {
    hide Utf8.Encode, Utf8.Decode, FirstZero, AsciiText, Ascii, IsCommit, InCorpus, ValidateRelativePath;
    PayloadBytes(commit, path);
    CommitText(commit);
    CommitBytes(commit);
    var head, tail := Ascii(commit), Utf8.Encode(path);
    var raw := head + [0] + tail;
    FirstZeroOf(head, tail);
    assert raw[..|head|] == head && raw[|head| + 1..] == tail;
    ValidatesCorpus(path);
    CorpusHasNoNul(path);
    Utf8.AsciiByteOccurs(path, '\0');
    Utf8.RoundTrip(path);
  }

  lemma CorpusHasNoNul(path: string)
    requires InCorpus(Split(path, '/'))
    ensures '\0' !in path
  {
    hide Split, Suffix, LowerAscii;
    InJoined(Split(path, '/'), '/', '\0');
  }

  lemma PayloadInjective(c: string, p: string, d: string, q: string)
    requires IsCommit(c) && IsCommit(d) && Payload(c, p) == Payload(d, q)
    ensures c == d && p == q
  {
    hide IsCommit;
    Utf8.Injective(c + "\0" + p, d + "\0" + q);
    CommitLength(c);
    CommitLength(d);
    var s, t := c + "\0" + p, d + "\0" + q;
    assert c == s[..40] && d == t[..40] && p == s[41..] && q == t[41..];
  }

  lemma CommitLength(c: string)
    requires IsCommit(c)
    ensures |c| == 40
  {
  }

  /** What a payload reads back as determines the payload. */
  lemma PayloadReencodes(raw: seq<Byte>)
    requires DecodePayload(raw).Ok?
    ensures var d := DecodePayload(raw).value;
            IsCommit(d.commit) && InCorpus(Split(d.path, '/')) && Payload(d.commit, d.path) == raw
  {
    hide Utf8.Encode, Utf8.Decode, FirstZero, AsciiText, Ascii, IsCommit, InCorpus, ValidateRelativePath;
    var k := FirstZero(raw);
    var d := DecodePayload(raw).value;
    var path := Utf8.Decode(raw[k + 1..]).value;
    ValidatesCorpus(path);
    Utf8.DecodedReencodes(raw[k + 1..]);
    PayloadBytes(d.commit, path);
    AsciiTextBytes(raw[..k], d.commit);
    assert raw == raw[..k] + [0] + raw[k + 1..];
  }

  lemma AsciiTextBytes(b: seq<Byte>, text: string)
    requires AsciiText(b) == Some(text)
    ensures IsAscii(text) && Ascii(text) == b
  {
  }

  // Content IDs

  /** Which arguments get an ID, and what it looks like. */
  lemma Encodes(commit: string, path: string)
    ensures EncodeContentId(commit, path) ==
              if !IsCommit(commit) then Err(Invalid)
              else if !InCorpus(Split(path, '/')) then Err(UnsafePath)
              else Ok(Prefix() + Base64Url.Encode(Payload(commit, path)))
  {
    hide InCorpus, IsCommit, Payload, Base64Url.Encode, ValidateRelativePath;
    ValidatesCorpus(path);
  }

  /**
   An ID is made for 40 lower-case hex digits and a path of the corpus, and is "jn1_" and the base64url of
   commit, NUL and path.
  */
  lemma IdExactly(commit: string, path: string)
    ensures EncodeContentId(commit, path) ==
              if !(|commit| == 40 && forall i :: 0 <= i < 40 ==> '0' <= commit[i] <= '9' || 'a' <= commit[i] <= 'f') then Err(Invalid)
              else if !Belongs(Split(path, '/')) then Err(UnsafePath)
              else Ok("jn1_" + Base64Url.Encode(Utf8.Encode(commit + "\0" + path)))
  {
    hide InCorpus, Belongs, Base64Url.Encode, Utf8.Encode, EncodeContentId, Split;
    Encodes(commit, path);
    PolicyMeans(Split(path, '/'));
  }

  /**
   For every commit and admitted path the ID reads back, exactly when the path has at most 6100
   UTF-8 bytes; a longer path gets an ID that the decoder refuses for its length.
  */
  lemma RoundTrip(commit: string, path: string)
    requires IsCommit(commit) && InCorpus(Split(path, '/'))
    ensures EncodeContentId(commit, path).Ok?
    ensures DecodeContentId(EncodeContentId(commit, path).value) ==
              if |Utf8.Encode(path)| <= 6100 then Ok(Decoded(commit, path)) else Err(Invalid)
  {
    hide InCorpus, IsCommit, Payload, DecodePayload, Base64Url.Encode, Base64Url.Decode, EncodeContentId, Utf8.Encode;
    Encodes(commit, path);
    PayloadBytes(commit, path);
    CommitLength(commit);
    var raw := Payload(commit, path);
    var encoded := Base64Url.Encode(raw);
    var id := Prefix() + encoded;
    assert |raw| == 41 + |Utf8.Encode(path)|;
    assert id[|Prefix()|..] == encoded;
    Base64Url.RoundTrip(raw);
    PayloadRoundTrip(commit, path);
  }

  /** Different commits or paths get different IDs, whatever their length. */
  lemma Injective(c: string, p: string, d: string, q: string)
    requires EncodeContentId(c, p).Ok? && EncodeContentId(c, p) == EncodeContentId(d, q)
    ensures c == d && p == q
  {
    hide InCorpus, IsCommit, Payload, Base64Url.Encode, Base64Url.Decode, EncodeContentId;
    Encodes(c, p);
    Encodes(d, q);
    var s, t := Base64Url.Encode(Payload(c, p)), Base64Url.Encode(Payload(d, q));
    assert (Prefix() + s)[4..] == s && (Prefix() + t)[4..] == t;
    Base64Url.RoundTrip(Payload(c, p));
    Base64Url.RoundTrip(Payload(d, q));
    PayloadInjective(c, p, d, q);
  }

  /** What an ID reads back as encodes to the ID again, up to the ignored bits. */
  lemma Reencodes(id: string)
    requires DecodeContentId(id).Ok?
    ensures var d := DecodeContentId(id).value; EncodeContentId(d.commit, d.path) == Ok(CanonicalId(id))
  {
    hide InCorpus, IsCommit, Payload, DecodePayload, Base64Url.Encode, Base64Url.Decode, EncodeContentId,
         Base64Url.Canonical;
    var encoded := id[|Prefix()|..];
    var raw := Base64Url.Decode(encoded).value;
    var d := DecodeContentId(id).value;
    PayloadReencodes(raw);
    Encodes(d.commit, d.path);
    Base64Url.Reencodes(encoded);
  }

  /** Two IDs mean the same file exactly when they agree up to the ignored bits. */
  lemma SameMeaning(a: string, b: string)
    requires DecodeContentId(a).Ok? && DecodeContentId(b).Ok?
    ensures DecodeContentId(a) == DecodeContentId(b) <==> CanonicalId(a) == CanonicalId(b)
  {
    hide DecodeContentId, EncodeContentId, CanonicalId;
    Reencodes(a);
    Reencodes(b);
    if CanonicalId(a) == CanonicalId(b) {
      var d, e := DecodeContentId(a).value, DecodeContentId(b).value;
      Injective(d.commit, d.path, e.commit, e.path);
    }
  }

  /** Unless the payload fills whole groups, a second ID means the same file. */
  lemma SecondId(commit: string, path: string) returns (other: string)
    requires IsCommit(commit) && InCorpus(Split(path, '/')) && |Utf8.Encode(path)| <= 6100
    requires |Utf8.Encode(path)| % 3 != 1
    ensures Ok(other) != EncodeContentId(commit, path) && DecodeContentId(other) == Ok(Decoded(commit, path))
  {
    hide InCorpus, IsCommit, Payload, DecodePayload, Base64Url.Encode, Base64Url.Decode, EncodeContentId, Utf8.Encode;
    Encodes(commit, path);
    PayloadBytes(commit, path);
    CommitLength(commit);
    var raw := Payload(commit, path);
    assert |raw| == 41 + |Utf8.Encode(path)|;
    var spelling := Base64Url.SecondSpelling(raw);
    other := Prefix() + spelling;
    assert other[4..] == spelling && (Prefix() + Base64Url.Encode(raw))[4..] == Base64Url.Encode(raw);
    PayloadRoundTrip(commit, path);
  }

  /** When the payload fills whole groups, only the encoder's ID means the file. */
  lemma OnlyId(id: string, commit: string, path: string)
    requires DecodeContentId(id) == Ok(Decoded(commit, path)) && |Utf8.Encode(path)| % 3 == 1
    ensures EncodeContentId(commit, path) == Ok(id)
  {
    hide InCorpus, IsCommit, Payload, DecodePayload, Base64Url.Encode, Base64Url.Decode, EncodeContentId,
         Base64Url.Canonical, Utf8.Encode;
    var encoded := id[|Prefix()|..];
    var raw := Base64Url.Decode(encoded).value;
    PayloadReencodes(raw);
    PayloadBytes(commit, path);
    CommitLength(commit);
    assert |raw| == 41 + |Utf8.Encode(path)|;
    Base64Url.WholeGroupsAreCanonical(encoded);
    Reencodes(id);
    assert id == Prefix() + encoded;
  }

  /** The ID is the only one for its file. */
  ghost predicate IsUnique(commit: string, path: string) {
    forall id :: DecodeContentId(id) == Ok(Decoded(commit, path)) ==> EncodeContentId(commit, path) == Ok(id)
  }

  /** Of the files that IDs can mean, exactly those whose path length leaves the payload in whole groups have one ID. */
  lemma UniqueExactly(commit: string, path: string)
    requires IsCommit(commit) && InCorpus(Split(path, '/')) && |Utf8.Encode(path)| <= 6100
    ensures IsUnique(commit, path) <==> |Utf8.Encode(path)| % 3 == 1
  {
    hide InCorpus, IsCommit, DecodeContentId, EncodeContentId, Utf8.Encode;
    if |Utf8.Encode(path)| % 3 == 1 {
      forall id | DecodeContentId(id) == Ok(Decoded(commit, path)) ensures EncodeContentId(commit, path) == Ok(id) {
        OnlyId(id, commit, path);
      }
    } else {
      var other := SecondId(commit, path);
    }
  }

  // Resolution against a snapshot

  /** resolve_content_id up to the re-check of the file on disk. */
  function Resolve(active: string, files: set<string>, id: string): Result<string, IdError> {
    match DecodeContentId(id)
    case Err(e) => Err(e)
    case Ok(d) =>
      if d.commit != active then Err(Stale)
      else
        match ValidateRelativePath(d.path)
        case Err(Unsafe) => Err(UnsafePath)
        case Err(Crashed) => Err(Crash)
        case Ok(path) => if path in files then Ok(path) else Err(NotFound)
  }

  /** An ID resolves to the file it was made for, and only under the commit it was made for. */
  lemma Resolves(commit: string, path: string, active: string, files: set<string>)
    requires IsCommit(commit) && InCorpus(Split(path, '/')) && |Utf8.Encode(path)| <= 6100
    ensures EncodeContentId(commit, path).Ok?
    ensures Resolve(active, files, EncodeContentId(commit, path).value) ==
              if commit != active then Err(Stale) else if path in files then Ok(path) else Err(NotFound)
  {
    hide InCorpus, IsCommit, DecodeContentId, EncodeContentId, Utf8.Encode, ValidateRelativePath;
    RoundTrip(commit, path);
    ValidatesCorpus(path);
  }

  /** Whatever resolves is a file of the active snapshot, named by an ID for the active commit. */
  lemma ResolvesOnlyMembers(active: string, files: set<string>, id: string)
    ensures Resolve(active, files, id).Ok? <==>
              DecodeContentId(id).Ok? && DecodeContentId(id).value.commit == active && DecodeContentId(id).value.path in files
    ensures Resolve(active, files, id).Err? ==> Resolve(active, files, id).error in {Invalid, Stale, NotFound}
  {
    hide Payload, ValidateRelativePath, InCorpus, Base64Url.Decode, DecodePayload;
    var encoded := id[if |id| < 4 then |id| else 4..];
    if Prefix() <= id && Base64Url.AllInAlphabet(encoded) && Base64Url.Decode(encoded).Some? {
      var raw := Base64Url.Decode(encoded).value;
      DecodeFailsInvalid(raw);
      if DecodePayload(raw).Ok? {
        PayloadReencodes(raw);
        ValidatesCorpus(DecodePayload(raw).value.path);
      }
    }
  }

  lemma DecodeFailsInvalid(raw: seq<Byte>)
    ensures DecodePayload(raw).Err? ==> DecodePayload(raw).error == Invalid
  {
    hide Utf8.Decode, FirstZero, AsciiText, IsCommit, InCorpus, ValidateRelativePath;
    forall path: string ensures ValidateRelativePath(path) != Err(Crashed) {
      ValidatesCorpus(path);
    }
  }
}
