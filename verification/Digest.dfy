/** The byte stream that the snapshot digest is taken over. */
module DigestStream {
  import opened Basics
  import opened Decimal
  import Utf8

  /** A file as the digest sees it: its repository path, the recorded size and the bytes read. */
  datatype Item = Item(path: string, size: nat, content: seq<Byte>)

  function Framed(i: Item): seq<Byte> {
    Utf8.Encode(i.path) + [0] + SizeText(i.size) + [0] + i.content + [0]
  }

  function SizeText(n: nat): (b: seq<Byte>)
    ensures 0 !in b
  {
    var d := Digits(n);
    assert forall i :: 0 <= i < |d| ==> IsDigit(d[i]);
    Ascii(d)
  }

  /** The recorded size reads back as the number. */
  lemma SizeTextReads(n: nat) returns (text: string)
    ensures AllDigits(text) && Value(text) == n
    ensures |SizeText(n)| == |text| && forall i :: 0 <= i < |text| ==> SizeText(n)[i] == text[i] as int
  {
    text := Digits(n);
  }

  function Stream(items: seq<Item>): seq<Byte> {
    if items == [] then [] else Framed(items[0]) + Stream(items[1..])
  }

  /** A path without NUL whose recorded size is the number of bytes read. */
  predicate Honest(i: Item) { '\0' !in i.path && i.size == |i.content| }

  lemma FirstNul(a: seq<Byte>, x: seq<Byte>, b: seq<Byte>, y: seq<Byte>)
    requires 0 !in a && 0 !in b && a + [0] + x == b + [0] + y
    ensures a == b && x == y
  {
    var s, t := a + [0] + x, b + [0] + y;
    assert s[|a|] == 0 && t[|b|] == 0;
    assert forall i :: 0 <= i < |a| ==> s[i] == a[i] && a[i] in a;
    assert forall i :: 0 <= i < |b| ==> t[i] == b[i] && b[i] in b;
    assert a == s[..|a|] && b == t[..|b|];
    assert x == s[|a| + 1..] && y == t[|b| + 1..];
  }

  lemma SizeTextInjective(m: nat, n: nat)
    requires SizeText(m) == SizeText(n)
    ensures m == n
  {
    var c, d := Digits(m), Digits(n);
    assert forall i :: 0 <= i < |c| ==> SizeText(m)[i] == c[i] as int;
    assert forall i :: 0 <= i < |d| ==> SizeText(n)[i] == d[i] as int;
    assert c == d;
    DigitsInjective(m, n);
  }

  lemma FramedThen(i: Item, x: seq<Byte>)
    ensures Framed(i) + x == Utf8.Encode(i.path) + [0] + (SizeText(i.size) + [0] + (i.content + [0] + x))
  {
    hide SizeText;
  }

  lemma ContentThen(c: seq<Byte>, x: seq<Byte>, d: seq<Byte>, y: seq<Byte>)
    requires |c| == |d| && c + [0] + x == d + [0] + y
    ensures c == d && x == y
  {
    var s, t := c + [0] + x, d + [0] + y;
    assert c == s[..|c|] && d == t[..|d|];
    assert x == s[|c| + 1..] && y == t[|d| + 1..];
  }

  /** One item's frame tells where the item ends. */
  lemma FramedPrefix(i: Item, x: seq<Byte>, j: Item, y: seq<Byte>)
    requires Honest(i) && Honest(j) && Framed(i) + x == Framed(j) + y
    ensures i == j && x == y
  {
    hide SizeText, Framed, Utf8.Encode;
    Utf8.AsciiByteOccurs(i.path, '\0');
    Utf8.AsciiByteOccurs(j.path, '\0');
    FramedThen(i, x);
    FramedThen(j, y);
    var restI, restJ := i.content + [0] + x, j.content + [0] + y;
    FirstNul(Utf8.Encode(i.path), SizeText(i.size) + [0] + restI, Utf8.Encode(j.path), SizeText(j.size) + [0] + restJ);
    FirstNul(SizeText(i.size), restI, SizeText(j.size), restJ);
    SizeTextInjective(i.size, j.size);
    Utf8.Injective(i.path, j.path);
    ContentThen(i.content, x, j.content, y);
  }

  /** The stream determines the corpus: paths, sizes, contents and their order. */
  lemma {:induction false} StreamInjective(a: seq<Item>, b: seq<Item>)
    requires forall k :: 0 <= k < |a| ==> Honest(a[k])
    requires forall k :: 0 <= k < |b| ==> Honest(b[k])
    requires Stream(a) == Stream(b)
    ensures a == b
  {
    hide Framed, Honest;
    if a == [] || b == [] {
      if a != [] { FramedNonempty(a[0]); }
      if b != [] { FramedNonempty(b[0]); }
    } else {
      FramedPrefix(a[0], Stream(a[1..]), b[0], Stream(b[1..]));
      StreamInjective(a[1..], b[1..]);
      assert a == [a[0]] + a[1..] && b == [b[0]] + b[1..];
    }
  }

  lemma FramedNonempty(i: Item)
    ensures Framed(i) != []
  {
  }

  /** A recorded size that is not the number of bytes read can make two corpora collide. */
  lemma DishonestSizesCollide()
    ensures var a := [Item("a", 1, []), Item("b", 0, [])];
            var b := [Item("a", 1, [0] + Utf8.Encode("b") + [0] + SizeText(0) + [0])];
            Stream(a) == Stream(b) && a != b
  {
    var a := [Item("a", 1, []), Item("b", 0, [])];
    assert a[1..] == [a[1]] && a[1..][1..] == [];
  }

  lemma {:induction false} StreamMore(items: seq<Item>, i: Item)
    ensures Stream(items + [i]) == Stream(items) + Framed(i)
  {
    if items == [] {
      assert [i][1..] == [];
    } else {
      assert (items + [i])[1..] == items[1..] + [i];
      StreamMore(items[1..], i);
    }
  }
}
