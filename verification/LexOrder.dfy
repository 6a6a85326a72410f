/** Lexicographic order on strings of numbers, and sorting by such a key. */
module LexOrder {

  predicate LexLess(a: seq<int>, b: seq<int>) {
    b != [] && (a == [] || a[0] < b[0] || (a[0] == b[0] && LexLess(a[1..], b[1..])))
  }

  lemma {:induction false} Irreflexive(a: seq<int>)
    ensures !LexLess(a, a)
  {
    if a != [] { Irreflexive(a[1..]); }
  }

  lemma {:induction false} Total(a: seq<int>, b: seq<int>)
    ensures LexLess(a, b) || LexLess(b, a) || a == b
  {
    if a != [] && b != [] && a[0] == b[0] {
      Total(a[1..], b[1..]);
      assert a == [a[0]] + a[1..] && b == [b[0]] + b[1..];
    }
  }

  lemma Asymmetric(a: seq<int>, b: seq<int>)
    requires LexLess(a, b)
    ensures !LexLess(b, a)
  {
    if LexLess(b, a) {
      Weaken(a, b, a);
      Irreflexive(a);
    }
  }

  lemma {:induction false} Weaken(a: seq<int>, b: seq<int>, c: seq<int>)
    requires LexLess(a, b) && LexLess(b, c)
    ensures LexLess(a, c)
  {
    if a != [] && a[0] == b[0] == c[0] { Weaken(a[1..], b[1..], c[1..]); }
  }

  datatype Keyed<T> = Keyed(key: seq<int>, value: T)

  ghost predicate StrictlySorted<T>(s: seq<Keyed<T>>) {
    forall i, j :: 0 <= i < j < |s| ==> LexLess(s[i].key, s[j].key)
  }

  function Insert<T>(x: Keyed<T>, s: seq<Keyed<T>>): seq<Keyed<T>> {
    if s == [] || !LexLess(s[0].key, x.key) then [x] + s else [s[0]] + Insert(x, s[1..])
  }

  /** list.sort(key=...): stable, by the key's bytes. */
  function Sort<T>(s: seq<Keyed<T>>): seq<Keyed<T>> {
    if s == [] then [] else Insert(s[0], Sort(s[1..]))
  }

  ghost predicate DifferentKeys<T>(s: seq<Keyed<T>>) {
    forall i, j :: 0 <= i < j < |s| ==> s[i].key != s[j].key
  }

  lemma {:induction false} InsertOrders<T(!new)>(x: Keyed<T>, s: seq<Keyed<T>>)
    requires StrictlySorted(s) && forall i :: 0 <= i < |s| ==> s[i].key != x.key
    ensures StrictlySorted(Insert(x, s)) && |Insert(x, s)| == |s| + 1
    ensures forall y :: y in Insert(x, s) <==> y == x || y in s
  {
    var r := Insert(x, s);
    if s == [] {
    } else if !LexLess(s[0].key, x.key) {
      Total(s[0].key, x.key);
      forall j | 0 <= j < |s| ensures LexLess(x.key, s[j].key) {
        if j > 0 { Weaken(x.key, s[0].key, s[j].key); }
      }
    } else {
      var rest := Insert(x, s[1..]);
      InsertOrders(x, s[1..]);
      assert s == [s[0]] + s[1..];
      forall j | 0 <= j < |rest| ensures LexLess(s[0].key, rest[j].key) {
        var y := rest[j];
        assert y in rest;
        if y != x {
          assert y in s[1..];
          var k :| 0 <= k < |s[1..]| && s[1..][k] == y;
          assert s[k + 1] == y;
        }
      }
    }
  }

  /** Sorting puts the same elements in the order of their keys. */
  lemma {:induction false} SortOrders<T(!new)>(s: seq<Keyed<T>>)
    requires DifferentKeys(s)
    ensures StrictlySorted(Sort(s)) && |Sort(s)| == |s|
    ensures forall y :: y in Sort(s) <==> y in s
  {
    if s != [] {
      SortOrders(s[1..]);
      var rest := Sort(s[1..]);
      forall i | 0 <= i < |rest| ensures rest[i].key != s[0].key {
        var y := rest[i];
        assert y in rest;
        assert y in s[1..];
        var k :| 0 <= k < |s[1..]| && s[1..][k] == y;
        assert s[k + 1] == y;
      }
      InsertOrders(s[0], rest);
      assert s == [s[0]] + s[1..];
    }
  }

  /** There is only one way to put a set of elements with different keys in order. */
  lemma {:induction false} OneOrder<T(!new)>(s: seq<Keyed<T>>, t: seq<Keyed<T>>)
    requires StrictlySorted(s) && StrictlySorted(t)
    requires forall x :: x in s <==> x in t
    ensures s == t
  {
    if s == [] {
      HeadOccurs(t);
    } else {
      assert s[0] in t && t != [];
      assert t[0] in s;
      var j :| 0 <= j < |t| && t[j] == s[0];
      var i :| 0 <= i < |s| && s[i] == t[0];
      if i > 0 && j > 0 { Asymmetric(s[0].key, t[0].key); }
      assert s[0] == t[0];
      forall x ensures x in s[1..] <==> x in t[1..] {
        TailElements(s, x);
        TailElements(t, x);
      }
      OneOrder(s[1..], t[1..]);
      assert s == [s[0]] + s[1..] && t == [t[0]] + t[1..];
    }
  }

  lemma HeadOccurs<T(!new)>(s: seq<T>)
    ensures s != [] ==> s[0] in s
  {
  }

  lemma TailElements<T(!new)>(s: seq<Keyed<T>>, x: Keyed<T>)
    requires s != [] && StrictlySorted(s)
    ensures x in s[1..] <==> x in s && x != s[0]
  {
    Irreflexive(s[0].key);
    if x in s[1..] {
      var i :| 0 <= i < |s[1..]| && s[1..][i] == x;
      assert s[i + 1] == x;
    }
    if x in s && x != s[0] {
      var i :| 0 <= i < |s| && s[i] == x;
      assert s[1..][i - 1] == x;
    }
  }

  /** Python's order of strings: by code points. */
  predicate TextLess(s: string, t: string) {
    t != "" && (s == "" || s[0] < t[0] || (s[0] == t[0] && TextLess(s[1..], t[1..])))
  }

  lemma {:induction false} TextTotal(s: string, t: string)
    ensures s == t || TextLess(s, t) || TextLess(t, s)
    ensures !TextLess(s, s)
  {
    if s != "" {
      TextTotal(s[1..], if t == "" then "" else t[1..]);
      assert s == [s[0]] + s[1..];
      assert t != "" ==> t == [t[0]] + t[1..];
    }
  }
}
