/** JSON text as json.dumps(..., separators=(",", ":")) writes it and json.loads reads it. */
module Json {
  import opened Basics
  import opened Decimal
  import Utf8

  datatype Value =
    | Null
    | Bool(b: bool)
    | Int(n: int)
    | Float(text: string)
    | Str(s: string)
    | Arr(items: seq<Value>)
    | Obj(fields: seq<Field>)

  datatype Field = Field(key: string, value: Value)

  /** dict.get: the value of the last field named `key`, Null when there is none. */
  function Get(v: Value, key: string): Value {
    if v.Obj? then FieldOf(v.fields, key) else Null
  }

  function FieldOf(fields: seq<Field>, key: string): Value {
    if fields == [] then Null
    else if fields[|fields| - 1].key == key then fields[|fields| - 1].value
    else FieldOf(fields[..|fields| - 1], key)
  }

  /** Values that hold no float; the service writes none. */
  predicate NoFloat(v: Value) {
    match v
    case Float(_) => false
    case Arr(items) => forall i :: 0 <= i < |items| ==> NoFloat(items[i])
    case Obj(fields) => forall i :: 0 <= i < |fields| ==> NoFloat(fields[i].value)
    case _ => true
  }

  // Writing

  function HexChar(d: nat): (c: char)
    requires d < 16
    ensures ' ' <= c <= '~'
    ensures HexValue(c) == Some(d)
  {
    if d < 10 then (('0' as int) + d) as char else (('a' as int) + d - 10) as char
  }

  function Hex4(n: nat): (s: string)
    requires n < 0x10000
    ensures |s| == 4
    ensures ReadHex4(s) == Some(n)
  {
    assert n / 256 % 16 == n / 16 / 16 % 16 && n / 4096 == n / 16 / 16 / 16;
    assert n == n / 16 * 16 + n % 16;
    [HexChar(n / 4096), HexChar(n / 256 % 16), HexChar(n / 16 % 16), HexChar(n % 16)]
  }

  /** The letter of a two-character escape. */
  function ShortEscape(c: char): (r: Option<char>)
    ensures r.Some? ==> ' ' <= r.value <= '~' && r.value != 'u'
    ensures r.Some? ==> ShortMeaning(r.value) == Some(c)
  {
    if c == '"' || c == '\\' then Some(c)
    else if c == '\n' then Some('n')
    else if c == '\r' then Some('r')
    else if c == '\t' then Some('t')
    else if c as int == 12 then Some('f')
    else if c as int == 8 then Some('b')
    else None
  }

  function ShortMeaning(letter: char): Option<char> {
    if letter == '"' || letter == '\\' || letter == '/' then Some(letter)
    else if letter == 'n' then Some('\n')
    else if letter == 'r' then Some('\r')
    else if letter == 't' then Some('\t')
    else if letter == 'f' then Some(12 as char)
    else if letter == 'b' then Some(8 as char)
    else None
  }

  /** \uXXXX */
  function UnitEscape(n: nat): (s: string)
    requires n < 0x10000
    ensures |s| == 6 && s[0] == '\\' && s[1] == 'u' && s[2..] == Hex4(n)
  {
    ['\\', 'u'] + Hex4(n)
  }

  /** The surrogate pair of a character beyond the basic plane. */
  function High(n: nat): (h: nat)
    requires 0x10000 <= n < 0x110000
    ensures 0xD800 <= h < 0xDC00
  {
    0xD800 + (n - 0x10000) / 1024
  }

  function Low(n: nat): (l: nat)
    requires 0x10000 <= n < 0x110000
    ensures 0xDC00 <= l < 0xE000
    ensures 0x10000 + (High(n) - 0xD800) * 1024 + (l - 0xDC00) == n
  {
    0xDC00 + (n - 0x10000) % 1024
  }

  /** One character of a string: short escapes, \uXXXX outside printable ASCII, pairs beyond the BMP. */
  function EscapeChar(c: char): (s: string)
    ensures 1 <= |s| <= 12
  {
    if ShortEscape(c).Some? then ['\\', ShortEscape(c).value]
    else if ' ' <= c <= '~' then [c]
    else if c as int < 0x10000 then UnitEscape(c as int)
    else UnitEscape(High(c as int)) + UnitEscape(Low(c as int))
  }

  function Escape(s: string): (e: string)
    ensures |s| <= |e| <= 12 * |s|
  {
    if s == "" then "" else EscapeChar(s[0]) + Escape(s[1..])
  }

  function DumpString(s: string): (t: string)
    ensures 2 <= |t| <= 12 * |s| + 2
  {
    ['"'] + (Escape(s) + ['"'])
  }

  function DumpInt(n: int): (t: string)
    ensures t != ""
  {
    if n < 0 then ['-'] + Digits(-n) else Digits(n)
  }

  /** json.dumps of a value that holds no float. */
  function Dump(v: Value): (t: string)
    requires NoFloat(v)
    ensures t != ""
    decreases v, 1
  {
    match v
    case Null => "null"
    case Bool(b) => if b then "true" else "false"
    case Int(n) => DumpInt(n)
    case Str(s) => DumpString(s)
    case Arr(items) => ['['] + if items == [] then [']'] else DumpItems(items)
    case Obj(fields) => ['{'] + if fields == [] then ['}'] else DumpFields(fields)
  }

  function DumpItems(items: seq<Value>): (t: string)
    requires items != []
    requires forall i :: 0 <= i < |items| ==> NoFloat(items[i])
    decreases items, 0
  {
    Dump(items[0]) + if |items| == 1 then [']'] else [','] + DumpItems(items[1..])
  }

  function DumpFields(fields: seq<Field>): (t: string)
    requires fields != []
    requires forall i :: 0 <= i < |fields| ==> NoFloat(fields[i].value)
    decreases fields, 0
  {
    DumpString(fields[0].key) + ([':'] + (Dump(fields[0].value) +
      if |fields| == 1 then ['}'] else [','] + DumpFields(fields[1..])))
  }

  // What is written is printable ASCII: one line, one byte a character.

  predicate Plain(s: string) {
    forall i :: 0 <= i < |s| ==> ' ' <= s[i] <= '~'
  }

  lemma EscapeCharIsPlain(c: char)
    ensures Plain(EscapeChar(c))
  {
    hide ShortEscape, High, Low, UnitEscape, HexChar;
    if c as int >= 0x10000 {
      UnitIsPlain(High(c as int));
      UnitIsPlain(Low(c as int));
    } else {
      UnitIsPlain(c as int);
    }
  }

  lemma UnitIsPlain(n: nat)
    requires n < 0x10000
    ensures Plain(UnitEscape(n))
  {
    hide HexChar;
  }

  lemma {:induction false} EscapeIsPlain(s: string)
    ensures Plain(Escape(s))
  {
    hide EscapeChar;
    if s != "" {
      EscapeIsPlain(s[1..]);
      EscapeCharIsPlain(s[0]);
    }
  }

  lemma DigitsPlain(n: int)
    ensures Plain(DumpInt(n))
  {
  }

  lemma {:induction false} DumpIsPlain(v: Value)
    requires NoFloat(v)
    ensures Plain(Dump(v))
    decreases v, 1
  {
    match v
    case Int(n) => DigitsPlain(n);
    case Str(s) => EscapeIsPlain(s);
    case Arr(items) => if items != [] { ItemsArePlain(items); }
    case Obj(fields) => if fields != [] { FieldsArePlain(fields); }
    case _ =>
  }

  lemma {:induction false} ItemsArePlain(items: seq<Value>)
    requires items != []
    requires forall i :: 0 <= i < |items| ==> NoFloat(items[i])
    ensures Plain(DumpItems(items))
    decreases items, 0
  {
    DumpIsPlain(items[0]);
    if |items| > 1 { ItemsArePlain(items[1..]); }
  }

  lemma {:induction false} FieldsArePlain(fields: seq<Field>)
    requires fields != []
    requires forall i :: 0 <= i < |fields| ==> NoFloat(fields[i].value)
    ensures Plain(DumpFields(fields))
    decreases fields, 0
  {
    hide Dump, Escape;
    DumpIsPlain(fields[0].value);
    EscapeIsPlain(fields[0].key);
    if |fields| > 1 { FieldsArePlain(fields[1..]); }
  }

  // Reading

  function HexValue(c: char): Option<nat> {
    if '0' <= c <= '9' then Some(c as int - '0' as int)
    else if 'a' <= c <= 'f' then Some(c as int - 'a' as int + 10)
    else if 'A' <= c <= 'F' then Some(c as int - 'A' as int + 10)
    else None
  }

  /** The number in the first four characters of `s`. */
  function ReadHex4(s: string): (r: Option<nat>)
    ensures r.Some? ==> |s| >= 4
  {
    if |s| < 4 then None
    else
      match (HexValue(s[0]), HexValue(s[1]), HexValue(s[2]), HexValue(s[3]))
      case (Some(a), Some(b), Some(c), Some(d)) => Some(((a * 16 + b) * 16 + c) * 16 + d)
      case _ => None
  }

  function SkipSpace(s: string): (r: string)
    ensures |r| <= |s|
  {
    if s != "" && IsSpace(s[0]) then SkipSpace(s[1..]) else s
  }

  predicate IsSpace(c: char) { c == ' ' || c == '\t' || c == '\n' || c == '\r' }

  datatype Parsed<+T> = Fail | Done(value: T, rest: string)

  /** The escape after a backslash: the character and what follows. */
  function ReadEscape(s: string): (r: Parsed<char>)
    ensures r.Done? ==> |r.rest| < |s|
  {
    if s == "" then Fail
    else if s[0] == 'u' then ReadUnicode(s[1..])
    else if ShortMeaning(s[0]).Some? then Done(ShortMeaning(s[0]).value, s[1..])
    else Fail
  }

  /** The code unit after \u, joined with a following low surrogate when it is a high one. */
  function ReadUnicode(s: string): (r: Parsed<char>)
    ensures r.Done? ==> |r.rest| < |s|
  {
    match ReadHex4(s)
    case None => Fail
    case Some(n) =>
      if 0xD800 <= n < 0xDC00 then
        if |s| >= 10 && s[4] == '\\' && s[5] == 'u' then
          match ReadHex4(s[6..])
          case None => Fail
          case Some(low) =>
            if 0xDC00 <= low < 0xE000 then
              Done((0x10000 + (n - 0xD800) * 1024 + (low - 0xDC00)) as char, s[10..])
            else Fail
        else Fail
      else if n < 0x10000 && !(0xDC00 <= n < 0xE000) then
        Done(n as char, s[4..])
      else Fail
  }

  /** The rest of a string literal after its opening quote. */
  function ReadChars(s: string): (r: Parsed<string>)
    ensures r.Done? ==> |r.rest| < |s|
    decreases |s|
  {
    if s == "" || (s[0] as int) < 0x20 then Fail
    else if s[0] == '"' then Done("", s[1..])
    else
      var first := ReadChar(s);
      if first.Fail? then Fail
      else
        var more := ReadChars(first.rest);
        if more.Fail? then Fail else Done([first.value] + more.value, more.rest)
  }

  /** The digits of an exponent or fraction: how many, at least one. */
  function FractionLength(s: string): (k: nat)
    ensures k <= |s|
  {
    if |s| >= 2 && s[0] == '.' && IsDigit(s[1]) then 1 + LeadingDigits(s[1..]) else 0
  }

  function ExponentLength(s: string): (k: nat)
    ensures k <= |s|
  {
    if s == "" || (s[0] != 'e' && s[0] != 'E') then 0
    else
      var sign := if |s| >= 2 && (s[1] == '+' || s[1] == '-') then 1 else 0;
      var k := LeadingDigits(s[1 + sign..]);
      if k == 0 then 0 else 1 + sign + k
  }

  /** A number: an integer unless a fraction or an exponent follows. */
  function ReadNumber(s: string): (r: Parsed<Value>)
    ensures r.Done? ==> |r.rest| < |s|
  {
    var sign := if s != "" && s[0] == '-' then 1 else 0;
    var digits := LeadingDigits(s[sign..]);
    if digits == 0 then Fail
    else
      var k := if s[sign] == '0' then 1 else digits;
      var numeral := s[sign..sign + k];
      assert numeral == s[sign..][..digits][..k];
      var fraction := FractionLength(s[sign + k..]);
      var exponent := ExponentLength(s[sign + k + fraction..]);
      if fraction + exponent > 0 then
        var end := sign + k + fraction + exponent;
        Done(Float(s[..end]), s[end..])
      else
        assert AllDigits(numeral);
        var n: int := Decimal.Value(numeral);
        Done(Int(if sign == 1 then -n else n), s[sign + k..])
  }

  function ReadWord(s: string): (r: Parsed<Value>)
    ensures r.Done? ==> |r.rest| < |s|
  {
    if "null" <= s then Done(Null, s[4..])
    else if "true" <= s then Done(Bool(true), s[4..])
    else if "false" <= s then Done(Bool(false), s[5..])
    else if "NaN" <= s then Done(Float("NaN"), s[3..])
    else if "Infinity" <= s then Done(Float("Infinity"), s[8..])
    else if "-Infinity" <= s then Done(Float("-Infinity"), s[9..])
    else Fail
  }

  predicate StartsNumber(s: string) {
    s != "" && (IsDigit(s[0]) || (s[0] == '-' && |s| > 1 && IsDigit(s[1])))
  }

  /** One value at the start of `s`, which does not begin with white space. */
  function ReadValue(s: string): (r: Parsed<Value>)
    ensures r.Done? ==> |r.rest| < |s|
    decreases |s|, 0
  {
    if s == "" then Fail
    else if StartsNumber(s) then ReadNumber(s)
    else match s[0]
      case '"' =>
        var t := ReadChars(s[1..]);
        if t.Fail? then Fail else Done(Str(t.value), t.rest)
      case '[' =>
        var t := SkipSpace(s[1..]);
        if t != "" && t[0] == ']' then Done(Arr([]), t[1..])
        else
          var items := ReadItems(t);
          if items.Fail? then Fail else Done(Arr(items.value), items.rest)
      case '{' =>
        var t := SkipSpace(s[1..]);
        if t != "" && t[0] == '}' then Done(Obj([]), t[1..])
        else
          var fields := ReadFields(t);
          if fields.Fail? then Fail else Done(Obj(fields.value), fields.rest)
      case _ => ReadWord(s)
  }

  /** The items of an array up to and including its closing bracket. */
  function ReadItems(s: string): (r: Parsed<seq<Value>>)
    ensures r.Done? ==> |r.rest| < |s|
    decreases |s|, 1
  {
    var first := ReadValue(s);
    if first.Fail? then Fail
    else
      var t := SkipSpace(first.rest);
      if t == "" then Fail
      else if t[0] == ']' then Done([first.value], t[1..])
      else if t[0] == ',' then
        var more := ReadItems(SkipSpace(t[1..]));
        if more.Fail? then Fail else Done([first.value] + more.value, more.rest)
      else Fail
  }

  /** The fields of an object up to and including its closing brace. */
  function ReadFields(s: string): (r: Parsed<seq<Field>>)
    ensures r.Done? ==> |r.rest| < |s|
    decreases |s|, 1
  {
    if s == "" || s[0] != '"' then Fail
    else
      var key := ReadChars(s[1..]);
      if key.Fail? then Fail
      else
        var t := SkipSpace(key.rest);
        if t == "" || t[0] != ':' then Fail
        else
          var value := ReadValue(SkipSpace(t[1..]));
          if value.Fail? then Fail
          else
            var field := Field(key.value, value.value);
            var u := SkipSpace(value.rest);
            if u == "" then Fail
            else if u[0] == '}' then Done([field], u[1..])
            else if u[0] == ',' then
              var more := ReadFields(SkipSpace(u[1..]));
              if more.Fail? then Fail else Done([field] + more.value, more.rest)
            else Fail
  }

  /** json.loads: one value with white space around it and nothing else; None where it raises. */
  function Load(s: string): Option<Value> {
    var r := ReadValue(SkipSpace(s));
    if r.Done? && SkipSpace(r.rest) == "" then Some(r.value) else None
  }

  // Reading back what was written

  /** What ReadChars reads first of a string body: one plain character or one escape. */
  function ReadChar(s: string): (r: Parsed<char>)
    requires s != ""
    ensures r.Done? ==> |r.rest| < |s|
  {
    if s[0] == '\\' then ReadEscape(s[1..]) else Done(s[0], s[1..])
  }

  lemma ReadsUnit(n: nat, rest: string)
    requires n < 0x10000 && Utf8.IsScalar(n)
    ensures ReadUnicode(Hex4(n) + rest) == Done(n as char, rest)
  {
    ReadHexPrefix(n, rest);
    assert (Hex4(n) + rest)[4..] == rest;
  }

  lemma ReadsPair(n: nat, rest: string)
    requires 0x10000 <= n < 0x110000
    ensures ReadUnicode(Hex4(High(n)) + (UnitEscape(Low(n)) + rest)) == Done(n as char, rest)
  {
    hide ReadHex4, Hex4, UnitEscape, High, Low;
    var tail := UnitEscape(Low(n)) + rest;
    ReadHexPrefix(High(n), tail);
    ReadHexPrefix(Low(n), rest);
    var s := Hex4(High(n)) + tail;
    assert s[4] == tail[0] && s[5] == tail[1];
    assert s[6..] == Hex4(Low(n)) + rest;
    assert s[10..] == rest;
  }

  lemma ReadHexPrefix(n: nat, rest: string)
    requires n < 0x10000
    ensures ReadHex4(Hex4(n) + rest) == Some(n)
  {
    assert forall i :: 0 <= i < 4 ==> (Hex4(n) + rest)[i] == Hex4(n)[i];
  }

  lemma ReadsShort(c: char, rest: string)
    requires ShortEscape(c).Some?
    ensures ReadChar(['\\', ShortEscape(c).value] + rest) == Done(c, rest)
  {
    var s := ['\\', ShortEscape(c).value] + rest;
    assert s[1..] == [ShortEscape(c).value] + rest;
    assert s[1..][1..] == rest;
  }

  lemma ReadsUnitEscape(n: nat, rest: string)
    requires n < 0x10000 && Utf8.IsScalar(n)
    ensures ReadChar(UnitEscape(n) + rest) == Done(n as char, rest)
  {
    hide Hex4, UnitEscape, ReadUnicode;
    var s := UnitEscape(n) + rest;
    assert s[1..] == ['u'] + (Hex4(n) + rest);
    assert s[1..][1..] == Hex4(n) + rest;
    ReadsUnit(n, rest);
  }

  lemma ReadsPairEscape(n: nat, rest: string)
    requires 0x10000 <= n < 0x110000
    ensures ReadChar(UnitEscape(High(n)) + UnitEscape(Low(n)) + rest) == Done(n as char, rest)
  {
    hide Hex4, UnitEscape, High, Low, ReadUnicode;
    var tail := UnitEscape(Low(n)) + rest;
    var s := UnitEscape(High(n)) + UnitEscape(Low(n)) + rest;
    assert s == UnitEscape(High(n)) + tail;
    assert s[1..] == ['u'] + (Hex4(High(n)) + tail);
    assert s[1..][1..] == Hex4(High(n)) + tail;
    ReadsPair(n, rest);
  }

  lemma ReadsEscapedChar(c: char, rest: string)
    ensures EscapeChar(c)[0] != '"' && EscapeChar(c)[0] as int >= 0x20
    ensures ReadChar(EscapeChar(c) + rest) == Done(c, rest)
  {
    if ShortEscape(c).Some? {
      ReadsShort(c, rest);
    } else if ' ' <= c <= '~' {
      assert ([c] + rest)[1..] == rest;
    } else if c as int < 0x10000 {
      ReadsUnitEscape(c as int, rest);
    } else {
      ReadsPairEscape(c as int, rest);
    }
  }

  lemma {:induction false} ReadsEscaped(s: string, rest: string)
    ensures ReadChars(Escape(s) + (['"'] + rest)) == Done(s, rest)
  {
    hide EscapeChar, ReadChar;
    var t := Escape(s) + (['"'] + rest);
    if s == "" {
      assert t == ['"'] + rest;
      assert t[1..] == rest;
    } else {
      var e := EscapeChar(s[0]);
      var more := Escape(s[1..]) + (['"'] + rest);
      assert t == e + more;
      assert t[0] == e[0];
      ReadsEscapedChar(s[0], more);
      ReadsEscaped(s[1..], rest);
      assert s == [s[0]] + s[1..];
    }
  }

  /** What may follow a value: nothing, or a character that cannot continue a number. */
  predicate Ends(rest: string) {
    rest == "" || (!IsDigit(rest[0]) && rest[0] != '.' && rest[0] != 'e' && rest[0] != 'E')
  }

  lemma NoFraction(rest: string)
    requires Ends(rest)
    ensures FractionLength(rest) == 0 && ExponentLength(rest) == 0
  {
  }

  lemma ReadsNatural(n: nat, rest: string)
    requires Ends(rest)
    ensures ReadNumber(Digits(n) + rest) == Done(Int(n), rest)
  {
    hide FractionLength, ExponentLength, LeadingDigits, Digits;
    NoFraction(rest);
    var d := Digits(n);
    var s := d + rest;
    LeadingDigitsOf(d, rest);
    assert s[0] == d[0] && s[0..] == s;
    assert s[0..|d|] == d && s[|d|..] == rest;
  }

  lemma ReadsNegative(n: nat, rest: string)
    requires Ends(rest)
    ensures ReadNumber(['-'] + Digits(n) + rest) == Done(Int(0 - n), rest)
  {
    hide FractionLength, ExponentLength, LeadingDigits, Digits;
    NoFraction(rest);
    var d := Digits(n);
    var s := ['-'] + d + rest;
    assert rest[0..] == rest;
    assert s[1..] == d + rest;
    LeadingDigitsOf(d, rest);
    assert s[1] == d[0];
    assert s[1..1 + |d|] == d && s[1 + |d|..] == rest;
  }

  lemma ReadsInt(n: int, rest: string)
    requires Ends(rest)
    ensures ReadValue(DumpInt(n) + rest) == Done(Int(n), rest)
  {
    hide ReadNumber, ReadChars, ReadItems, ReadFields, ReadWord;
    var s := DumpInt(n) + rest;
    if n < 0 {
      ReadsNegative(-n, rest);
      assert s[0] == '-' && s[1] == Digits(-n)[0];
    } else {
      ReadsNatural(n, rest);
      assert s[0] == Digits(n)[0];
    }
  }

  lemma ReadsNull(rest: string)
    ensures ReadValue("null" + rest) == Done(Null, rest)
  {
    hide ReadNumber, ReadItems, ReadFields, ReadChars;
    assert ("null" + rest)[0] == 'n';
    assert ("null" + rest)[4..] == rest;
  }

  lemma ReadsBool(b: bool, rest: string)
    ensures ReadValue((if b then "true" else "false") + rest) == Done(Bool(b), rest)
  {
    hide ReadNumber, ReadItems, ReadFields, ReadChars;
    var w := if b then "true" else "false";
    assert (w + rest)[0] == w[0];
    assert (w + rest)[|w|..] == rest;
  }

  lemma ReadsString(t: string, rest: string)
    ensures ReadValue(DumpString(t) + rest) == Done(Str(t), rest)
  {
    hide ReadNumber, ReadItems, ReadFields, ReadChars;
    StringBody(t, rest);
    ReadsEscaped(t, rest);
  }

  lemma ReadsArray(items: seq<Value>, body: string, rest: string)
    requires items == [] ==> body == [']'] + rest
    requires items != [] ==> body != "" && !IsSpace(body[0]) && body[0] != ']' && ReadItems(body) == Done(items, rest)
    ensures ReadValue(['['] + body) == Done(Arr(items), rest)
  {
    hide ReadNumber, ReadItems, ReadFields, ReadChars;
    assert (['['] + body)[1..] == body;
    assert items == [] ==> body[1..] == rest;
  }

  lemma ReadsObject(fields: seq<Field>, body: string, rest: string)
    requires fields == [] ==> body == ['}'] + rest
    requires fields != [] ==> body != "" && body[0] == '"' && ReadFields(body) == Done(fields, rest)
    ensures ReadValue(['{'] + body) == Done(Obj(fields), rest)
  {
    hide ReadNumber, ReadItems, ReadFields, ReadChars;
    assert (['{'] + body)[1..] == body;
    assert fields == [] ==> body[1..] == rest;
  }

  /** A written value is read back whatever follows it. */
  lemma {:induction false} ReadsDumped(v: Value, rest: string)
    requires NoFloat(v) && Ends(rest)
    ensures ReadValue(Dump(v) + rest) == Done(v, rest)
    decreases v, 1
  {
    hide ReadValue, DumpString, DumpInt, DumpItems, DumpFields;
    match v
    case Null =>
      ReadsNull(rest);
    case Bool(b) =>
      ReadsBool(b, rest);
    case Int(n) =>
      ReadsInt(n, rest);
    case Str(t) =>
      ReadsString(t, rest);
    case Arr(items) =>
      var body := (if items == [] then [']'] else DumpItems(items)) + rest;
      assert Dump(v) + rest == ['['] + body;
      if items != [] {
        ReadsItems(items, rest);
      }
      ReadsArray(items, body, rest);
    case Obj(fields) =>
      var body := (if fields == [] then ['}'] else DumpFields(fields)) + rest;
      assert Dump(v) + rest == ['{'] + body;
      if fields != [] {
        ReadsFields(fields, rest);
      }
      ReadsObject(fields, body, rest);
  }

  /** The first character of a written value is neither white space nor a closing bracket. */
  lemma DumpStart(v: Value)
    requires NoFloat(v)
    ensures !IsSpace(Dump(v)[0]) && Dump(v)[0] != ']' && Dump(v)[0] != '}'
  {
    if v.Int? {
      assert Dump(v)[0] == '-' || IsDigit(Dump(v)[0]);
    }
  }

  lemma StringBody(s: string, rest: string)
    ensures (DumpString(s) + rest)[0] == '"'
    ensures (DumpString(s) + rest)[1..] == Escape(s) + (['"'] + rest)
  {
  }

  // One step of each reading loop, for any text.

  lemma LastItem(s: string, v: Value, rest: string)
    requires ReadValue(s) == Done(v, [']'] + rest)
    ensures ReadItems(s) == Done([v], rest)
  {
    assert ([']'] + rest)[1..] == rest;
  }

  lemma NextItem(s: string, v: Value, t: string, vs: seq<Value>, rest: string)
    requires ReadValue(s) == Done(v, [','] + t)
    requires t != "" && !IsSpace(t[0]) && ReadItems(t) == Done(vs, rest)
    ensures ReadItems(s) == Done([v] + vs, rest)
  {
    assert ([','] + t)[1..] == t;
  }

  lemma FieldValue(s: string, key: string, t: string, v: Value, u: string)
    requires s != "" && s[0] == '"' && ReadChars(s[1..]) == Done(key, [':'] + t)
    requires t != "" && !IsSpace(t[0]) && ReadValue(t) == Done(v, u)
    requires u != "" && (u[0] == '}' || u[0] == ',')
    ensures u[0] == '}' ==> ReadFields(s) == Done([Field(key, v)], u[1..])
    ensures u[0] == ',' && u[1..] != "" && !IsSpace(u[1]) && ReadFields(u[1..]).Done? ==>
              ReadFields(s) == Done([Field(key, v)] + ReadFields(u[1..]).value, ReadFields(u[1..]).rest)
  {
    assert ([':'] + t)[1..] == t;
  }

  lemma {:induction false} ReadsItems(items: seq<Value>, rest: string)
    requires items != []
    requires forall i :: 0 <= i < |items| ==> NoFloat(items[i])
    ensures var s := DumpItems(items) + rest; !IsSpace(s[0]) && s[0] != ']' && ReadItems(s) == Done(items, rest)
    decreases items, 0
  {
    hide ReadItems, ReadValue, Dump;
    var s := DumpItems(items) + rest;
    var d := Dump(items[0]);
    DumpStart(items[0]);
    assert s[0] == d[0];
    if |items| == 1 {
      assert s == d + ([']'] + rest);
      ReadsDumped(items[0], [']'] + rest);
      LastItem(s, items[0], rest);
      assert items == [items[0]];
    } else {
      var more := DumpItems(items[1..]) + rest;
      assert s == d + ([','] + more);
      ReadsDumped(items[0], [','] + more);
      ReadsItems(items[1..], rest);
      NextItem(s, items[0], more, items[1..], rest);
      assert items == [items[0]] + items[1..];
    }
  }

  /** Reading one written field, given that its value is read back. */
  lemma ReadsField(f: Field, tail: string)
    requires NoFloat(f.value)
    requires ReadValue(Dump(f.value) + tail) == Done(f.value, tail)
    requires tail != "" && (tail[0] == '}' || tail[0] == ',')
    ensures var s, t := DumpString(f.key) + ([':'] + (Dump(f.value) + tail)), tail[1..];
            && s[0] == '"'
            && (tail[0] == '}' ==> ReadFields(s) == Done([f], t))
            && (tail[0] == ',' && t != "" && !IsSpace(t[0]) && ReadFields(t).Done? ==>
                  ReadFields(s) == Done([f] + ReadFields(t).value, ReadFields(t).rest))
  {
    hide ReadFields, ReadChars, ReadValue, Dump;
    var d := Dump(f.value);
    var afterKey := [':'] + (d + tail);
    var s := DumpString(f.key) + afterKey;
    StringBody(f.key, afterKey);
    ReadsEscaped(f.key, afterKey);
    DumpStart(f.value);
    assert (d + tail)[0] == d[0];
    FieldValue(s, f.key, d + tail, f.value, tail);
  }

  lemma {:induction false} ReadsFields(fields: seq<Field>, rest: string)
    requires fields != []
    requires forall i :: 0 <= i < |fields| ==> NoFloat(fields[i].value)
    ensures var s := DumpFields(fields) + rest; s[0] == '"' && ReadFields(s) == Done(fields, rest)
    decreases fields, 0
  {
    hide ReadFields, ReadValue, Dump, DumpString;
    var s := DumpFields(fields) + rest;
    var f := fields[0];
    var tail := if |fields| == 1 then ['}'] + rest else [','] + (DumpFields(fields[1..]) + rest);
    assert s == DumpString(f.key) + ([':'] + (Dump(f.value) + tail));
    ReadsDumped(f.value, tail);
    ReadsField(f, tail);
    if |fields| == 1 {
      assert tail[1..] == rest;
      assert fields == [f];
    } else {
      assert tail[1..] == DumpFields(fields[1..]) + rest;
      ReadsFields(fields[1..], rest);
      assert fields == [f] + fields[1..];
    }
  }

  /** json.loads undoes json.dumps. */
  lemma RoundTrip(v: Value)
    requires NoFloat(v)
    ensures Load(Dump(v)) == Some(v)
  {
    DumpStart(v);
    assert Dump(v) + "" == Dump(v);
    ReadsDumped(v, "");
  }
}
