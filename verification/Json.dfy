// JSON texts (RFC 8259) as the manifest code prints and reads them. A text is a sequence of UTF-8
// bytes, one char per byte.

module Json {
  import opened Wrappers

  type I64 = n: int | -0x8000_0000_0000_0000 <= n < 0x8000_0000_0000_0000

  // A signed 64-bit integer is read as such; every other number, with a fraction, an exponent, a
  // negative zero or too many digits, is kept as it is written.
  datatype Value =
    | Null
    | Bool(flag: bool)
    | Integer(number: I64)
    | Decimal(numeral: DecimalText)
    | Text(text: string)
    | Array(items: seq<Value>)
    | Object(fields: seq<Field>)

  datatype Field = Field(key: string, value: Value)

  // ---------------------------------------------------------------- numbers

  predicate IsDigit(c: char) {
    '0' <= c <= '9'
  }

  function DigitValue(c: char): nat
    requires IsDigit(c)
  {
    c as int - '0' as int
  }

  function DigitRun(s: string): (k: nat)
    ensures k <= |s| && forall i :: 0 <= i < k ==> IsDigit(s[i])
  {
    if s != "" && IsDigit(s[0]) then 1 + DigitRun(s[1..]) else 0
  }

  function Natural(ds: string): nat
    requires forall i :: 0 <= i < |ds| ==> IsDigit(ds[i])
  {
    if ds == "" then 0
    else 10 * Natural(ds[..|ds| - 1]) + DigitValue(ds[|ds| - 1])
  }

  function FractionLength(s: string): (r: Option<nat>)
    ensures r.Some? ==> r.value <= |s|
  {
    if s == "" || s[0] != '.' then Some(0)
    else
      var k := DigitRun(s[1..]);
      if k == 0 then None else Some(1 + k)
  }

  function ExponentLength(s: string): (r: Option<nat>)
    ensures r.Some? ==> r.value <= |s|
  {
    if s == "" || s[0] !in "eE" then Some(0)
    else
      var sign := if |s| > 1 && s[1] in "+-" then 1 else 0;
      var k := DigitRun(s[1 + sign..]);
      if k == 0 then None else Some(1 + sign + k)
  }

  function Sign(s: string): (k: nat)
    ensures k <= |s|
  {
    if s != "" && s[0] == '-' then 1 else 0
  }

  // The length of the number a text starts with (section 6).
  function NumberLength(s: string): (r: Option<nat>)
    ensures r.Some? ==> 0 < r.value <= |s|
    ensures r.Some? ==> s[0] == '-' || IsDigit(s[0])
  {
    var sign := Sign(s);
    var k := DigitRun(s[sign..]);
    if k == 0 || (k > 1 && s[sign] == '0') then None
    else
      var f :- FractionLength(s[sign + k..]);
      var e :- ExponentLength(s[sign + k + f..]);
      Some(sign + k + f + e)
  }

  function ReadInteger(t: string): Option<I64> {
    var body := t[Sign(t)..];
    if DigitRun(body) != |body| then None
    else
      var n: int := if Sign(t) == 1 then -(Natural(body) as int) else Natural(body);
      if Sign(t) == 1 && n == 0 then None
      else if -0x8000_0000_0000_0000 <= n < 0x8000_0000_0000_0000 then Some(n)
      else None
  }

  predicate IsDecimalText(t: string) {
    NumberLength(t) == Some(|t|) && ReadInteger(t).None?
  }

  type DecimalText = t: string | IsDecimalText(t) witness "0.5"

  lemma {:induction false} RunOfPrefix(s: string, m: nat)
    requires DigitRun(s) <= m <= |s|
    ensures DigitRun(s[..m]) == DigitRun(s)
  {
    if s != "" && IsDigit(s[0]) {
      RunOfPrefix(s[1..], m - 1);
      assert s[..m][1..] == s[1..][..m - 1];
    }
  }

  lemma FractionOfPrefix(s: string, m: nat)
    requires m <= |s| && FractionLength(s).Some? && FractionLength(s).value <= m
    ensures FractionLength(s[..m]) == FractionLength(s)
  {
    if s != "" && s[0] == '.' {
      RunOfPrefix(s[1..], m - 1);
      assert s[..m][1..] == s[1..][..m - 1];
    }
  }

  lemma ExponentOfPrefix(s: string, m: nat)
    requires m <= |s| && ExponentLength(s).Some? && ExponentLength(s).value <= m
    ensures ExponentLength(s[..m]) == ExponentLength(s)
  {
    if s != "" && s[0] in "eE" {
      var start := 1 + if |s| > 1 && s[1] in "+-" then 1 else 0;
      RunOfPrefix(s[start..], m - start);
      assert s[..m][start..] == s[start..][..m - start];
    }
  }

  // What a number is read from is a number.
  lemma NumberPrefix(s: string, m: nat)
    requires NumberLength(s) == Some(m)
    ensures NumberLength(s[..m]) == Some(m)
  {
    hide FractionLength, ExponentLength, DigitRun;
    var sign := Sign(s);
    var k := DigitRun(s[sign..]);
    var f := FractionLength(s[sign + k..]).value;
    assert s[..m][sign..] == s[sign..][..m - sign];
    assert s[..m][sign + k..] == s[sign + k..][..m - sign - k];
    assert s[..m][sign + k + f..] == s[sign + k + f..][..m - sign - k - f];
    RunOfPrefix(s[sign..], m - sign);
    FractionOfPrefix(s[sign + k..], m - sign - k);
    ExponentOfPrefix(s[sign + k + f..], m - sign - k - f);
  }

  // ---------------------------------------------------------------- printing

  function Digit(d: nat): char
    requires d < 10
  {
    '0' + d as char
  }

  function Digits(n: nat): string {
    if n < 10 then [Digit(n)] else Digits(n / 10) + [Digit(n % 10)]
  }

  function Magnitude(n: int): nat {
    if n < 0 then -n else n
  }

  function IntegerText(n: int): string {
    if n < 0 then "-" + Digits(Magnitude(n)) else Digits(Magnitude(n))
  }

  function HexDigit(d: nat): char
    requires d < 16
  {
    if d < 10 then '0' + d as char else 'a' + (d - 10) as char
  }

  // The two-character escapes, and \u00xx for the other control characters (section 7).
  function EscapeChar(c: char): string {
    if c == '"' then "\\\""
    else if c == '\\' then "\\\\"
    else if c as int == 8 then "\\b"
    else if c as int == 9 then "\\t"
    else if c as int == 10 then "\\n"
    else if c as int == 12 then "\\f"
    else if c as int == 13 then "\\r"
    else if c < ' ' then "\\u00" + [HexDigit(c as int / 16), HexDigit(c as int % 16)]
    else [c]
  }

  function Escape(t: string): string {
    if t == "" then "" else EscapeChar(t[0]) + Escape(t[1..])
  }

  function Quote(t: string): string {
    "\"" + Escape(t) + "\""
  }

  function Render(v: Value): string
    decreases v
  {
    match v
    case Null => "null"
    case Bool(b) => if b then "true" else "false"
    case Integer(n) => IntegerText(n)
    case Decimal(t) => t
    case Text(t) => Quote(t)
    case Array(items) => "[" + RenderItems(items) + "]"
    case Object(fields) => "{" + RenderFields(fields) + "}"
  }

  function RenderItems(items: seq<Value>): string
    decreases items
  {
    if items == [] then ""
    else if |items| == 1 then Render(items[0])
    else Render(items[0]) + "," + RenderItems(items[1..])
  }

  function RenderField(field: Field): string
    decreases field
  {
    Quote(field.key) + ":" + Render(field.value)
  }

  function RenderFields(fields: seq<Field>): string
    decreases fields
  {
    if fields == [] then ""
    else if |fields| == 1 then RenderField(fields[0])
    else RenderField(fields[0]) + "," + RenderFields(fields[1..])
  }

  // A field or item whose text is already printed: the hand-written printers write the names of
  // their fields in order and splice such texts between them.
  datatype Entry = Entry(key: string, text: string)

  function RenderEntry(e: Entry): string {
    Quote(e.key) + ":" + e.text
  }

  function RenderEntries(entries: seq<Entry>): string {
    if entries == [] then ""
    else if |entries| == 1 then RenderEntry(entries[0])
    else RenderEntry(entries[0]) + "," + RenderEntries(entries[1..])
  }

  function RenderObject(entries: seq<Entry>): string {
    "{" + RenderEntries(entries) + "}"
  }

  function Join(texts: seq<string>): string {
    if texts == [] then ""
    else if |texts| == 1 then texts[0]
    else texts[0] + "," + Join(texts[1..])
  }

  function RenderArray(texts: seq<string>): string {
    "[" + Join(texts) + "]"
  }

  lemma {:induction false} RenderEntriesOf(entries: seq<Entry>, fields: seq<Field>)
    requires |entries| == |fields|
    requires forall i :: 0 <= i < |fields| ==> entries[i] == Entry(fields[i].key, Render(fields[i].value))
    ensures RenderEntries(entries) == RenderFields(fields)
    ensures RenderObject(entries) == Render(Object(fields))
  {
    if fields != [] { RenderEntriesOf(entries[1..], fields[1..]); }
  }

  lemma {:induction false} JoinOf(texts: seq<string>, items: seq<Value>)
    requires |texts| == |items|
    requires forall i :: 0 <= i < |items| ==> texts[i] == Render(items[i])
    ensures Join(texts) == RenderItems(items)
    ensures RenderArray(texts) == Render(Array(items))
  {
    if items != [] { JoinOf(texts[1..], items[1..]); }
  }

  // ---------------------------------------------------------------- parsing

  predicate IsWhitespace(c: char) {
    c == ' ' || c == '\t' || c == '\n' || c == '\r'
  }

  function SkipWhitespace(s: string): (r: string)
    ensures |r| <= |s|
  {
    if s != "" && IsWhitespace(s[0]) then SkipWhitespace(s[1..]) else s
  }

  function ParseNumber(s: string): (r: Option<(Value, string)>)
    ensures r.Some? ==> |r.value.1| < |s|
  {
    var k :- NumberLength(s);
    NumberPrefix(s, k);
    match ReadInteger(s[..k])
    case Some(n) => Some((Integer(n), s[k..]))
    case None => Some((Decimal(s[..k]), s[k..]))
  }

  function HexValue(c: char): Option<nat> {
    if '0' <= c <= '9' then Some(c as int - '0' as int)
    else if 'a' <= c <= 'f' then Some(c as int - 'a' as int + 10)
    else if 'A' <= c <= 'F' then Some(c as int - 'A' as int + 10)
    else None
  }

  function Hex4(s: string): (r: Option<nat>)
    ensures r.Some? ==> |s| >= 4 && r.value < 0x1_0000
  {
    if |s| < 4 then None
    else
      var (a, b, c, d) := (HexValue(s[0]), HexValue(s[1]), HexValue(s[2]), HexValue(s[3]));
      if a.Some? && b.Some? && c.Some? && d.Some?
      then Some(((a.value * 16 + b.value) * 16 + c.value) * 16 + d.value)
      else None
  }

  function Utf8(scalar: nat): string
    requires scalar < 0x11_0000
  {
    if scalar < 0x80 then [scalar as char]
    else if scalar < 0x800 then [(0xC0 + scalar / 0x40) as char, (0x80 + scalar % 0x40) as char]
    else if scalar < 0x1_0000 then
      [(0xE0 + scalar / 0x1000) as char, (0x80 + scalar / 0x40 % 0x40) as char,
       (0x80 + scalar % 0x40) as char]
    else
      [(0xF0 + scalar / 0x4_0000) as char, (0x80 + scalar / 0x1000 % 0x40) as char,
       (0x80 + scalar / 0x40 % 0x40) as char, (0x80 + scalar % 0x40) as char]
  }

  // What follows a backslash: the bytes it stands for and the remaining input.
  function ParseEscape(s: string): (r: Option<(string, string)>)
    ensures r.Some? ==> |r.value.1| < |s|
  {
    if s == "" then None
    else if s[0] in "\"\\/" then Some(([s[0]], s[1..]))
    else if s[0] == 'b' then Some(([8 as char], s[1..]))
    else if s[0] == 't' then Some(([9 as char], s[1..]))
    else if s[0] == 'n' then Some(([10 as char], s[1..]))
    else if s[0] == 'f' then Some(([12 as char], s[1..]))
    else if s[0] == 'r' then Some(([13 as char], s[1..]))
    else if s[0] != 'u' || Hex4(s[1..]).None? then None
    else
      var n := Hex4(s[1..]).value;
      if n < 0xD800 || 0xE000 <= n then Some((Utf8(n), s[5..]))
      else if 0xDC00 <= n || |s| < 7 || s[5] != '\\' || s[6] != 'u' || Hex4(s[7..]).None? then None
      else
        var low := Hex4(s[7..]).value;
        if 0xDC00 <= low < 0xE000
        then Some((Utf8(0x1_0000 + (n - 0xD800) * 0x400 + (low - 0xDC00)), s[11..]))
        else None
  }

  // The characters of a string up to and including its closing quote.
  function ParseChars(s: string): (r: Option<(string, string)>)
    ensures r.Some? ==> |r.value.1| < |s|
    decreases |s|
  {
    if s == "" then None
    else if s[0] == '"' then Some(("", s[1..]))
    else if s[0] == '\\' then
      match ParseEscape(s[1..])
      case None => None
      case Some((chunk, rest)) => Prepend(chunk, ParseChars(rest))
    else if s[0] < ' ' then None
    else Prepend([s[0]], ParseChars(s[1..]))
  }

  function Prepend(chunk: string, tail: Option<(string, string)>): Option<(string, string)> {
    match tail
    case None => None
    case Some((text, rest)) => Some((chunk + text, rest))
  }

  // budget is the parser's remaining nesting allowance; entering a container that would use up the
  // last of it is an error.
  function ParseValue(s: string, budget: nat): (r: Option<(Value, string)>)
    ensures r.Some? ==> |r.value.1| < |s|
    decreases |s|, 0
  {
    var t := SkipWhitespace(s);
    if t == "" then None
    else if |t| >= 4 && t[..4] == "null" then Some((Null, t[4..]))
    else if |t| >= 4 && t[..4] == "true" then Some((Bool(true), t[4..]))
    else if |t| >= 5 && t[..5] == "false" then Some((Bool(false), t[5..]))
    else if t[0] == '"' then
      (match ParseChars(t[1..])
       case None => None
       case Some((text, rest)) => Some((Text(text), rest)))
    else if t[0] == '[' then
      if budget <= 1 then None
      else
        var u := SkipWhitespace(t[1..]);
        if u != "" && u[0] == ']' then Some((Array([]), u[1..]))
        else
          (match ParseItems(u, budget - 1)
           case None => None
           case Some((items, rest)) => Some((Array(items), rest)))
    else if t[0] == '{' then
      if budget <= 1 then None
      else
        var u := SkipWhitespace(t[1..]);
        if u != "" && u[0] == '}' then Some((Object([]), u[1..]))
        else
          (match ParseFields(u, budget - 1)
           case None => None
           case Some((fields, rest)) => Some((Object(fields), rest)))
    else ParseNumber(t)
  }

  function ParseItems(s: string, budget: nat): (r: Option<(seq<Value>, string)>)
    ensures r.Some? ==> |r.value.1| < |s|
    decreases |s|, 1
  {
    match ParseValue(s, budget)
    case None => None
    case Some((item, rest)) =>
      var t := SkipWhitespace(rest);
      if t == "" then None
      else if t[0] == ']' then Some(([item], t[1..]))
      else if t[0] != ',' then None
      else
        match ParseItems(t[1..], budget)
        case None => None
        case Some((items, last)) => Some(([item] + items, last))
  }

  function ParseFields(s: string, budget: nat): (r: Option<(seq<Field>, string)>)
    ensures r.Some? ==> |r.value.1| < |s|
    decreases |s|, 1
  {
    var k := SkipWhitespace(s);
    if k == "" || k[0] != '"' then None
    else
      match ParseChars(k[1..])
      case None => None
      case Some((key, afterKey)) =>
        var colon := SkipWhitespace(afterKey);
        if colon == "" || colon[0] != ':' then None
        else
          match ParseValue(colon[1..], budget)
          case None => None
          case Some((value, rest)) =>
            var t := SkipWhitespace(rest);
            if t == "" then None
            else if t[0] == '}' then Some(([Field(key, value)], t[1..]))
            else if t[0] != ',' then None
            else
              match ParseFields(t[1..], budget)
              case None => None
              case Some((fields, last)) => Some(([Field(key, value)] + fields, last))
  }

  const PARSER_NESTING := 128

  // A whole document: one value and nothing but whitespace after it.
  function ParseDocument(s: string): Option<Value> {
    match ParseValue(s, PARSER_NESTING)
    case None => None
    case Some((v, rest)) => if SkipWhitespace(rest) == "" then Some(v) else None
  }

  // ---------------------------------------------------------------- parsing undoes printing

  function Max(a: nat, b: nat): nat {
    if a < b then b else a
  }

  function Nesting(v: Value): nat
    decreases v
  {
    match v
    case Array(items) => 1 + ItemsNesting(items)
    case Object(fields) => 1 + FieldsNesting(fields)
    case _ => 0
  }

  function ItemsNesting(items: seq<Value>): nat
    decreases items
  {
    if items == [] then 0 else Max(Nesting(items[0]), ItemsNesting(items[1..]))
  }

  function FieldsNesting(fields: seq<Field>): nat
    decreases fields
  {
    if fields == [] then 0 else Max(Nesting(fields[0].value), FieldsNesting(fields[1..]))
  }

  lemma {:induction false} ItemsNestingBound(items: seq<Value>, bound: nat)
    requires forall i :: 0 <= i < |items| ==> Nesting(items[i]) <= bound
    ensures ItemsNesting(items) <= bound
  {
    if items != [] { ItemsNestingBound(items[1..], bound); }
  }

  lemma {:induction false} FieldsNestingBound(fields: seq<Field>, bound: nat)
    requires forall i :: 0 <= i < |fields| ==> Nesting(fields[i].value) <= bound
    ensures FieldsNesting(fields) <= bound
  {
    if fields != [] { FieldsNestingBound(fields[1..], bound); }
  }

  // The text after a value cannot be taken for the continuation of a number.
  predicate Delimits(rest: string) {
    rest == "" || (!IsDigit(rest[0]) && rest[0] !in ".eE")
  }

  lemma {:induction false} DigitsAreDigits(n: nat)
    ensures |Digits(n)| >= 1 && (forall i :: 0 <= i < |Digits(n)| ==> IsDigit(Digits(n)[i]))
    ensures Natural(Digits(n)) == n
    ensures n > 0 ==> Digits(n)[0] != '0'
    ensures |Digits(n)| > 1 ==> n > 0
  {
    if n < 10 {
    } else {
      DigitsAreDigits(n / 10);
      assert Digits(n)[..|Digits(n)| - 1] == Digits(n / 10);
    }
  }

  lemma {:induction false} RunStops(s: string, m: nat)
    requires m <= |s| && (m == |s| || !IsDigit(s[m]))
    ensures DigitRun(s) <= m
  {
    if s != "" && m > 0 {
      RunStops(s[1..], m - 1);
    }
  }

  lemma FractionStops(s: string, m: nat)
    requires m <= |s| && Delimits(s[m..]) && FractionLength(s[..m]).Some?
    ensures FractionLength(s) == FractionLength(s[..m])
  {
    if s != "" && s[0] == '.' {
      RunStops(s[1..], m - 1);
      RunOfPrefix(s[1..], m - 1);
      assert s[..m][1..] == s[1..][..m - 1];
    }
  }

  lemma ExponentStops(s: string, m: nat)
    requires m <= |s| && Delimits(s[m..]) && ExponentLength(s[..m]).Some?
    ensures ExponentLength(s) == ExponentLength(s[..m])
  {
    if s != "" && s[0] in "eE" {
      var start := 1 + if |s| > 1 && s[1] in "+-" then 1 else 0;
      assert m > 1;
      RunStops(s[start..], m - start);
      RunOfPrefix(s[start..], m - start);
      assert s[..m][start..] == s[start..][..m - start];
    }
  }

  lemma IntegerPartStops(s: string, m: nat)
    requires m <= |s| && Delimits(s[m..]) && NumberLength(s[..m]) == Some(m)
    ensures Sign(s) == Sign(s[..m]) <= m && DigitRun(s[Sign(s)..]) == DigitRun(s[..m][Sign(s)..]) <= m - Sign(s)
  {
    hide FractionLength, ExponentLength, DigitRun;
    var sign := Sign(s);
    assert s[..m][sign..] == s[sign..][..m - sign];
    RunStops(s[sign..], m - sign);
    RunOfPrefix(s[sign..], m - sign);
  }

  lemma LaterPartsStop(s: string, m: nat, from: nat)
    requires from <= m <= |s| && Delimits(s[m..])
    ensures FractionLength(s[..m][from..]).Some? ==> FractionLength(s[from..]) == FractionLength(s[..m][from..])
    ensures ExponentLength(s[..m][from..]).Some? ==> ExponentLength(s[from..]) == ExponentLength(s[..m][from..])
  {
    hide FractionLength, ExponentLength, Delimits;
    assert s[from..][m - from..] == s[m..] && s[..m][from..] == s[from..][..m - from];
    if FractionLength(s[..m][from..]).Some? {
      FractionStops(s[from..], m - from);
    }
    if ExponentLength(s[..m][from..]).Some? {
      ExponentStops(s[from..], m - from);
    }
  }

  // A number is read as a whole when what follows cannot continue it.
  lemma NumberStops(s: string, m: nat)
    requires m <= |s| && Delimits(s[m..]) && NumberLength(s[..m]) == Some(m)
    ensures NumberLength(s) == Some(m)
  {
    hide FractionLength, ExponentLength, DigitRun, Delimits;
    var t := s[..m];
    IntegerPartStops(s, m);
    var k := DigitRun(t[Sign(t)..]);
    LaterPartsStop(s, m, Sign(t) + k);
    LaterPartsStop(s, m, Sign(t) + k + FractionLength(t[Sign(t) + k..]).value);
  }

  lemma ParseNumberText(t: string, rest: string)
    requires NumberLength(t) == Some(|t|) && Delimits(rest)
    ensures ReadInteger(t).Some? ==> ParseNumber(t + rest) == Some((Integer(ReadInteger(t).value), rest))
    ensures ReadInteger(t).None? ==> ParseNumber(t + rest) == Some((Decimal(t), rest))
  {
    hide NumberLength, ReadInteger;
    var s := t + rest;
    assert s[..|t|] == t && s[|t|..] == rest;
    NumberStops(s, |t|);
  }

  lemma {:induction false} RunOfDigits(ds: string)
    requires forall i :: 0 <= i < |ds| ==> IsDigit(ds[i])
    ensures DigitRun(ds) == |ds|
  {
    if ds != "" {
      RunOfDigits(ds[1..]);
    }
  }

  lemma IntegerTextIsNumber(n: I64)
    ensures NumberLength(IntegerText(n)) == Some(|IntegerText(n)|)
    ensures ReadInteger(IntegerText(n)) == Some(n)
  {
    var ds, t := Digits(Magnitude(n)), IntegerText(n);
    DigitsAreDigits(Magnitude(n));
    hide Digits;
    RunOfDigits(ds);
    assert t[Sign(t)..] == ds;
    assert t[Sign(t) + |ds|..] == "";
  }

  lemma ParseNumberRendered(n: I64, rest: string)
    requires Delimits(rest)
    ensures ParseNumber(IntegerText(n) + rest) == Some((Integer(n), rest))
  {
    IntegerTextIsNumber(n);
    ParseNumberText(IntegerText(n), rest);
  }

  lemma HexDigitValue(d: nat)
    requires d < 16
    ensures HexValue(HexDigit(d)) == Some(d)
  {
  }

  lemma ParseEscapedChar(c: char, rest: string)
    ensures ParseChars(EscapeChar(c) + rest) == Prepend([c], ParseChars(rest))
  {
    var s := EscapeChar(c) + rest;
    if c == '"' || c == '\\' || c as int == 8 || c as int == 9 || c as int == 10 || c as int == 12 || c as int == 13 {
      assert s[0] == '\\' && s[1..] == [EscapeChar(c)[1]] + rest;
      assert ([EscapeChar(c)[1]] + rest)[1..] == rest;
    } else if c < ' ' {
      var n := c as int;
      HexDigitValue(n / 16);
      HexDigitValue(n % 16);
      assert s[1..][0] == 'u';
      var h := s[1..][1..];
      assert h[0] == '0' && h[1] == '0' && h[2] == HexDigit(n / 16) && h[3] == HexDigit(n % 16);
      assert Hex4(h) == Some(n);
      assert s[1..][5..] == rest;
    } else {
      assert s[1..] == rest;
    }
  }

  lemma {:induction false} ParseEscaped(t: string, rest: string)
    ensures ParseChars(Escape(t) + "\"" + rest) == Some((t, rest))
  {
    if t == "" {
      assert Escape(t) + "\"" + rest == "\"" + rest;
    } else {
      var tail := Escape(t[1..]) + "\"" + rest;
      assert Escape(t) + "\"" + rest == EscapeChar(t[0]) + tail;
      ParseEscapedChar(t[0], tail);
      ParseEscaped(t[1..], rest);
      assert t == [t[0]] + t[1..];
    }
  }

  lemma RenderedStart(v: Value)
    ensures Render(v) != "" && !IsWhitespace(Render(v)[0])
    ensures Render(v)[0] != ']' && Render(v)[0] != '}'
  {
    if v.Integer? { DigitsAreDigits(Magnitude(v.number)); }
  }

  lemma SkipNothing(s: string)
    requires s == "" || !IsWhitespace(s[0])
    ensures SkipWhitespace(s) == s
  {
  }

  lemma ParseRenderedScalar(v: Value, rest: string, budget: nat)
    requires !v.Array? && !v.Object? && Delimits(rest)
    ensures ParseValue(Render(v) + rest, budget) == Some((v, rest))
  {
    match v {
      case Null => ParseWord("null", rest, budget);
      case Bool(b) => ParseWord(if b then "true" else "false", rest, budget);
      case Integer(n) =>
        ParseNumberRendered(n, rest);
        IntegerTextStart(n);
        ParseNumberToken(IntegerText(n) + rest, budget);
      case Decimal(t) =>
        ParseNumberText(t, rest);
        ParseNumberToken(t + rest, budget);
      case Text(t) =>
        ParseEscaped(t, rest);
        QuoteSplits(t, rest);
        ParseQuoted(t, Quote(t) + rest, rest, budget);
    }
  }

  lemma IntegerTextStart(n: int)
    ensures IntegerText(n) != "" && (IntegerText(n)[0] == '-' || IsDigit(IntegerText(n)[0]))
  {
    DigitsAreDigits(Magnitude(n));
  }

  lemma ParseWord(word: string, rest: string, budget: nat)
    requires word == "null" || word == "true" || word == "false"
    ensures var v := if word == "null" then Null else Bool(word == "true");
      ParseValue(word + rest, budget) == Some((v, rest))
  {
    var s := word + rest;
    SkipNothing(s);
    assert s[..|word|] == word && s[|word|..] == rest;
    assert "null"[0] == 'n' && "true"[0] == 't' && "false"[0] == 'f';
    assert s[0] == word[0] && s[..4][0] == s[0];
  }

  lemma ParseNumberToken(s: string, budget: nat)
    requires s != "" && (s[0] == '-' || IsDigit(s[0]))
    ensures ParseValue(s, budget) == ParseNumber(s)
  {
    SkipNothing(s);
    NotAWord(s);
  }

  lemma QuoteSplits(t: string, rest: string)
    ensures var s := Quote(t) + rest; s[0] == '"' && s[1..] == Escape(t) + "\"" + rest
  {
  }

  lemma ParseQuoted(t: string, s: string, rest: string, budget: nat)
    requires s != "" && s[0] == '"' && ParseChars(s[1..]) == Some((t, rest))
    ensures ParseValue(s, budget) == Some((Text(t), rest))
  {
    SkipNothing(s);
    NotAWord(s);
  }

  lemma NotAWord(s: string)
    requires s != "" && s[0] != 'n' && s[0] != 't' && s[0] != 'f'
    ensures |s| >= 4 ==> s[..4] != "null" && s[..4] != "true"
    ensures |s| >= 5 ==> s[..5] != "false"
  {
    assert "null"[0] == 'n' && "true"[0] == 't' && "false"[0] == 'f';
    if |s| >= 4 { assert s[..4][0] == s[0]; }
    if |s| >= 5 { assert s[..5][0] == s[0]; }
  }

  lemma {:induction false} ParseRendered(v: Value, rest: string, budget: nat)
    requires Nesting(v) < budget && Delimits(rest)
    ensures ParseValue(Render(v) + rest, budget) == Some((v, rest))
    decreases v, 0
  {
    hide ParseValue, ParseItems, ParseFields, Render, RenderItems, RenderFields;
    if v.Array? && v.items != [] {
      ParseRenderedItems(v.items, rest, budget - 1);
      ParseArrayText(v.items, rest, budget);
    } else if v.Object? && v.fields != [] {
      ParseRenderedFields(v.fields, rest, budget - 1);
      ParseObjectText(v.fields, rest, budget);
    } else if v.Array? || v.Object? {
      ParseEmptyContainer(v, rest, budget);
    } else {
      ParseRenderedScalar(v, rest, budget);
    }
  }

  lemma ParseEmptyContainer(v: Value, rest: string, budget: nat)
    requires v == Array([]) || v == Object([])
    requires budget > 1
    ensures ParseValue(Render(v) + rest, budget) == Some((v, rest))
  {
    var s := Render(v) + rest;
    NotAWord(s);
    SkipNothing(s);
    SkipNothing(s[1..]);
    assert s[1..][1..] == rest;
  }

  lemma ParseArrayText(items: seq<Value>, rest: string, budget: nat)
    requires items != [] && budget > 1
    requires ParseItems(RenderItems(items) + "]" + rest, budget - 1) == Some((items, rest))
    ensures ParseValue(Render(Array(items)) + rest, budget) == Some((Array(items), rest))
  {
    RenderedStart(items[0]);
    assert RenderItems(items)[0] == Render(items[0])[0];
    ParseArrayBody(RenderItems(items), items, rest, budget);
  }

  lemma ParseArrayBody(body: string, items: seq<Value>, rest: string, budget: nat)
    requires body != "" && !IsWhitespace(body[0]) && body[0] != ']' && budget > 1
    requires ParseItems(body + "]" + rest, budget - 1) == Some((items, rest))
    ensures ParseValue("[" + body + "]" + rest, budget) == Some((Array(items), rest))
  {
    var s, u := "[" + body + "]" + rest, body + "]" + rest;
    assert s[0] == '[' && s[1..] == u;
    NotAWord(s);
    SkipNothing(s);
    SkipNothing(u);
  }

  lemma ParseObjectText(fields: seq<Field>, rest: string, budget: nat)
    requires fields != [] && budget > 1
    requires ParseFields(RenderFields(fields) + "}" + rest, budget - 1) == Some((fields, rest))
    ensures ParseValue(Render(Object(fields)) + rest, budget) == Some((Object(fields), rest))
  {
    RenderedFieldsStart(fields);
    ParseObjectBody(RenderFields(fields), fields, rest, budget);
  }

  lemma ParseObjectBody(body: string, fields: seq<Field>, rest: string, budget: nat)
    requires body != "" && body[0] == '"' && budget > 1
    requires ParseFields(body + "}" + rest, budget - 1) == Some((fields, rest))
    ensures ParseValue("{" + body + "}" + rest, budget) == Some((Object(fields), rest))
  {
    var s, u := "{" + body + "}" + rest, body + "}" + rest;
    assert s[0] == '{' && s[1..] == u;
    NotAWord(s);
    SkipNothing(s);
    SkipNothing(u);
  }

  lemma RenderedFieldsStart(fields: seq<Field>)
    requires fields != []
    ensures RenderFields(fields) != "" && RenderFields(fields)[0] == '"'
  {
    assert RenderField(fields[0])[0] == '"';
  }

  lemma {:induction false} ParseRenderedItems(items: seq<Value>, rest: string, budget: nat)
    requires items != [] && ItemsNesting(items) < budget
    ensures ParseItems(RenderItems(items) + "]" + rest, budget) == Some((items, rest))
    decreases items, 1
  {
    var text := RenderItems(items) + "]" + rest;
    if |items| == 1 {
      var tail := "]" + rest;
      assert text == Render(items[0]) + tail;
      ParseRendered(items[0], tail, budget);
      SkipNothing(tail);
      assert tail[1..] == rest;
      assert items == [items[0]];
    } else {
      var next := RenderItems(items[1..]) + "]" + rest;
      var tail := "," + next;
      assert text == Render(items[0]) + tail;
      ParseRendered(items[0], tail, budget);
      SkipNothing(tail);
      assert tail[1..] == next;
      ParseRenderedItems(items[1..], rest, budget);
      assert items == [items[0]] + items[1..];
    }
  }

  lemma {:induction false} ParseRenderedFields(fields: seq<Field>, rest: string, budget: nat)
    requires fields != [] && FieldsNesting(fields) < budget
    ensures ParseFields(RenderFields(fields) + "}" + rest, budget) == Some((fields, rest))
    decreases fields, 1
  {
    var f := fields[0];
    if |fields| == 1 {
      ParseRendered(f.value, "}" + rest, budget);
      ParseLastField(f, rest, budget);
      assert RenderFields(fields) == RenderField(f);
      assert fields == [f];
    } else {
      var next := RenderFields(fields[1..]) + "}" + rest;
      ParseRendered(f.value, "," + next, budget);
      ParseRenderedFields(fields[1..], rest, budget);
      ParseNextField(f, next, fields[1..], rest, budget);
      RenderFieldsSplits(fields, rest);
      assert fields == [f] + fields[1..];
    }
  }

  lemma RenderFieldsSplits(fields: seq<Field>, rest: string)
    requires |fields| > 1
    ensures RenderFields(fields) + "}" + rest
         == RenderField(fields[0]) + ("," + (RenderFields(fields[1..]) + "}" + rest))
  {
    Regroup(RenderField(fields[0]), ",", RenderFields(fields[1..]), "}", rest);
  }

  lemma Regroup(a: string, b: string, c: string, d: string, e: string)
    ensures a + b + c + d + e == a + (b + (c + d + e))
  {
  }

  lemma ParseLastField(f: Field, rest: string, budget: nat)
    requires ParseValue(Render(f.value) + ("}" + rest), budget) == Some((f.value, "}" + rest))
    ensures ParseFields(RenderField(f) + "}" + rest, budget) == Some(([f], rest))
  {
    var tail := "}" + rest;
    assert RenderField(f) + "}" + rest == RenderField(f) + tail;
    ParseKey(f, tail);
    SkipNothing(tail);
    assert tail[1..] == rest;
  }

  lemma ParseNextField(f: Field, next: string, fields: seq<Field>, rest: string, budget: nat)
    requires ParseValue(Render(f.value) + ("," + next), budget) == Some((f.value, "," + next))
    requires ParseFields(next, budget) == Some((fields, rest))
    ensures ParseFields(RenderField(f) + ("," + next), budget) == Some(([f] + fields, rest))
  {
    var tail := "," + next;
    ParseKey(f, tail);
    SkipNothing(tail);
    assert tail[1..] == next;
  }

  lemma ParseKey(f: Field, tail: string)
    ensures var s := RenderField(f) + tail;
      && SkipWhitespace(s) == s && s[0] == '"'
      && var r := ParseChars(s[1..]);
      && r == Some((f.key, ":" + (Render(f.value) + tail)))
      && SkipWhitespace(r.value.1) == r.value.1
      && r.value.1[1..] == Render(f.value) + tail
  {
    var s := RenderField(f) + tail;
    var afterKey := ":" + (Render(f.value) + tail);
    assert s == Quote(f.key) + afterKey;
    assert s[1..] == Escape(f.key) + "\"" + afterKey;
    SkipNothing(s);
    SkipNothing(afterKey);
    ParseEscaped(f.key, afterKey);
  }

  // Reading back a printed document gives the printed value.
  lemma ParseDocumentRendered(v: Value)
    requires Nesting(v) < PARSER_NESTING
    ensures ParseDocument(Render(v)) == Some(v)
  {
    ParseRendered(v, "", PARSER_NESTING);
    assert Render(v) + "" == Render(v);
  }

  // Different values never print alike, however deeply they nest.
  lemma RenderIsInjective(v: Value, w: Value)
    requires Render(v) == Render(w)
    ensures v == w
  {
    hide ParseValue, Render, Nesting;
    var budget := Nesting(v) + Nesting(w) + 1;
    ParseRendered(v, "", budget);
    ParseRendered(w, "", budget);
  }

  ghost predicate IsPrinted(text: string) {
    exists v :: Render(v) == text
  }

  ghost function PrintedValue(text: string): (v: Value)
    requires IsPrinted(text)
    ensures Render(v) == text
  {
    var v :| Render(v) == text;
    v
  }
}
