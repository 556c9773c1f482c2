/** Written JSON, and a reader of JSON text after RFC 8259 (without the optional white space,
    which the encoder never writes). Text is a sequence of bytes: a character stands for the
    byte of its number, and the reader takes nothing above 255 for one. */
module Json {

  import opened Basics

  /** What is written: JSON values, and runs of values with nothing between them. */
  datatype Json =
    | JNull
    | JBool(value: bool)
    | JNumber(text: string)
    | JString(text: string)
    | JArray(items: seq<Json>)
    | JObject(members: seq<Member>)
    | JRun(parts: seq<Json>)

  datatype Member = Member(name: string, value: Json)

  // ---- text ----

  const HEX := "0123456789abcdef"

  /** How a byte stands inside a string (section 7). */
  function EscapeChar(c: char): string {
    if c == '"' then "\\\""
    else if c == '\\' then "\\\\"
    else if c == 8 as char then "\\b"
    else if c == 12 as char then "\\f"
    else if c == '\n' then "\\n"
    else if c == '\r' then "\\r"
    else if c == '\t' then "\\t"
    else if c < ' ' then "\\u00" + [HEX[c as int / 16], HEX[c as int % 16]]
    else [c]
  }

  function Escape(s: string): string {
    if s == "" then "" else EscapeChar(s[0]) + Escape(s[1..])
  }

  function Quote(s: string): string {
    "\"" + Escape(s) + "\""
  }

  /** The compact text: exactly one comma between neighbours. */
  function Print(j: Json): string
    decreases j
  {
    match j
    case JNull => "null"
    case JBool(b) => if b then "true" else "false"
    case JNumber(text) => text
    case JString(s) => Quote(s)
    case JArray(items) => "[" + PrintItems(items) + "]"
    case JObject(members) => "{" + PrintMembers(members) + "}"
    case JRun(parts) => PrintRun(parts)
  }

  function PrintRun(js: seq<Json>): string
    decreases js
  {
    if js == [] then "" else Print(js[0]) + PrintRun(js[1..])
  }

  function PrintItems(js: seq<Json>): string
    decreases js, 1
  {
    if js == [] then "" else Print(js[0]) + MoreItems(js[1..])
  }

  function MoreItems(js: seq<Json>): string
    decreases js, 0
  {
    if js == [] then "" else "," + Print(js[0]) + MoreItems(js[1..])
  }

  function PrintMembers(ms: seq<Member>): string
    decreases ms, 1
  {
    if ms == [] then "" else PrintMember(ms[0]) + MoreMembers(ms[1..])
  }

  function MoreMembers(ms: seq<Member>): string
    decreases ms, 0
  {
    if ms == [] then "" else "," + PrintMember(ms[0]) + MoreMembers(ms[1..])
  }

  function PrintMember(m: Member): string
    decreases m
  {
    Quote(m.name) + ":" + Print(m.value)
  }

  // ---- bytes of UTF-8 (RFC 3629, section 4) ----

  predicate Within(s: string, i: nat, low: int, high: int) {
    i < |s| && low <= s[i] as int <= high
  }

  /** How many bytes at the front make one character; 0 if they make none. */
  function CharLength(s: string): (n: nat)
    ensures n <= |s|
  {
    if Within(s, 0, 0x00, 0x7F) then 1
    else if Within(s, 0, 0xC2, 0xDF) then (if Within(s, 1, 0x80, 0xBF) then 2 else 0)
    else if Within(s, 0, 0xE0, 0xEF) then
      (if Within(s, 1, if s[0] as int == 0xE0 then 0xA0 else 0x80, if s[0] as int == 0xED then 0x9F else 0xBF)
          && Within(s, 2, 0x80, 0xBF) then 3 else 0)
    else if Within(s, 0, 0xF0, 0xF4) then
      (if Within(s, 1, if s[0] as int == 0xF0 then 0x90 else 0x80, if s[0] as int == 0xF4 then 0x8F else 0xBF)
          && Within(s, 2, 0x80, 0xBF) && Within(s, 3, 0x80, 0xBF) then 4 else 0)
    else 0
  }

  /** Well-formed UTF-8. */
  predicate Utf8(s: string) {
    s == "" || (CharLength(s) > 0 && Utf8(s[CharLength(s)..]))
  }

  /** The bytes of a code point. */
  function Utf8Bytes(code: nat): string
    requires code < 0x110000
  {
    if code < 0x80 then [code as char]
    else if code < 0x800 then [(0xC0 + code / 0x40) as char, (0x80 + code % 0x40) as char]
    else if code < 0x10000 then
      [(0xE0 + code / 0x1000) as char, (0x80 + code / 0x40 % 0x40) as char, (0x80 + code % 0x40) as char]
    else
      [(0xF0 + code / 0x40000) as char, (0x80 + code / 0x1000 % 0x40) as char,
       (0x80 + code / 0x40 % 0x40) as char, (0x80 + code % 0x40) as char]
  }

  // ---- the reader ----

  datatype Read<T> = Fail | Done(value: T, rest: string)

  function HexValue(c: char): (r: Option<nat>)
    ensures r.Some? ==> r.value < 16
  {
    if '0' <= c <= '9' then Some(c as int - '0' as int)
    else if 'a' <= c <= 'f' then Some(c as int - 'a' as int + 10)
    else if 'A' <= c <= 'F' then Some(c as int - 'A' as int + 10)
    else None
  }

  /** A `u` and four hexadecimal digits. */
  function ReadUnit(s: string): (r: Read<nat>)
    ensures r.Done? ==> |r.rest| < |s| && r.value < 0x10000
  {
    if |s| < 5 || s[0] != 'u' then Fail
    else
      var a, b, c, d := HexValue(s[1]), HexValue(s[2]), HexValue(s[3]), HexValue(s[4]);
      if a.None? || b.None? || c.None? || d.None? then Fail
      else Done(((a.value * 16 + b.value) * 16 + c.value) * 16 + d.value, s[5..])
  }

  /** One or two units; a surrogate stands only in a pair. */
  function ReadCode(s: string): (r: Read<nat>)
    ensures r.Done? ==> |r.rest| < |s| && r.value < 0x110000
  {
    var high := ReadUnit(s);
    if high.Fail? || 0xDC00 <= high.value < 0xE000 then Fail
    else if high.value < 0xD800 || 0xE000 <= high.value then high
    else if high.rest == "" || high.rest[0] != '\\' then Fail
    else
      var low := ReadUnit(high.rest[1..]);
      if low.Fail? || !(0xDC00 <= low.value < 0xE000) then Fail
      else Done(0x10000 + (high.value - 0xD800) * 0x400 + (low.value - 0xDC00), low.rest)
  }

  /** What follows a backslash. */
  function ReadEscape(s: string): (r: Read<string>)
    ensures r.Done? ==> |r.rest| < |s|
  {
    if s == "" then Fail
    else if s[0] == '"' || s[0] == '\\' || s[0] == '/' then Done([s[0]], s[1..])
    else if s[0] == 'b' then Done([8 as char], s[1..])
    else if s[0] == 'f' then Done([12 as char], s[1..])
    else if s[0] == 'n' then Done("\n", s[1..])
    else if s[0] == 'r' then Done("\r", s[1..])
    else if s[0] == 't' then Done("\t", s[1..])
    else
      var code := ReadCode(s);
      if code.Fail? then Fail else Done(Utf8Bytes(code.value), code.rest)
  }

  /** The inside of a string, in well-formed UTF-8, and the quote that ends it. */
  function ReadString(s: string): (r: Read<string>)
    ensures r.Done? ==> |r.rest| < |s|
    decreases |s|
  {
    if s == "" || s[0] < ' ' then Fail
    else if s[0] == '"' then Done("", s[1..])
    else if s[0] == '\\' then
      var c := ReadEscape(s[1..]);
      if c.Fail? then Fail else Before(c.value, ReadString(c.rest))
    else
      var n := CharLength(s);
      if n == 0 then Fail else Before(s[..n], ReadString(s[n..]))
  }

  function Before(front: string, r: Read<string>): Read<string> {
    if r.Fail? then Fail else Done(front + r.value, r.rest)
  }

  predicate Digit(c: char) { '0' <= c <= '9' }

  function Digits(s: string): (n: nat)
    ensures n <= |s|
  {
    if s == "" || !Digit(s[0]) then 0 else 1 + Digits(s[1..])
  }

  /** The parts of a number (section 6), each 0 if it is not there. */
  function IntLength(s: string): (n: nat)
    ensures n <= |s|
  {
    var sign := if s != "" && s[0] == '-' then 1 else 0;
    if Digits(s[sign..]) == 0 then 0
    else if s[sign] == '0' then sign + 1
    else sign + Digits(s[sign..])
  }

  function FracLength(s: string): (n: nat)
    ensures n <= |s|
  {
    if s != "" && s[0] == '.' && Digits(s[1..]) > 0 then 1 + Digits(s[1..]) else 0
  }

  function ExpLength(s: string): (n: nat)
    ensures n <= |s|
  {
    if s == "" || (s[0] != 'e' && s[0] != 'E') then 0
    else
      var sign := if |s| > 1 && (s[1] == '+' || s[1] == '-') then 2 else 1;
      if Digits(s[sign..]) == 0 then 0 else sign + Digits(s[sign..])
  }

  /** How many bytes at the front are a number; 0 if none is there. */
  function NumberLength(s: string): (n: nat)
    ensures n <= |s|
  {
    var i := IntLength(s);
    if i == 0 then 0
    else
      var f := FracLength(s[i..]);
      i + f + ExpLength(s[i + f..])
  }

  function ReadNumber(s: string): (r: Read<Json>)
    ensures r.Done? ==> |r.rest| < |s|
  {
    var n := NumberLength(s);
    if n > 0 then Done(JNumber(s[..n]), s[n..]) else Fail
  }

  function ReadValue(s: string): (r: Read<Json>)
    ensures r.Done? ==> |r.rest| < |s|
    decreases |s|, 1
  {
    if s == "" then Fail
    else if s[0] == '"' then
      var text := ReadString(s[1..]);
      if text.Fail? then Fail else Done(JString(text.value), text.rest)
    else if s[0] == '[' then
      if |s| > 1 && s[1] == ']' then Done(JArray([]), s[2..])
      else
        var items := ReadItems(s[1..]);
        if items.Fail? then Fail else Done(JArray(items.value), items.rest)
    else if s[0] == '{' then
      if |s| > 1 && s[1] == '}' then Done(JObject([]), s[2..])
      else
        var members := ReadMembers(s[1..]);
        if members.Fail? then Fail else Done(JObject(members.value), members.rest)
    else if "null" <= s then Done(JNull, s[4..])
    else if "true" <= s then Done(JBool(true), s[4..])
    else if "false" <= s then Done(JBool(false), s[5..])
    else ReadNumber(s)
  }

  /** At least one item, and the bracket. */
  function ReadItems(s: string): (r: Read<seq<Json>>)
    ensures r.Done? ==> |r.rest| < |s|
    decreases |s|, 2
  {
    var first := ReadValue(s);
    if first.Fail? || first.rest == "" then Fail
    else if first.rest[0] == ']' then Done([first.value], first.rest[1..])
    else if first.rest[0] == ',' then
      var more := ReadItems(first.rest[1..]);
      if more.Fail? then Fail else Done([first.value] + more.value, more.rest)
    else Fail
  }

  function ReadMembers(s: string): (r: Read<seq<Member>>)
    ensures r.Done? ==> |r.rest| < |s|
    decreases |s|, 2
  {
    var first := ReadMember(s);
    if first.Fail? || first.rest == "" then Fail
    else if first.rest[0] == '}' then Done([first.value], first.rest[1..])
    else if first.rest[0] == ',' then
      var more := ReadMembers(first.rest[1..]);
      if more.Fail? then Fail else Done([first.value] + more.value, more.rest)
    else Fail
  }

  function ReadMember(s: string): (r: Read<Member>)
    ensures r.Done? ==> |r.rest| < |s|
    decreases |s|, 1
  {
    if s == "" || s[0] != '"' then Fail
    else
      var name := ReadString(s[1..]);
      if name.Fail? || name.rest == "" || name.rest[0] != ':' then Fail
      else
        var value := ReadValue(name.rest[1..]);
        if value.Fail? then Fail else Done(Member(name.value, value.value), value.rest)
  }

  // ---- what can be read back ----

  /** A number by the grammar of section 6. */
  predicate IsNumber(text: string) {
    text != "" && NumberLength(text) == |text|
  }

  /** What the encoder writes for doubles that are not finite. */
  predicate NotFinite(text: string) {
    text == "Infinity" || text == "-Infinity" || text == "NaN"
  }

  /** How many values are written: one, but for runs. */
  function Count(j: Json): nat
    decreases j
  {
    if j.JRun? then Counts(j.parts) else 1
  }

  function Counts(js: seq<Json>): nat
    decreases js
  {
    if js == [] then 0 else Count(js[0]) + Counts(js[1..])
  }

  /** An array whose only item writes nothing has the text of an empty one. */
  predicate LooksEmpty(items: seq<Json>) {
    |items| == 1 && Count(items[0]) == 0
  }

  /** The value that the text stands for: in the place of a run that writes one value, that
      value. */
  function Value(j: Json): Json
    decreases j
  {
    match j
    case JArray(items) => if LooksEmpty(items) then JArray([]) else JArray(ValuesOf(items))
    case JObject(members) => JObject(MembersOf(members))
    case JRun(parts) => RunValue(parts)
    case _ => j
  }

  function ValuesOf(js: seq<Json>): (r: seq<Json>)
    ensures |r| == |js| && forall i :: 0 <= i < |js| ==> r[i] == Value(js[i])
    decreases js
  {
    if js == [] then [] else [Value(js[0])] + ValuesOf(js[1..])
  }

  function MembersOf(ms: seq<Member>): (r: seq<Member>)
    ensures |r| == |ms|
    decreases ms
  {
    if ms == [] then [] else [MemberOf(ms[0])] + MembersOf(ms[1..])
  }

  function MemberOf(m: Member): Member
    decreases m
  {
    Member(m.name, Value(m.value))
  }

  function RunValue(js: seq<Json>): Json
    decreases js
  {
    if js == [] then JNull else if Count(js[0]) == 0 then RunValue(js[1..]) else Value(js[0])
  }

  /** Every number is finite, every string is well-formed UTF-8, and every run writes exactly
      one value, unless it is the only item of an array and writes none. */
  predicate Proper(j: Json)
    decreases j
  {
    match j
    case JNumber(text) => IsNumber(text)
    case JString(text) => Utf8(text)
    case JArray(items) => LooksEmpty(items) || AllProper(items)
    case JObject(members) => MembersProper(members)
    case JRun(parts) => Counts(parts) == 1 && RunProper(parts)
    case _ => true
  }

  predicate AllProper(js: seq<Json>)
    decreases js
  {
    js == [] || (Proper(js[0]) && AllProper(js[1..]))
  }

  predicate MembersProper(ms: seq<Member>)
    decreases ms
  {
    ms == [] || (MemberProper(ms[0]) && MembersProper(ms[1..]))
  }

  predicate MemberProper(m: Member)
    decreases m
  {
    Utf8(m.name) && Proper(m.value)
  }

  /** The first part that writes anything is proper. */
  predicate RunProper(js: seq<Json>)
    decreases js
  {
    js == [] || (if Count(js[0]) == 0 then RunProper(js[1..]) else Proper(js[0]))
  }

  /** What the encoder can write: number texts of the two kinds, and runs of objects. */
  predicate Written(j: Json)
    decreases j
  {
    match j
    case JNumber(text) => IsNumber(text) || NotFinite(text)
    case JArray(items) => AllWritten(items)
    case JObject(members) => MembersWritten(members)
    case JRun(parts) => PartsWritten(parts)
    case _ => true
  }

  predicate AllWritten(js: seq<Json>)
    decreases js
  {
    js == [] || (Written(js[0]) && AllWritten(js[1..]))
  }

  predicate PartsWritten(js: seq<Json>)
    decreases js
  {
    js == [] || ((js[0].JObject? || js[0].JRun?) && Written(js[0]) && PartsWritten(js[1..]))
  }

  predicate MembersWritten(ms: seq<Member>)
    decreases ms
  {
    ms == [] || (MemberWritten(ms[0]) && MembersWritten(ms[1..]))
  }

  predicate MemberWritten(m: Member)
    decreases m
  {
    Written(m.value)
  }

  // ---- strings read back ----

  lemma HexDigits(n: int)
    requires 0 <= n < 32
    ensures HexValue(HEX[n / 16]) == Some(n / 16) && HexValue(HEX[n % 16]) == Some(n % 16)
  {
    assert n / 16 == 0 || n / 16 == 1;
    var d := n % 16;
    assert d == 0 || d == 1 || d == 2 || d == 3 || d == 4 || d == 5 || d == 6 || d == 7
        || d == 8 || d == 9 || d == 10 || d == 11 || d == 12 || d == 13 || d == 14 || d == 15;
  }

  lemma ControlReads(c: char, rest: string)
    requires c < ' '
    ensures ReadEscape("u00" + [HEX[c as int / 16], HEX[c as int % 16]] + rest) == Done([c], rest)
  {
    HexDigits(c as int);
    var s := "u00" + [HEX[c as int / 16], HEX[c as int % 16]] + rest;
    assert s[5..] == rest;
    assert ReadUnit(s) == Done(c as int, rest);
  }

  /** Escapes of one letter. */
  lemma LetterReads(c: char, tail: string)
    requires |EscapeChar(c)| == 2
    ensures EscapeChar(c)[0] == '\\' && ReadEscape([EscapeChar(c)[1]] + tail) == Done([c], tail)
  {
    hide ReadUnit, ReadCode;
    assert ([EscapeChar(c)[1]] + tail)[1..] == tail;
  }

  /** An escaped byte of ASCII is itself or a backslash and what `ReadEscape` takes for it. */
  lemma EscapeReads(c: char, tail: string)
    requires c as int < 0x80
    ensures var e := EscapeChar(c);
            if |e| == 1 then e == [c] && c >= ' ' && c != '"' && c != '\\'
            else |e| > 1 && e[0] == '\\' && ReadEscape(e[1..] + tail) == Done([c], tail)
  {
    hide ReadEscape;
    var e := EscapeChar(c);
    if |e| == 2 {
      LetterReads(c, tail);
      assert e[1..] == [e[1]];
    } else if |e| > 2 {
      ControlReads(c, tail);
      assert e[1..] == "u00" + [HEX[c as int / 16], HEX[c as int % 16]];
    }
  }

  /** Reading an escaped byte of ASCII gives the byte and goes on after it. */
  lemma AsciiReads(c: char, tail: string)
    requires c as int < 0x80
    ensures ReadString(EscapeChar(c) + tail) == Before([c], ReadString(tail))
  {
    EscapeReads(c, tail);
    hide EscapeChar, ReadEscape;
    var e := EscapeChar(c);
    var s := e + tail;
    if |e| == 1 {
      assert s[1..] == tail && s[..1] == [c];
      assert CharLength(s) == 1;
    } else {
      assert s[0] == '\\' && s[1..] == e[1..] + tail;
    }
  }

  predicate High(s: string, k: nat) {
    k < |s| && s[k] as int >= 0x80
  }

  lemma EscapeFirst(s: string)
    requires s != ""
    ensures Escape(s) == EscapeChar(s[0]) + Escape(s[1..])
    ensures EscapeChar(s[0]) != ""
    ensures if s[0] as int >= 0x80 then EscapeChar(s[0]) == [s[0]] else EscapeChar(s[0])[0] as int < 0x80
  {
    EscapedIsAscii(s[0]);
    hide EscapeChar;
  }

  lemma EscapedIsAscii(c: char)
    ensures EscapeChar(c) != ""
    ensures if c as int >= 0x80 then EscapeChar(c) == [c] else EscapeChar(c)[0] as int < 0x80
  {
    assert EscapeChar(c) == [c] || EscapeChar(c)[0] == '\\';
  }

  /** Bytes from 128 on are written as they are. */
  lemma {:induction false} HighBytes(s: string, n: nat)
    requires n <= |s| && forall k :: 0 <= k < n ==> High(s, k)
    ensures Escape(s) == s[..n] + Escape(s[n..])
    decreases n
  {
    hide Escape, EscapeChar;
    if n == 0 {
      assert s[n..] == s && s[..n] == "";
    } else {
      var tail := s[1..];
      assert High(s, 0);
      forall k | 0 <= k < n - 1 ensures High(tail, k) { assert High(s, k + 1); }
      HighBytes(tail, n - 1);
      EscapeFirst(s);
      assert tail[n - 1..] == s[n..] && s[..n] == [s[0]] + tail[..n - 1];
      Regroup([s[0]], tail[..n - 1], Escape(s[n..]));
    }
  }

  /** Byte `k` is the same in both, if it is from 128 on in either. */
  predicate SameHigh(s: string, t: string, k: nat) {
    (High(s, k) <==> High(t, k)) && (High(s, k) ==> s[k] == t[k])
  }

  /** After `n` such bytes the text goes on with a byte from 128 on exactly when the string does. */
  lemma NextByte(s: string, n: nat, t: string, rest: string)
    requires n <= |s| && (forall k :: 0 <= k < n ==> High(s, k)) && t == Escape(s) + "\"" + rest
    ensures SameHigh(s, t, n)
  {
    hide Escape, EscapeChar;
    HighBytes(s, n);
    var e := Escape(s[n..]);
    if n < |s| {
      EscapeFirst(s[n..]);
      assert e != "" && t[n] == e[0];
    } else {
      assert e == "" by { NoText(); }
      assert t[n] == '"';
    }
  }

  lemma NoText()
    ensures Escape("") == ""
  {
  }

  lemma SameCharLength(s: string, t: string, rest: string)
    requires High(s, 0) && t == Escape(s) + "\"" + rest
    ensures CharLength(t) == CharLength(s) && High(t, 0) && t[0] == s[0]
  {
    hide Escape, EscapeChar, CharLength;
    NextByte(s, 0, t, rest);
    NextByte(s, 1, t, rest);
    if High(s, 1) {
      NextByte(s, 2, t, rest);
      if High(s, 2) { NextByte(s, 3, t, rest); }
    }
    SameBytes(s, t);
  }

  lemma SameBytes(s: string, t: string)
    requires High(s, 0) && SameHigh(s, t, 0) && SameHigh(s, t, 1)
    requires High(s, 1) ==> SameHigh(s, t, 2)
    requires High(s, 1) && High(s, 2) ==> SameHigh(s, t, 3)
    ensures CharLength(s) == CharLength(t)
  {
  }

  lemma CharIsHigh(s: string)
    requires High(s, 0)
    ensures forall k :: 0 <= k < CharLength(s) ==> High(s, k)
  {
  }

  /** Unescaping gives back every byte of a string in well-formed UTF-8, and refuses any other. */
  lemma {:induction false} StringReadsBack(s: string, rest: string)
    ensures ReadString(Escape(s) + "\"" + rest) == if Utf8(s) then Done(s, rest) else Fail
    decreases |s|
  {
    hide EscapeChar, ReadEscape, CharLength;
    var t := Escape(s) + "\"" + rest;
    if s == "" {
      assert t == "\"" + rest && t[1..] == rest;
    } else if s[0] as int < 0x80 {
      var tail := Escape(s[1..]) + "\"" + rest;
      hide ReadString;
      StringReadsBack(s[1..], rest);
      AsciiReads(s[0], tail);
      assert t == EscapeChar(s[0]) + tail;
      assert s == [s[0]] + s[1..];
      assert CharLength(s) == 1 by { OneByte(s); }
    } else {
      var n := CharLength(s);
      SameCharLength(s, t, rest);
      CharIsHigh(s);
      HighBytes(s, n);
      HighReads(s, n, t, rest);
    }
  }

  lemma OneByte(s: string)
    requires s != "" && s[0] as int < 0x80
    ensures CharLength(s) == 1
  {
  }

  lemma {:induction false} HighReads(s: string, n: nat, t: string, rest: string)
    requires High(s, 0) && n == CharLength(s) == CharLength(t)
    requires t == Escape(s) + "\"" + rest && t[0] == s[0] && Escape(s) == s[..n] + Escape(s[n..])
    ensures ReadString(t) == if Utf8(s) then Done(s, rest) else Fail
    decreases |s|, 0
  {
    hide CharLength, Escape, ReadEscape;
    if n > 0 {
      StringReadsBack(s[n..], rest);
      assert t[n..] == Escape(s[n..]) + "\"" + rest && t[..n] == s[..n];
      assert s == s[..n] + s[n..];
    }
  }

  // ---- numbers read back ----

  /** What may follow a number: nothing that could belong to it. */
  predicate Ends(rest: string) {
    rest == "" || !(Digit(rest[0]) || rest[0] in "-+.eE")
  }

  lemma {:induction false} DigitsStop(s: string, rest: string)
    requires Ends(rest)
    ensures Digits(s + rest) == Digits(s)
  {
    if s == "" {
      assert s + rest == rest;
    } else {
      DigitsStop(s[1..], rest);
      assert (s + rest)[1..] == s[1..] + rest;
    }
  }

  lemma DigitsFromStop(s: string, i: nat, rest: string)
    requires i <= |s| && Ends(rest)
    ensures Digits((s + rest)[i..]) == Digits(s[i..])
  {
    DigitsStop(s[i..], rest);
    assert (s + rest)[i..] == s[i..] + rest;
  }

  lemma IntStops(s: string, rest: string)
    requires Ends(rest)
    ensures IntLength(s + rest) == IntLength(s)
  {
    DigitsFromStop(s, 0, rest);
    if s == "" { assert s + rest == rest; } else { DigitsFromStop(s, 1, rest); }
  }

  lemma FracStops(s: string, rest: string)
    requires Ends(rest)
    ensures FracLength(s + rest) == FracLength(s)
  {
    hide Digits;
    if s == "" { assert s + rest == rest; } else { DigitsFromStop(s, 1, rest); }
  }

  lemma ExpStops(s: string, rest: string)
    requires Ends(rest)
    ensures ExpLength(s + rest) == ExpLength(s)
  {
    if s == "" {
      assert s + rest == rest;
    } else {
      DigitsFromStop(s, 1, rest);
      if |s| > 1 { DigitsFromStop(s, 2, rest); }
    }
  }

  lemma NumberStops(s: string, rest: string)
    requires Ends(rest)
    ensures NumberLength(s + rest) == NumberLength(s)
  {
    hide IntLength, FracLength, ExpLength;
    IntStops(s, rest);
    var i := IntLength(s);
    FracStops(s[i..], rest);
    assert (s + rest)[i..] == s[i..] + rest;
    var f := FracLength(s[i..]);
    ExpStops(s[i + f..], rest);
    assert (s + rest)[i + f..] == s[i + f..] + rest;
  }

  lemma NumberBegins(s: string)
    requires NumberLength(s) > 0
    ensures Digit(s[0]) || s[0] == '-'
  {
  }

  lemma NotFiniteFails(text: string, rest: string)
    requires NotFinite(text)
    ensures NumberLength(text + rest) == 0 && NumberLength(text) == 0
  {
    var s := text + rest;
    assert s[0] == text[0] && s[1] == text[1];
    assert !Digit(s[0]) && !Digit(s[1]);
  }

  lemma NumberReadsBack(text: string, rest: string)
    requires (IsNumber(text) || NotFinite(text)) && Ends(rest)
    ensures ReadValue(text + rest) == if IsNumber(text) then Done(JNumber(text), rest) else Fail
  {
    var s := text + rest;
    hide NumberLength;
    if IsNumber(text) {
      NumberStops(text, rest);
      NumberBegins(s);
      assert s[..|text|] == text && s[|text|..] == rest;
    } else {
      NotFiniteFails(text, rest);
      assert s[0] == text[0];
    }
  }

  // ---- the grammar of numbers (section 6), rule by rule ----

  /** `int`, with its minus: no zero stands in front of another digit. */
  ghost predicate IntRule(t: string) {
    var d := if "-" <= t then t[1..] else t;
    d != "" && OnlyDigits(d) && (d[0] == '0' ==> d == "0")
  }

  /** `frac`, if there is one. */
  ghost predicate FracRule(t: string) {
    t == "" || ("." <= t && |t| > 1 && OnlyDigits(t[1..]))
  }

  /** `exp`, if there is one. */
  ghost predicate ExpRule(t: string) {
    t == "" || (("e" <= t || "E" <= t)
                && var d := if |t| > 1 && (t[1] == '+' || t[1] == '-') then t[2..] else t[1..];
                   d != "" && OnlyDigits(d))
  }

  ghost predicate NumberRule(text: string, a: string, b: string, c: string) {
    text == a + b + c && IntRule(a) && FracRule(b) && ExpRule(c)
  }

  /** The digits at the front are all that there are up to something else. */
  lemma {:induction false} AllDigits(d: string, rest: string)
    requires OnlyDigits(d) && (rest == "" || !Digit(rest[0]))
    ensures Digits(d + rest) == |d|
  {
    if d == "" {
      assert d + rest == rest;
    } else {
      AllDigits(d[1..], rest);
      assert (d + rest)[1..] == d[1..] + rest;
    }
  }

  lemma {:induction false} DigitsAreDigits(s: string)
    ensures OnlyDigits(s[..Digits(s)])
  {
    if s != "" && Digit(s[0]) {
      DigitsAreDigits(s[1..]);
      assert s[..Digits(s)] == [s[0]] + s[1..][..Digits(s[1..])];
    }
  }

  lemma IntIsRule(a: string, rest: string)
    requires IntRule(a) && (rest == "" || !Digit(rest[0]))
    ensures IntLength(a + rest) == |a|
  {
    var s, sign := a + rest, if "-" <= a then 1 else 0;
    AllDigits(a[sign..], rest);
    assert s[sign..] == a[sign..] + rest && s[0] == a[0];
  }

  lemma FracIsRule(b: string, rest: string)
    requires FracRule(b) && (rest == "" || !(Digit(rest[0]) || rest[0] == '.'))
    ensures FracLength(b + rest) == |b|
  {
    if b == "" {
      assert b + rest == rest;
    } else {
      AllDigits(b[1..], rest);
      assert (b + rest)[1..] == b[1..] + rest;
    }
  }

  lemma ExpIsRule(c: string)
    requires ExpRule(c)
    ensures ExpLength(c) == |c|
  {
    if c != "" {
      var sign := if |c| > 1 && (c[1] == '+' || c[1] == '-') then 2 else 1;
      AllDigits(c[sign..], "");
      assert c[sign..] + "" == c[sign..];
    }
  }

  lemma LengthsAreRules(s: string)
    ensures IntLength(s) > 0 ==> IntRule(s[..IntLength(s)])
    ensures FracRule(s[..FracLength(s)]) && ExpRule(s[..ExpLength(s)])
  {
    if s != "" {
      var sign := if s[0] == '-' then 1 else 0;
      DigitsAreDigits(s[sign..]);
      DigitsAreDigits(s[1..]);
      if IntLength(s) > 0 {
        var i := s[..IntLength(s)];
        assert i[sign..] == s[sign..][..|i| - sign];
      }
      if FracLength(s) > 0 { assert s[..FracLength(s)][1..] == s[1..][..FracLength(s) - 1]; }
      if ExpLength(s) > 0 { ExpLengthIsRule(s); }
    }
  }

  lemma ExpLengthIsRule(s: string)
    requires ExpLength(s) > 0
    ensures ExpRule(s[..ExpLength(s)])
  {
    var sign := if |s| > 1 && (s[1] == '+' || s[1] == '-') then 2 else 1;
    DigitsAreDigits(s[sign..]);
    var e := s[..ExpLength(s)];
    assert e[sign..] == s[sign..][..|e| - sign];
  }

  lemma WhatFollows(b: string, c: string)
    requires FracRule(b) && ExpRule(c)
    ensures b + c == "" || !Digit((b + c)[0])
    ensures c == "" || !(Digit(c[0]) || c[0] == '.')
  {
  }

  lemma RuleIsNumber(text: string, a: string, b: string, c: string)
    requires NumberRule(text, a, b, c)
    ensures IsNumber(text)
  {
    WhatFollows(b, c);
    assert a != "" && text == a + (b + c);
    hide IntLength, FracLength, ExpLength, IntRule, FracRule, ExpRule;
    IntIsRule(a, b + c);
    FracIsRule(b, c);
    ExpIsRule(c);
    assert text[|a|..] == b + c && text[|a| + |b|..] == c;
  }

  lemma NumberHasRules(text: string) returns (a: string, b: string, c: string)
    requires IsNumber(text)
    ensures NumberRule(text, a, b, c)
  {
    hide IntLength, FracLength, ExpLength, IntRule, FracRule, ExpRule;
    var i := IntLength(text);
    var tail := text[i..];
    var f := FracLength(tail);
    a, b, c := text[..i], tail[..f], tail[f..];
    assert c == text[i + f..] && c[..ExpLength(c)] == c;
    LengthsAreRules(text);
    LengthsAreRules(tail);
    LengthsAreRules(c);
    assert text == a + b + c;
  }

  /** What is taken for a number is just what the grammar makes. */
  lemma NumberByGrammar(text: string)
    ensures IsNumber(text) <==> exists a, b, c :: NumberRule(text, a, b, c)
  {
    hide IsNumber, NumberRule;
    if a, b, c :| NumberRule(text, a, b, c) { RuleIsNumber(text, a, b, c); }
    if IsNumber(text) { var a, b, c := NumberHasRules(text); }
  }

  // ---- UTF-8 by code points ----

  /** Surrogates are no characters. */
  ghost predicate Scalar(code: nat) {
    code < 0xD800 || 0xE000 <= code < 0x110000
  }

  /** The characters one after the other. */
  ghost function Spelled(codes: seq<nat>): string
    requires forall i :: 0 <= i < |codes| ==> Scalar(codes[i])
  {
    if codes == [] then ""
    else
      assert Scalar(codes[0]);
      Utf8Bytes(codes[0]) + Spelled(codes[1..])
  }

  lemma BytesMakeChar(code: nat, rest: string)
    requires Scalar(code)
    ensures CharLength(Utf8Bytes(code) + rest) == |Utf8Bytes(code)|
  {
    var s := Utf8Bytes(code) + rest;
    if code < 0x80 {
      assert s[0] as int == code;
    } else if code < 0x800 {
      assert s[0] as int == 0xC0 + code / 0x40 && s[1] as int == 0x80 + code % 0x40;
    } else if code < 0x10000 {
      ThreeMakeChar(code, s);
    } else {
      FourMakeChar(code, s);
    }
  }

  lemma ThreeMakeChar(code: nat, s: string)
    requires Scalar(code) && 0x800 <= code < 0x10000 && Utf8Bytes(code) <= s
    ensures CharLength(s) == 3
  {
    assert s[0] as int == 0xE0 + code / 0x1000 && s[1] as int == 0x80 + code / 0x40 % 0x40 && s[2] as int == 0x80 + code % 0x40;
  }

  lemma FourMakeChar(code: nat, s: string)
    requires Scalar(code) && 0x10000 <= code && Utf8Bytes(code) <= s
    ensures CharLength(s) == 4
  {
    assert s[0] as int == 0xF0 + code / 0x40000 && s[1] as int == 0x80 + code / 0x1000 % 0x40;
    assert s[2] as int == 0x80 + code / 0x40 % 0x40 && s[3] as int == 0x80 + code % 0x40;
  }

  lemma CharIsCode(s: string) returns (code: nat)
    requires CharLength(s) > 0
    ensures Scalar(code) && Utf8Bytes(code) == s[..CharLength(s)]
  {
    var n := CharLength(s);
    if n == 1 {
      code := s[0] as int;
    } else if n == 2 {
      code := (s[0] as int - 0xC0) * 0x40 + (s[1] as int - 0x80);
    } else if n == 3 {
      code := ThreeBytes(s[0] as int - 0xE0, s[1] as int - 0x80, s[2] as int - 0x80);
    } else {
      code := FourBytes(s[0] as int - 0xF0, s[1] as int - 0x80, s[2] as int - 0x80, s[3] as int - 0x80);
    }
  }

  lemma ThreeBytes(a: nat, b: nat, c: nat) returns (code: nat)
    requires b < 0x40 && c < 0x40
    ensures code == (a * 0x40 + b) * 0x40 + c
    ensures code / 0x1000 == a && code / 0x40 % 0x40 == b && code % 0x40 == c
  {
    code := (a * 0x40 + b) * 0x40 + c;
  }

  lemma FourBytes(a: nat, b: nat, c: nat, d: nat) returns (code: nat)
    requires b < 0x40 && c < 0x40 && d < 0x40
    ensures code == ((a * 0x40 + b) * 0x40 + c) * 0x40 + d
    ensures code / 0x40000 == a && code / 0x1000 % 0x40 == b && code / 0x40 % 0x40 == c && code % 0x40 == d
  {
    code := ((a * 0x40 + b) * 0x40 + c) * 0x40 + d;
    assert code == 0x40000 * a + (b * 0x1000 + c * 0x40 + d) && b * 0x1000 + c * 0x40 + d < 0x40000;
    assert code / 0x40000 == a;
    assert code == 0x1000 * (a * 0x40 + b) + (c * 0x40 + d) && c * 0x40 + d < 0x1000;
    assert code / 0x1000 == a * 0x40 + b;
  }

  /** Well-formed is just what spells characters. */
  lemma {:induction false} Utf8Spells(s: string) returns (codes: seq<nat>)
    requires Utf8(s)
    ensures (forall i :: 0 <= i < |codes| ==> Scalar(codes[i])) && s == Spelled(codes)
    decreases |s|
  {
    hide CharLength, Utf8Bytes;
    if s == "" {
      codes := [];
    } else {
      var n := CharLength(s);
      var first := CharIsCode(s);
      var rest := Utf8Spells(s[n..]);
      codes := [first] + rest;
      assert codes[1..] == rest;
    }
  }

  lemma {:induction false} SpelledIsUtf8(codes: seq<nat>)
    requires forall i :: 0 <= i < |codes| ==> Scalar(codes[i])
    ensures Utf8(Spelled(codes))
  {
    if codes != [] {
      SpelledIsUtf8(codes[1..]);
      BytesMakeChar(codes[0], Spelled(codes[1..]));
      assert Spelled(codes)[|Utf8Bytes(codes[0])|..] == Spelled(codes[1..]);
    }
  }

  // ---- values read back ----

  /** Reading fails, or stops before another object: no context takes that for a value. */
  predicate Broken(r: Read<Json>) {
    r.Fail? || (r.rest != "" && r.rest[0] == '{')
  }

  /** What follows a place for a value. */
  predicate Closes(rest: string) {
    rest == "" || rest[0] in ",]}"
  }

  lemma ClosedFails(rest: string)
    requires Closes(rest)
    ensures ReadValue(rest) == Fail
  {
  }

  /** The first byte tells a value from the end of an array or object. */
  lemma {:induction false} PrintStarts(j: Json)
    requires Written(j)
    ensures Count(j) == 0 <==> Print(j) == ""
    ensures Count(j) > 0 ==> Print(j)[0] !in ",]}" && (j.JObject? || j.JRun? ==> Print(j)[0] == '{')
    decreases j
  {
    match j {
      case JNumber(text) => if IsNumber(text) { NumberBegins(text); }
      case JRun(parts) => RunStarts(parts);
      case _ =>
    }
  }

  lemma {:induction false} RunStarts(js: seq<Json>)
    requires PartsWritten(js)
    ensures Counts(js) == 0 <==> PrintRun(js) == ""
    ensures Counts(js) > 0 ==> PrintRun(js)[0] == '{'
    decreases js
  {
    if js != [] {
      PrintStarts(js[0]);
      RunStarts(js[1..]);
    }
  }

  lemma ProperIsOne(j: Json)
    requires Proper(j)
    ensures Count(j) == 1
  {
  }

  lemma WordReadsBack(j: Json, rest: string)
    requires j.JNull? || j.JBool?
    ensures ReadValue(Print(j) + rest) == Done(j, rest)
  {
    var s := Print(j) + rest;
    assert s[|Print(j)|..] == rest;
  }

  /** Printing and reading in any context: a proper value comes back whole, any other text is
      refused, or left before an object that nothing takes. */
  lemma {:induction false} ValueReadsBack(j: Json, rest: string)
    requires Written(j) && Ends(rest) && (Count(j) == 0 ==> Closes(rest))
    ensures var r := ReadValue(Print(j) + rest); if Proper(j) then r == Done(Value(j), rest) else Broken(r)
    decreases j
  {
    hide ReadString, ReadNumber, Escape, Utf8;
    match j {
      case JNumber(text) => NumberReadsBack(text, rest);
      case JString(text) =>
        StringReadsBack(text, rest);
        var s := Print(j) + rest;
        assert s[1..] == Escape(text) + "\"" + rest;
      case JArray(items) => ArrayReadsBack(items, rest);
      case JObject(members) =>
        if members == [] {
          assert (Print(j) + rest)[2..] == rest;
        } else {
          MembersReadBack(members, rest);
          ObjectReads(members, rest);
        }
      case JRun(parts) => RunReadsBack(parts, rest);
      case _ => WordReadsBack(j, rest);
    }
  }

  /** The values of a run are read up to the end of the first. */
  lemma {:induction false} RunReadsBack(js: seq<Json>, rest: string)
    requires PartsWritten(js) && Ends(rest) && (Counts(js) == 0 ==> Closes(rest))
    ensures var r := ReadValue(PrintRun(js) + rest);
            if Counts(js) == 1 && RunProper(js) then r == Done(RunValue(js), rest) else Broken(r)
    decreases js
  {
    hide ReadValue, Print, Value, Proper;
    if js == [] {
      assert PrintRun(js) + rest == rest;
      ClosedFails(rest);
    } else {
      var tail := js[1..];
      var after := PrintRun(tail) + rest;
      assert PrintRun(js) + rest == Print(js[0]) + after;
      PrintStarts(js[0]);
      RunStarts(tail);
      if Count(js[0]) == 0 {
        assert Print(js[0]) + after == after;
        RunReadsBack(tail, rest);
      } else {
        ValueReadsBack(js[0], after);
        if Proper(js[0]) { ProperIsOne(js[0]); }
        if Counts(tail) == 0 { assert after == rest; }
      }
    }
  }

  lemma {:induction false} ArrayReadsBack(items: seq<Json>, rest: string)
    requires AllWritten(items)
    ensures ReadValue(Print(JArray(items)) + rest)
         == if Proper(JArray(items)) then Done(Value(JArray(items)), rest) else Fail
    decreases items, 1
  {
    if items == [] {
      assert (Print(JArray(items)) + rest)[2..] == rest;
    } else if LooksEmpty(items) {
      hide ReadValue, AllWritten;
      assert Written(items[0]) by { assert AllWritten(items); }
      PrintStarts(items[0]);
      EmptyReads(rest);
      assert MoreItems(items[1..]) == "";
      assert Print(JArray(items)) + rest == "[]" + rest;
    } else {
      ItemsReadBack(items, rest);
      ArrayReads(items, rest);
    }
  }

  lemma ArrayReads(items: seq<Json>, rest: string)
    requires items != [] && AllWritten(items) && !LooksEmpty(items)
    ensures ReadValue(Print(JArray(items)) + rest)
         == var r := ReadItems(PrintItems(items) + "]" + rest); if r.Fail? then Fail else Done(JArray(r.value), r.rest)
  {
    hide ReadItems, PrintItems, AllWritten, LooksEmpty;
    var s := Print(JArray(items)) + rest;
    assert s[1..] == PrintItems(items) + "]" + rest;
    ItemsStart(items, "]" + rest);
    assert s[1] == (PrintItems(items) + ("]" + rest))[0];
  }

  lemma EmptyReads(rest: string)
    ensures ReadValue("[]" + rest) == Done(JArray([]), rest)
  {
    assert ("[]" + rest)[2..] == rest;
  }

  lemma ItemsStart(items: seq<Json>, rest: string)
    requires items != [] && AllWritten(items) && !LooksEmpty(items)
    ensures PrintItems(items) != "" && (PrintItems(items) + rest)[0] != ']'
  {
    PrintStarts(items[0]);
    hide Print;
  }

  lemma ObjectReads(members: seq<Member>, rest: string)
    requires members != []
    ensures ReadValue(Print(JObject(members)) + rest)
         == var r := ReadMembers(PrintMembers(members) + "}" + rest); if r.Fail? then Fail else Done(JObject(r.value), r.rest)
  {
    hide ReadMembers;
    var s := Print(JObject(members)) + rest;
    assert s[1..] == PrintMembers(members) + "}" + rest;
    assert s[1] == '"';
  }

  lemma {:induction false} ItemsReadBack(js: seq<Json>, rest: string)
    requires js != [] && AllWritten(js)
    ensures ReadItems(PrintItems(js) + "]" + rest) == if AllProper(js) then Done(ValuesOf(js), rest) else Fail
    decreases js, 0
  {
    hide ReadValue, Print, Value, Proper;
    var tail := js[1..];
    var after := MoreItems(tail) + "]" + rest;
    assert PrintItems(js) + "]" + rest == Print(js[0]) + after;
    assert after[0] in ",]";
    ValueReadsBack(js[0], after);
    if tail == [] {
      assert ValuesOf(js) == [Value(js[0])];
      assert after[1..] == rest;
    } else {
      ItemsReadBack(tail, rest);
      assert after[1..] == PrintItems(tail) + "]" + rest;
    }
  }

  lemma {:induction false} MembersReadBack(ms: seq<Member>, rest: string)
    requires ms != [] && MembersWritten(ms)
    ensures ReadMembers(PrintMembers(ms) + "}" + rest) == if MembersProper(ms) then Done(MembersOf(ms), rest) else Fail
    decreases ms
  {
    hide ReadMember, PrintMember, MemberOf, MemberProper;
    var tail := ms[1..];
    var after := MoreMembers(tail) + "}" + rest;
    assert PrintMembers(ms) + "}" + rest == PrintMember(ms[0]) + after;
    assert after[0] in ",}";
    MemberReadsBack(ms[0], after);
    if tail == [] {
      assert MembersOf(ms) == [MemberOf(ms[0])];
      assert after[1..] == rest;
    } else {
      MembersReadBack(tail, rest);
      assert after[1..] == PrintMembers(tail) + "}" + rest;
    }
  }

  lemma {:induction false} MemberReadsBack(m: Member, rest: string)
    requires MemberWritten(m) && rest != "" && Closes(rest)
    ensures var r := ReadMember(PrintMember(m) + rest);
            if MemberProper(m) then r == Done(MemberOf(m), rest) else r.Fail? || (r.rest != "" && r.rest[0] == '{')
    decreases m
  {
    hide ReadString, ReadValue, Print, Escape, Value, Proper, Utf8;
    var value := Print(m.value) + rest;
    StringReadsBack(m.name, ":" + value);
    ValueReadsBack(m.value, rest);
    var s := PrintMember(m) + rest;
    assert s[1..] == Escape(m.name) + "\"" + (":" + value);
    assert (":" + value)[1..] == value;
  }

  /** What is written is JSON text if and only if it is proper, and then it stands for the
      value. */
  lemma PrintReadsBack(j: Json)
    requires Written(j)
    ensures var r := ReadValue(Print(j)); (r.Done? && r.rest == "" <==> Proper(j)) && (Proper(j) ==> r.value == Value(j))
  {
    hide Print, ReadValue, Value, Proper;
    ValueReadsBack(j, "");
    assert Print(j) + "" == Print(j);
  }

  // ---- what is no JSON ----

  /** The text that the encoder writes for an infinite double is no JSON. */
  lemma InfinityIsRefused(rest: string)
    requires Ends(rest)
    ensures ReadValue(Print(JNumber("Infinity")) + rest) == Fail && ReadValue(Print(JNumber("-Infinity")) + rest) == Fail
  {
    NumberReadsBack("Infinity", rest);
    NumberReadsBack("-Infinity", rest);
    NotFiniteFails("Infinity", rest);
    NotFiniteFails("-Infinity", rest);
    hide ReadValue, NumberLength;
  }

  /** A string constant with the byte 255 makes text that is no JSON. */
  lemma HighByteIsRefused(rest: string)
    ensures ReadValue(Print(JString([255 as char])) + rest) == Fail
  {
    StringReadsBack([255 as char], rest);
    var s := Print(JString([255 as char])) + rest;
    hide ReadString;
    assert s[1..] == Escape([255 as char]) + "\"" + rest;
  }

  lemma TwoParts(a: Json, b: Json)
    requires a.JObject? && b.JObject? && Written(a) && Written(b)
    ensures PartsWritten([a, b]) && Counts([a, b]) == 2
  {
    hide Written;
    assert [a, b][1..] == [b] && [b][1..] == [];
    assert PartsWritten([b]) && Counts([b]) == 1;
  }

  /** A node that hands on to two children makes an array that is no JSON. */
  lemma TwoPartsAreRefused(a: Json, b: Json, rest: string)
    requires a.JObject? && b.JObject? && Written(a) && Written(b)
    ensures ReadValue(Print(JArray([JRun([a, b])])) + rest) == Fail
  {
    hide ReadValue, Print;
    var run := JRun([a, b]);
    TwoParts(a, b);
    assert Count(run) == Counts([a, b]) && Written(run);
    assert [run][1..] == [] && AllWritten([]);
    assert AllWritten([run]) && !AllProper([run]);
    ArrayReadsBack([run], rest);
  }

  // ---- one more ----

  lemma {:induction false} MoreItemsAppend(js: seq<Json>, j: Json)
    ensures MoreItems(js + [j]) == MoreItems(js) + "," + Print(j)
  {
    hide Print;
    if js == [] {
      assert js + [j] == [j] && [j][1..] == [];
    } else {
      MoreItemsAppend(js[1..], j);
      assert (js + [j])[1..] == js[1..] + [j];
    }
  }

  lemma OneMoreItem(js: seq<Json>, j: Json)
    ensures PrintItems(js + [j]) == if js == [] then Print(j) else PrintItems(js) + "," + Print(j)
  {
    hide Print, MoreItems;
    if js == [] {
      NoMore();
      assert js + [j] == [j] && [j][1..] == [];
    } else {
      MoreItemsAppend(js[1..], j);
      assert (js + [j])[1..] == js[1..] + [j];
    }
  }

  lemma NoMore()
    ensures MoreItems([]) == "" && MoreMembers([]) == ""
  {
  }

  lemma {:induction false} OneMorePart(js: seq<Json>, j: Json)
    ensures PrintRun(js + [j]) == PrintRun(js) + Print(j)
  {
    hide Print;
    if js == [] {
      assert js + [j] == [j] && [j][1..] == [];
    } else {
      OneMorePart(js[1..], j);
      assert (js + [j])[1..] == js[1..] + [j];
    }
  }

  lemma {:induction false} MoreMembersAppend(ms: seq<Member>, m: Member)
    ensures MoreMembers(ms + [m]) == MoreMembers(ms) + "," + PrintMember(m)
  {
    hide PrintMember;
    if ms == [] {
      assert ms + [m] == [m] && [m][1..] == [];
    } else {
      MoreMembersAppend(ms[1..], m);
      assert (ms + [m])[1..] == ms[1..] + [m];
    }
  }

  lemma OneMoreMember(ms: seq<Member>, m: Member)
    ensures PrintMembers(ms + [m]) == if ms == [] then PrintMember(m) else PrintMembers(ms) + "," + PrintMember(m)
  {
    hide PrintMember, MoreMembers;
    if ms == [] {
      NoMore();
      assert ms + [m] == [m] && [m][1..] == [];
    } else {
      MoreMembersAppend(ms[1..], m);
      assert (ms + [m])[1..] == ms[1..] + [m];
    }
  }

  lemma {:induction false} OneMoreChar(s: string, c: char)
    ensures Escape(s + [c]) == Escape(s) + EscapeChar(c)
  {
    hide EscapeChar;
    if s == "" {
      assert s + [c] == [c] && [c][1..] == "";
    } else {
      OneMoreChar(s[1..], c);
      assert (s + [c])[1..] == s[1..] + [c];
    }
  }

  /** Bytes of ASCII that can stand in a string as they are. */
  predicate Plain(s: string) {
    forall i :: 0 <= i < |s| ==> s[i] as int < 0x80 && EscapeChar(s[i]) == [s[i]]
  }

  lemma {:induction false} PlainIsItself(s: string)
    requires Plain(s)
    ensures Escape(s) == s
  {
    if s != "" {
      assert EscapeChar(s[0]) == [s[0]];
      PlainIsItself(s[1..]);
    }
  }

  lemma {:induction false} PlainIsUtf8(s: string)
    requires Plain(s)
    ensures Utf8(s)
  {
    hide EscapeChar;
    if s != "" { PlainIsUtf8(s[1..]); }
  }
}
