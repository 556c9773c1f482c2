/** The JSON encoder of syntax trees (Analysis/src/AstJsonEncoder.cpp): text gathered in
    chunks, with a flag that remembers whether the next property needs a comma. */
module JsonEncoder {

  import opened Basics
  import opened Json

  const CHUNK_SIZE: nat := 1024

  datatype Location = Location(beginLine: nat, beginColumn: nat, endLine: nat, endColumn: nat)

  /** What a node's writers write: a node with a writer is an object of properties, and a block
      writes its last two properties by hand. A node without a writer hands on to its children,
      who write themselves one after the other. */
  datatype Doc =
    | Null
    | Bool(value: bool)
    | Number(text: string)
    | Text(bytes: string)
    | Place(location: Location)
    | Array(items: seq<Doc>)
    | Object(props: seq<Prop>)
    | Block(location: Location, hasEnd: bool, body: seq<Doc>)
    | Unhandled(children: seq<Doc>)

  datatype Prop = Prop(name: string, value: Doc)

  /** What a syntax tree can be: the names of properties are identifiers of the program, written
      without escapes, and only nodes are children of nodes. */
  predicate Named(d: Doc)
    decreases d
  {
    match d
    case Array(items) => AllNamed(items)
    case Block(_, _, body) => AllNamed(body)
    case Object(props) => PropsNamed(props)
    case Unhandled(children) => AllNamed(children) && AllNodes(children)
    case _ => true
  }

  predicate AllNodes(ds: seq<Doc>) {
    forall i :: 0 <= i < |ds| ==> ds[i].Object? || ds[i].Block? || ds[i].Unhandled?
  }

  predicate AllNamed(ds: seq<Doc>)
    decreases ds
  {
    forall i :: 0 <= i < |ds| ==> Named(ds[i])
  }

  predicate PropsNamed(ps: seq<Prop>)
    decreases ps
  {
    forall i :: 0 <= i < |ps| ==> PropNamed(ps[i])
  }

  predicate PropNamed(p: Prop)
    decreases p
  {
    Plain(p.name) && Named(p.value)
  }

  // ---- the value that a document stands for ----

  function PlaceText(l: Location): string {
    Decimal(l.beginLine) + "," + Decimal(l.beginColumn) + " - " + Decimal(l.endLine) + "," + Decimal(l.endColumn)
  }

  function Meaning(d: Doc): Json
    decreases d
  {
    match d
    case Null => JNull
    case Bool(b) => JBool(b)
    case Number(text) => JNumber(text)
    case Text(bytes) => JString(bytes)
    case Place(l) => JString(PlaceText(l))
    case Array(items) => JArray(Meanings(items))
    case Object(props) => JObject(Members(props))
    case Block(l, hasEnd, body) =>
      JObject([Member("type", JString("AstStatBlock")), Member("location", JString(PlaceText(l))),
               Member("hasEnd", JBool(hasEnd)), Member("body", JArray(Meanings(body)))])
    case Unhandled(children) => JRun(Meanings(children))
  }

  function Meanings(ds: seq<Doc>): (js: seq<Json>)
    ensures |js| == |ds| && forall i :: 0 <= i < |ds| ==> js[i] == Meaning(ds[i])
    decreases ds
  {
    if ds == [] then [] else Meanings(ds[..|ds| - 1]) + [Meaning(ds[|ds| - 1])]
  }

  function Members(ps: seq<Prop>): (ms: seq<Member>)
    ensures |ms| == |ps| && forall i :: 0 <= i < |ps| ==> ms[i].name == ps[i].name && ms[i].value == Meaning(ps[i].value)
    decreases ps
  {
    if ps == [] then [] else Members(ps[..|ps| - 1]) + [PropMeaning(ps[|ps| - 1])]
  }

  function PropMeaning(p: Prop): Member
    decreases p
  {
    Member(p.name, Meaning(p.value))
  }

  lemma {:induction false} DecimalIsPlain(n: nat)
    ensures Plain(Decimal(n))
  {
    if n >= 10 { DecimalIsPlain(n / 10); }
  }

  lemma PlaceIsPlain(l: Location)
    ensures Escape(PlaceText(l)) == PlaceText(l) && Plain(PlaceText(l))
  {
    DecimalIsPlain(l.beginLine);
    DecimalIsPlain(l.beginColumn);
    DecimalIsPlain(l.endLine);
    DecimalIsPlain(l.endColumn);
    hide Decimal;
    PlainIsItself(PlaceText(l));
  }

  /** The number at the front, and what comes after it. */
  ghost function Front(s: string): (nat, string) {
    DigitsAreDigits(s);
    (ValueOf(s[..Digits(s)]), s[Digits(s)..])
  }

  /** Two numbers with a comma between them. */
  ghost function ReadPair(s: string): Option<(nat, nat, string)> {
    var line := Front(s);
    if !("," <= line.1) then None
    else
      var column := Front(line.1[1..]);
      Some((line.0, column.0, column.1))
  }

  /** A location: where it begins, and where it ends. */
  ghost function ReadPlace(s: string): Option<Location> {
    var begin := ReadPair(s);
    if begin.None? || !(" - " <= begin.value.2) then None
    else
      var end := ReadPair(begin.value.2[3..]);
      if end.None? || end.value.2 != "" then None
      else Some(Location(begin.value.0, begin.value.1, end.value.0, end.value.1))
  }

  lemma DecimalInFront(n: nat, rest: string)
    requires rest == "" || !Digit(rest[0])
    ensures Front(Decimal(n) + rest) == (n, rest)
  {
    DecimalValue(n);
    AllDigits(Decimal(n), rest);
    assert (Decimal(n) + rest)[..|Decimal(n)|] == Decimal(n) && (Decimal(n) + rest)[|Decimal(n)|..] == rest;
  }

  lemma PairReads(line: nat, column: nat, rest: string)
    requires rest == "" || !Digit(rest[0])
    ensures ReadPair(Decimal(line) + "," + Decimal(column) + rest) == Some((line, column, rest))
  {
    hide Decimal, Front;
    var after := "," + (Decimal(column) + rest);
    DecimalInFront(line, after);
    DecimalInFront(column, rest);
    assert Decimal(line) + "," + Decimal(column) + rest == Decimal(line) + after;
    assert after[1..] == Decimal(column) + rest;
  }

  /** The text of a location gives back its lines and columns, first where it begins and then
      where it ends. */
  lemma PlaceReadsBack(l: Location)
    ensures ReadPlace(PlaceText(l)) == Some(l)
  {
    hide Decimal, ReadPair;
    var end := Decimal(l.endLine) + "," + Decimal(l.endColumn);
    PairReads(l.beginLine, l.beginColumn, " - " + end);
    PairReads(l.endLine, l.endColumn, "");
    assert PlaceText(l) == Decimal(l.beginLine) + "," + Decimal(l.beginColumn) + (" - " + end);
    assert (" - " + end)[3..] == end && Decimal(l.endLine) + "," + Decimal(l.endColumn) + "" == end;
  }

  // ---- chunks ----

  function Join(chunks: seq<string>): string {
    if chunks == [] then "" else Join(chunks[..|chunks| - 1]) + chunks[|chunks| - 1]
  }

  lemma JoinLast(chunks: seq<string>, last: string)
    ensures Join(chunks + [last]) == Join(chunks) + last
  {
    assert (chunks + [last])[..|chunks|] == chunks;
  }

  /** A chunk outgrows the size reserved for it only if it holds one long piece. */
  ghost predicate ChunksFit(chunks: seq<string>, pieces: seq<string>) {
    && chunks != [] && |chunks[|chunks| - 1]| < CHUNK_SIZE
    && forall i :: 0 <= i < |chunks| ==> ChunkFits(chunks[i], pieces)
  }

  ghost predicate ChunkFits(chunk: string, pieces: seq<string>) {
    |chunk| <= CHUNK_SIZE || chunk in pieces
  }

  lemma LastChunk(chunks: seq<string>, pieces: seq<string>)
    requires ChunksFit(chunks, pieces)
    ensures chunks != [] && |chunks[|chunks| - 1]| < CHUNK_SIZE
  {
  }

  lemma LongPiece(chunks: seq<string>, pieces: seq<string>, sv: string)
    requires ChunksFit(chunks, pieces)
    ensures ChunksFit(chunks + [sv] + [""], pieces + [sv]) && Join(chunks + [sv] + [""]) == Join(chunks) + sv
  {
    JoinLast(chunks, sv);
    JoinLast(chunks + [sv], "");
    hide Join;
    forall i | 0 <= i < |chunks + [sv] + [""]| ensures ChunkFits((chunks + [sv] + [""])[i], pieces + [sv]) {
      if i < |chunks| { assert ChunkFits(chunks[i], pieces); }
    }
  }

  lemma ShortPiece(before: seq<string>, last: string, pieces: seq<string>, sv: string, new_: seq<string>)
    requires ChunksFit(before + [last], pieces)
    requires (|new_| == 1 && new_[0] == last + sv && |new_[0]| < CHUNK_SIZE)
          || (|new_| == 2 && new_[0] + new_[1] == last + sv && |new_[0]| == CHUNK_SIZE && |new_[1]| < CHUNK_SIZE)
    ensures ChunksFit(before + new_, pieces + [sv]) && Join(before + new_) == Join(before + [last]) + sv
  {
    ShortPieceJoins(before, last, sv, new_);
    hide Join;
    var after := before + new_;
    forall i | 0 <= i < |after| ensures ChunkFits(after[i], pieces + [sv]) {
      if i < |before| {
        assert ChunkFits((before + [last])[i], pieces) && after[i] == before[i];
      } else {
        assert after[i] == new_[i - |before|];
      }
    }
    assert after[|after| - 1] == new_[|new_| - 1];
  }

  lemma ShortPieceJoins(before: seq<string>, last: string, sv: string, new_: seq<string>)
    requires (|new_| == 1 && new_[0] == last + sv) || (|new_| == 2 && new_[0] + new_[1] == last + sv)
    ensures Join(before + new_) == Join(before + [last]) + sv
  {
    hide Join;
    JoinLast(before, last);
    Regroup(Join(before), last, sv);
    if |new_| == 2 {
      JoinTwo(before, new_[0], new_[1]);
      assert new_ == [new_[0], new_[1]];
    } else {
      JoinLast(before, new_[0]);
      assert new_ == [new_[0]];
    }
  }

  lemma JoinTwo(chunks: seq<string>, a: string, b: string)
    ensures Join(chunks + [a, b]) == Join(chunks) + (a + b)
  {
    hide Join;
    JoinLast(chunks, a);
    JoinLast(chunks + [a], b);
    assert chunks + [a, b] == chunks + [a] + [b];
    Regroup(Join(chunks), a, b);
  }

  class Encoder {
    var chunks: seq<string>
    var comma: bool
    ghost var written: string
    ghost var pieces: seq<string>

    ghost predicate Valid()
      reads this
    {
      ChunksFit(chunks, pieces) && Join(chunks) == written
    }

    constructor ()
      ensures Valid() && written == "" && !comma
    {
      chunks, comma, written, pieces := [""], false, "", [];
      new;
      assert Join([""]) == "" by { JoinLast([], ""); }
    }

    /** `str` */
    method Str() returns (s: string)
      requires Valid()
      ensures s == written
    {
      s := Join(chunks);
    }

    method PushComma() returns (c: bool)
      requires Valid()
      modifies `comma
      ensures Valid() && c == old(comma) && !comma
    {
      c := comma;
      comma := false;
    }

    method PopComma(c: bool)
      requires Valid()
      modifies `comma
      ensures Valid() && comma == c
    {
      comma := c;
    }

    /** `appendChunk`: whatever the sizes, the chunks together are all that was written. */
    method AppendChunk(sv: string)
      requires Valid()
      modifies `chunks, `written, `pieces
      ensures Valid() && written == old(written) + sv && pieces == old(pieces) + [sv]
    {
      hide Join, ChunksFit;
      assert chunks != [] && |chunks[|chunks| - 1]| < CHUNK_SIZE by { LastChunk(chunks, pieces); }
      ghost var before, last, known := chunks[..|chunks| - 1], chunks[|chunks| - 1], pieces;
      assert chunks == before + [last];
      written, pieces := written + sv, pieces + [sv];
      if |sv| > CHUNK_SIZE {
        LongPiece(chunks, known, sv);
        chunks := chunks + [sv] + [""];
        return;
      }
      var chunk := chunks[|chunks| - 1];
      if |chunk| + |sv| < CHUNK_SIZE {
        ShortPiece(before, last, known, sv, [chunk + sv]);
        chunks := chunks[|chunks| - 1 := chunk + sv];
        assert chunks == before + [chunk + sv];
        return;
      }
      var prefix := CHUNK_SIZE - |chunk|;
      assert chunk + sv == (chunk + sv[..prefix]) + sv[prefix..];
      ShortPiece(before, last, known, sv, [chunk + sv[..prefix], sv[prefix..]]);
      chunks := chunks[|chunks| - 1 := chunk + sv[..prefix]] + [sv[prefix..]];
      assert chunks == before + [chunk + sv[..prefix], sv[prefix..]];
    }

    /** `writeString` */
    method WriteString(sv: string)
      requires Valid()
      modifies `chunks, `written, `pieces
      ensures Valid() && written == old(written) + Quote(sv)
    {
      hide ChunksFit, Join, Escape;
      ghost var start := written;
      AppendChunk("\"");
      assert Escape("") == "" by { NoText(); }
      for i := 0 to |sv|
        invariant Valid() && written == start + ("\"" + Escape(sv[..i]))
      {
        var c := sv[i];
        if c == '"' {
          AppendChunk("\\\"");
        } else if c == '\\' {
          AppendChunk("\\\\");
        } else if c == 8 as char {
          AppendChunk("\\b");
        } else if c == 12 as char {
          AppendChunk("\\f");
        } else if c == '\n' {
          AppendChunk("\\n");
        } else if c == '\r' {
          AppendChunk("\\r");
        } else if c == '\t' {
          AppendChunk("\\t");
        } else if c < ' ' {
          AppendChunk("\\u00" + [HEX[c as int / 16], HEX[c as int % 16]]);
        } else {
          AppendChunk([c]);
        }
        NextChar(start, sv, i);
      }
      assert sv[..|sv|] == sv;
      AppendChunk("\"");
      Regroup(start, "\"" + Escape(sv), "\"");
    }

    /** The comma before a property, if one is due, and the property's name. */
    method WriteName(name: string)
      requires Valid() && Plain(name)
      modifies this
      ensures Valid() && comma
      ensures written == old(written) + (if old(comma) then "," else "") + (Quote(name) + ":")
    {
      hide ChunksFit, Join, Escape;
      if comma {
        AppendChunk(",");
      }
      comma := true;
      ghost var start := written;
      AppendChunk("\"");
      AppendChunk(name);
      AppendChunk("\":");
      NameText(start, name);
      assert old(written) + "" == old(written);
    }

    method WriteProp(p: Prop)
      requires Valid() && PropNamed(p)
      modifies this
      ensures Valid() && comma
      ensures written == old(written) + (if old(comma) then "," else "") + PrintMember(PropMeaning(p))
      decreases p
    {
      hide ChunksFit, Join, Quote, Print, Meaning;
      WriteName(p.name);
      WriteValue(p.value);
      Regroup(old(written) + (if old(comma) then "," else ""), Quote(p.name) + ":", Print(Meaning(p.value)));
    }

    /** The writer of any value leaves the comma flag as it was. */
    method WriteValue(d: Doc)
      requires Valid() && Named(d)
      modifies this
      ensures Valid() && comma == old(comma)
      ensures written == old(written) + Print(Meaning(d))
      decreases d
    {
      hide ChunksFit, Join, Escape, PrintItems, PrintMembers, PrintRun, Meanings, Members, Decimal;
      match d {
        case Null => AppendChunk("null");
        case Bool(b) => if b { AppendChunk("true"); } else { AppendChunk("false"); }
        case Number(text) => AppendChunk(text);
        case Text(bytes) => WriteString(bytes);
        case Place(l) => WritePlace(l);
        case Array(items) =>
          AppendChunk("[");
          WriteItems(items);
          AppendChunk("]");
          Bracket(old(written), "[", PrintItems(Meanings(items)), "]");
        case Object(props) =>
          AppendChunk("{");
          var c := PushComma();
          WriteProps(props);
          PopComma(c);
          AppendChunk("}");
          Bracket(old(written), "{", PrintMembers(Members(props)), "}");
        case Block(l, hasEnd, body) =>
          WriteBlock(l, hasEnd, body);
        case Unhandled(children) =>
          WriteChildren(children);
      }
    }

    /** A node without a writer: the visitor goes on to its children, with nothing between. */
    method WriteChildren(children: seq<Doc>)
      requires Valid() && AllNamed(children)
      modifies this
      ensures Valid() && comma == old(comma)
      ensures written == old(written) + PrintRun(Meanings(children))
      decreases children, 0
    {
      hide ChunksFit, Join, Print, Meaning, PrintRun, Meanings;
      ghost var start := written;
      NoParts(start);
      assert children[..0] == [];
      for i := 0 to |children|
        invariant Valid() && comma == old(comma)
        invariant written == start + PrintRun(Meanings(children[..i]))
      {
        WriteValue(children[i]);
        NextPart(start, children, i);
      }
      assert children[..|children|] == children;
    }

    method WritePlace(l: Location)
      requires Valid()
      modifies `chunks, `written, `pieces
      ensures Valid() && written == old(written) + Quote(PlaceText(l))
    {
      hide ChunksFit, Join, Escape, Decimal;
      AppendChunk("\"");
      AppendChunk(Decimal(l.beginLine));
      AppendChunk(",");
      AppendChunk(Decimal(l.beginColumn));
      AppendChunk(" - ");
      AppendChunk(Decimal(l.endLine));
      AppendChunk(",");
      AppendChunk(Decimal(l.endColumn));
      AppendChunk("\"");
      PlaceWritten(old(written), l);
    }

    /** Array elements, with a flag of their own between them. */
    method WriteItems(items: seq<Doc>)
      requires Valid() && AllNamed(items)
      modifies this
      ensures Valid() && comma == old(comma)
      ensures written == old(written) + PrintItems(Meanings(items))
      decreases items, 0
    {
      hide ChunksFit, Join, Print, Meaning, PrintItems, Meanings;
      ghost var start := written;
      NoItems(start);
      assert items[..0] == [];
      var between := false;
      for i := 0 to |items|
        invariant Valid() && comma == old(comma) && (between <==> i > 0)
        invariant written == start + PrintItems(Meanings(items[..i]))
      {
        if between {
          AppendChunk(",");
        } else {
          between := true;
        }
        WriteValue(items[i]);
        NextItem(start, items, i);
      }
      assert items[..|items|] == items;
    }

    method WriteProps(props: seq<Prop>)
      requires Valid() && PropsNamed(props) && !comma
      modifies this
      ensures Valid() && written == old(written) + PrintMembers(Members(props))
      decreases props
    {
      hide ChunksFit, Join, PrintMember, PropMeaning, PrintMembers, Members;
      ghost var start := written;
      NoProps(start);
      assert props[..0] == [];
      for i := 0 to |props|
        invariant Valid() && (comma <==> i > 0)
        invariant written == start + PrintMembers(Members(props[..i]))
      {
        ghost var before := written;
        WriteProp(props[i]);
        NextProp(start, props, i);
        assert before + "" == before;
      }
      assert props[..|props|] == props;
    }

    /** A block: its last two properties come with commas of their own. */
    method WriteBlock(l: Location, hasEnd: bool, body: seq<Doc>)
      requires Valid() && AllNamed(body)
      modifies this
      ensures Valid() && comma == old(comma)
      ensures written == old(written) + Print(Meaning(Block(l, hasEnd, body)))
      decreases body, 1
    {
      hide ChunksFit, Join, Escape, Print, Meaning, PrintItems, Meanings, PlaceText, Quote;
      ghost var start := written;
      AppendChunk("{");
      var c := PushComma();
      WriteName("type");
      WriteString("AstStatBlock");
      ghost var head := "{" + (Quote("type") + ":" + Quote("AstStatBlock"));
      Gather(start, "{", "", Quote("type") + ":", Quote("AstStatBlock"));
      WriteName("location");
      WritePlace(l);
      Gather(start, head, ",", Quote("location") + ":", Quote(PlaceText(l)));
      head := head + "," + (Quote("location") + ":" + Quote(PlaceText(l)));
      AppendChunk(",\"hasEnd\":");
      AppendChunk(if hasEnd then "true" else "false");
      AppendChunk(",\"body\":[");
      WriteItems(body);
      AppendChunk("]");
      PopComma(c);
      AppendChunk("}");
      BlockWritten(start, l, hasEnd, body);
    }
  }

  lemma NextChar(start: string, sv: string, i: nat)
    requires i < |sv|
    ensures start + ("\"" + Escape(sv[..i])) + EscapeChar(sv[i]) == start + ("\"" + Escape(sv[..i + 1]))
  {
    hide EscapeChar, Escape;
    OneMoreChar(sv[..i], sv[i]);
    assert sv[..i + 1] == sv[..i] + [sv[i]];
  }

  lemma NameText(start: string, name: string)
    requires Plain(name)
    ensures start + "\"" + name + "\":" == start + (Quote(name) + ":")
  {
    PlainIsItself(name);
    hide Escape;
  }

  lemma Bracket(start: string, open: string, inner: string, close: string)
    ensures start + open + inner + close == start + (open + inner + close)
  {
  }

  lemma NoItems(start: string)
    ensures start + PrintItems(Meanings([])) == start
  {
  }

  lemma NoProps(start: string)
    ensures start + PrintMembers(Members([])) == start
  {
  }

  lemma NoParts(start: string)
    ensures start + PrintRun(Meanings([])) == start
  {
  }

  lemma NextPart(start: string, children: seq<Doc>, i: nat)
    requires i < |children|
    ensures start + PrintRun(Meanings(children[..i + 1])) == start + PrintRun(Meanings(children[..i])) + Print(Meaning(children[i]))
  {
    assert children[..i + 1][..i] == children[..i];
    assert Meanings(children[..i + 1]) == Meanings(children[..i]) + [Meaning(children[i])];
    hide Print, Meaning, PrintRun, Meanings;
    OneMorePart(Meanings(children[..i]), Meaning(children[i]));
  }

  lemma NextItem(start: string, items: seq<Doc>, i: nat)
    requires i < |items|
    ensures start + PrintItems(Meanings(items[..i + 1]))
         == if i == 0 then start + PrintItems(Meanings(items[..i])) + Print(Meaning(items[i]))
            else start + PrintItems(Meanings(items[..i])) + "," + Print(Meaning(items[i]))
  {
    var before, j := Meanings(items[..i]), Meaning(items[i]);
    assert items[..i + 1][..i] == items[..i];
    assert Meanings(items[..i + 1]) == before + [j];
    hide Print, Meaning, PrintItems, Meanings;
    OneMoreItem(before, j);
    if i == 0 {
      NoItems(start);
      assert items[..0] == [];
    }
  }

  lemma NextProp(start: string, props: seq<Prop>, i: nat)
    requires i < |props|
    ensures start + PrintMembers(Members(props[..i + 1]))
         == if i == 0 then start + PrintMembers(Members(props[..i])) + PrintMember(PropMeaning(props[i]))
            else start + PrintMembers(Members(props[..i])) + "," + PrintMember(PropMeaning(props[i]))
  {
    var before, m := Members(props[..i]), PropMeaning(props[i]);
    assert props[..i + 1][..i] == props[..i];
    assert Members(props[..i + 1]) == before + [m];
    hide PrintMember, PropMeaning, PrintMembers, Members;
    OneMoreMember(before, m);
    if i == 0 {
      NoProps(start);
      assert props[..0] == [];
    }
  }

  lemma PlaceWritten(start: string, l: Location)
    ensures start + "\"" + Decimal(l.beginLine) + "," + Decimal(l.beginColumn) + " - "
            + Decimal(l.endLine) + "," + Decimal(l.endColumn) + "\"" == start + Quote(PlaceText(l))
  {
    PlaceIsPlain(l);
    hide Decimal, Escape;
  }

  lemma Gather(start: string, head: string, comma: string, name: string, value: string)
    ensures start + head + comma + name + value == start + (head + comma + (name + value))
    ensures comma == "" ==> head + comma + (name + value) == head + (name + value)
  {
  }

  /** How a block begins: its type and its place. */
  function BlockHead(place: string): string {
    "{" + (Quote("type") + ":" + Quote("AstStatBlock")) + "," + (Quote("location") + ":" + Quote(place))
  }

  /** The text of a block, as written, is that of an object of four members. */
  lemma BlockWritten(start: string, l: Location, hasEnd: bool, body: seq<Doc>)
    ensures start + BlockHead(PlaceText(l)) + ",\"hasEnd\":" + (if hasEnd then "true" else "false") + ",\"body\":[" + PrintItems(Meanings(body)) + "]" + "}"
         == start + Print(Meaning(Block(l, hasEnd, body)))
  {
    var a, b := Member("type", JString("AstStatBlock")), Member("location", JString(PlaceText(l)));
    var c, d := Member("hasEnd", JBool(hasEnd)), Member("body", JArray(Meanings(body)));
    var bool_, items := if hasEnd then "true" else "false", PrintItems(Meanings(body));
    FourMembers(a, b, c, d);
    HandMembers(hasEnd, Meanings(body));
    hide PlaceText, PrintMembers, PrintItems, Meanings, Quote;
    assert Print(Meaning(Block(l, hasEnd, body))) == "{" + PrintMembers([a, b, c, d]) + "}";
    hide Print, Meaning;
    BlockText(start, PrintMember(a), PrintMember(b), bool_, items);
  }

  lemma HandMembers(hasEnd: bool, body: seq<Json>)
    ensures PrintMember(Member("hasEnd", JBool(hasEnd))) == "\"hasEnd\":" + if hasEnd then "true" else "false"
    ensures PrintMember(Member("body", JArray(body))) == "\"body\":" + ("[" + PrintItems(body) + "]")
  {
    HandNames();
    hide PrintMember, PrintItems, Plain;
    PlainMember("hasEnd", JBool(hasEnd));
    PlainMember("body", JArray(body));
  }

  lemma HandNames()
    ensures Plain("hasEnd") && "\"" + "hasEnd" + "\":" == "\"hasEnd\":"
    ensures Plain("body") && "\"" + "body" + "\":" == "\"body\":"
  {
    LettersArePlain("hasEnd");
    LettersArePlain("body");
    hide Plain, EscapeChar;
  }

  lemma PlainMember(name: string, value: Json)
    requires Plain(name)
    ensures PrintMember(Member(name, value)) == "\"" + name + "\":" + Print(value)
  {
    PlainIsItself(name);
    hide Escape, Print;
  }

  lemma BlockText(start: string, a: string, b: string, bool_: string, items: string)
    ensures start + ("{" + a + "," + b) + ",\"hasEnd\":" + bool_ + ",\"body\":[" + items + "]" + "}"
         == start + ("{" + (a + "," + b + "," + ("\"hasEnd\":" + bool_) + "," + ("\"body\":" + ("[" + items + "]"))) + "}")
  {
  }

  lemma FourMembers(a: Member, b: Member, c: Member, d: Member)
    ensures PrintMembers([a, b, c, d]) == PrintMember(a) + "," + PrintMember(b) + "," + PrintMember(c) + "," + PrintMember(d)
  {
    hide PrintMember;
    OneMoreMember([], a);
    OneMoreMember([a], b);
    OneMoreMember([a, b], c);
    OneMoreMember([a, b, c], d);
    hide PrintMembers;
    assert [] + [a] == [a] && [a] + [b] == [a, b] && [a, b] + [c] == [a, b, c] && [a, b, c] + [d] == [a, b, c, d];
  }

  // ---- whole documents ----

  /** `toJson`: the text is that of the tree's value. It is JSON, and stands for that value,
      exactly when every number in the tree is finite, every string is UTF-8, and every node
      without a writer hands on to one child that writes. */
  method ToJson(d: Doc) returns (s: string)
    requires Named(d)
    ensures s == Print(Meaning(d))
    ensures Written(Meaning(d)) ==>
              var r := ReadValue(s);
              && (r.Done? && r.rest == "" <==> Proper(Meaning(d)))
              && (Proper(Meaning(d)) ==> r.value == Value(Meaning(d)))
  {
    hide Print, Meaning, ReadValue, Proper, Value, Written, Named;
    var encoder := new Encoder();
    encoder.WriteValue(d);
    s := encoder.Str();
    assert "" + Print(Meaning(d)) == Print(Meaning(d));
    if Written(Meaning(d)) { PrintReadsBack(Meaning(d)); }
  }

  datatype CommentKind = LineKind | BlockKind | BrokenKind | OtherKind

  datatype Comment = Comment(kind: CommentKind, location: Location)

  function KindName(kind: CommentKind): string {
    match kind
    case LineKind => "Comment"
    case BlockKind => "BlockComment"
    case BrokenKind => "BrokenComment"
    case OtherKind => ""
  }

  /** A comment; one of another kind has no type. */
  function CommentDoc(c: Comment): Doc {
    Object((if c.kind.OtherKind? then [] else [Prop("type", Text(KindName(c.kind)))]) + [Prop("location", Place(c.location))])
  }

  /** What a comment is written as. */
  lemma CommentSays(c: Comment)
    ensures var place := Member("location", JString(PlaceText(c.location)));
            && (c.kind == LineKind ==> Meaning(CommentDoc(c)) == JObject([Member("type", JString("Comment")), place]))
            && (c.kind == BlockKind ==> Meaning(CommentDoc(c)) == JObject([Member("type", JString("BlockComment")), place]))
            && (c.kind == BrokenKind ==> Meaning(CommentDoc(c)) == JObject([Member("type", JString("BrokenComment")), place]))
            && (c.kind == OtherKind ==> Meaning(CommentDoc(c)) == JObject([place]))
  {
    hide PlaceText, Members;
    var props := CommentDoc(c).props;
    assert |Members(props)| == |props|;
    if c.kind == OtherKind {
      assert props[0] == Prop("location", Place(c.location)) && Members(props) == [Members(props)[0]];
    } else {
      assert props[0].name == "type" && props[1] == Prop("location", Place(c.location));
      assert Members(props) == [Members(props)[0], Members(props)[1]];
    }
  }

  function CommentDocs(cs: seq<Comment>): (ds: seq<Doc>)
    ensures |ds| == |cs| && forall i :: 0 <= i < |cs| ==> ds[i] == CommentDoc(cs[i])
  {
    seq(|cs|, i requires 0 <= i < |cs| => CommentDoc(cs[i]))
  }

  lemma CommentsAreNamed(cs: seq<Comment>)
    ensures AllNamed(CommentDocs(cs))
  {
    forall i | 0 <= i < |cs| ensures Named(CommentDocs(cs)[i]) {
      var d := CommentDoc(cs[i]);
      forall k | 0 <= k < |d.props| ensures PropNamed(d.props[k]) { CommentNames(); }
    }
  }

  lemma CommentNames()
    ensures Plain("type") && Plain("location")
  {
    LettersArePlain("type");
    LettersArePlain("location");
    hide Plain, EscapeChar;
  }

  /** `toJson` with comments. */
  method ToJsonWithComments(d: Doc, comments: seq<Comment>) returns (s: string)
    requires Named(d)
    ensures s == Print(WithComments(Meaning(d), Meanings(CommentDocs(comments))))
    ensures Written(Meaning(d)) ==>
              var r := ReadValue(s);
              && (r.Done? && r.rest == "" <==> Proper(Meaning(d)))
              && (Proper(Meaning(d)) ==> r.value == Value(WithComments(Meaning(d), Meanings(CommentDocs(comments)))))
  {
    hide Print, PrintItems, Meaning, Meanings, ReadValue, Proper, Value, Written, Named, AllNamed, ChunksFit, Join;
    var encoder := new Encoder();
    CommentsAreNamed(comments);
    encoder.AppendChunk("{\"root\":");
    encoder.WriteValue(d);
    encoder.AppendChunk(",\"commentLocations\":[");
    encoder.WriteItems(CommentDocs(comments));
    encoder.AppendChunk("]}");
    s := encoder.Str();
    WithCommentsWritten(Meaning(d), Meanings(CommentDocs(comments)));
    if Written(Meaning(d)) {
      CommentsAreProper(Meaning(d), comments);
      PrintReadsBack(WithComments(Meaning(d), Meanings(CommentDocs(comments))));
    }
  }

  function WithComments(root: Json, comments: seq<Json>): Json {
    JObject([Member("root", root), Member("commentLocations", JArray(comments))])
  }

  lemma WithCommentsWritten(root: Json, comments: seq<Json>)
    ensures Print(WithComments(root, comments))
         == "" + "{\"root\":" + Print(root) + ",\"commentLocations\":[" + PrintItems(comments) + "]}"
  {
    var a, b := Member("root", root), Member("commentLocations", JArray(comments));
    OneMoreMember([], a);
    OneMoreMember([a], b);
    assert [] + [a] == [a] && [a] + [b] == [a, b];
    CommentMemberNames();
    PlainMember("root", root);
    PlainMember("commentLocations", JArray(comments));
    assert Print(JArray(comments)) == "[" + PrintItems(comments) + "]";
    assert Print(WithComments(root, comments)) == "{" + PrintMembers([a, b]) + "}";
    hide Print, PrintItems, PrintMembers, PrintMember, Plain;
    TwoText(Print(root), PrintItems(comments));
  }

  lemma CommentMemberNames()
    ensures Plain("root") && "\"" + "root" + "\":" == "\"root\":"
    ensures Plain("commentLocations") && "\"" + "commentLocations" + "\":" == "\"commentLocations\":"
  {
    LettersArePlain("root");
    LettersArePlain("commentLocations");
    hide Plain, EscapeChar;
  }

  lemma LettersArePlain(s: string)
    requires forall i :: 0 <= i < |s| ==> 'A' <= s[i] <= 'Z' || 'a' <= s[i] <= 'z'
    ensures Plain(s)
  {
    forall i | 0 <= i < |s| ensures EscapeChar(s[i]) == [s[i]] {
      assert s[i] != '\\';
    }
  }

  lemma TwoText(root: string, items: string)
    ensures "{" + ("\"root\":" + root + "," + ("\"commentLocations\":" + ("[" + items + "]"))) + "}"
         == "" + "{\"root\":" + root + ",\"commentLocations\":[" + items + "]}"
  {
  }

  lemma CommentsAreProper(root: Json, comments: seq<Comment>)
    ensures var j := WithComments(root, Meanings(CommentDocs(comments)));
            (Written(j) <==> Written(root)) && (Proper(j) <==> Proper(root))
  {
    var js := Meanings(CommentDocs(comments));
    EveryCommentIsProper(CommentDocs(comments), comments);
    TwoMembers(root, js);
    hide MembersWritten, MembersProper;
  }

  lemma TwoMembers(root: Json, js: seq<Json>)
    requires AllWritten(js) && AllProper(js)
    ensures var ms := [Member("root", root), Member("commentLocations", JArray(js))];
            (MembersWritten(ms) <==> Written(root)) && (MembersProper(ms) <==> Proper(root))
  {
    var a, b := Member("root", root), Member("commentLocations", JArray(js));
    CommentMemberNames();
    PlainIsUtf8(a.name);
    PlainIsUtf8(b.name);
    ArrayIsProper(js);
    hide Written, Proper, Utf8, Plain, MembersWritten, MembersProper;
    PairOfMembers(a, b);
  }

  lemma ArrayIsProper(js: seq<Json>)
    requires AllWritten(js) && AllProper(js)
    ensures Written(JArray(js)) && Proper(JArray(js))
  {
  }

  lemma PairOfMembers(a: Member, b: Member)
    ensures MembersWritten([a, b]) <==> MemberWritten(a) && MemberWritten(b)
    ensures MembersProper([a, b]) <==> MemberProper(a) && MemberProper(b)
  {
    hide MemberWritten, MemberProper;
    assert [a, b][1..] == [b] && [b][1..] == [];
    assert MembersWritten([b]) <==> MemberWritten(b) && MembersWritten([]);
    assert MembersProper([b]) <==> MemberProper(b) && MembersProper([]);
  }

  lemma {:induction false} EveryCommentIsProper(ds: seq<Doc>, comments: seq<Comment>)
    requires ds == CommentDocs(comments)
    ensures AllWritten(Meanings(ds)) && AllProper(Meanings(ds))
  {
    if ds != [] {
      var init := comments[..|comments| - 1];
      assert ds[..|ds| - 1] == CommentDocs(init);
      EveryCommentIsProper(ds[..|ds| - 1], init);
      CommentIsProper(comments[|comments| - 1]);
      ProperAppend(Meanings(ds[..|ds| - 1]), Meaning(ds[|ds| - 1]));
    }
  }

  lemma CommentIsProper(c: Comment)
    ensures Written(Meaning(CommentDoc(c))) && Proper(Meaning(CommentDoc(c)))
  {
    var ps := CommentDoc(c).props;
    CommentProps(c);
    assert CommentDoc(c) == Object(ps);
    hide CommentDoc, Meaning, Written, Proper, PlainProp;
    ObjectIsProper(ps);
  }

  lemma ObjectIsProper(ps: seq<Prop>)
    requires forall i :: 0 <= i < |ps| ==> PlainProp(ps[i])
    ensures Written(Meaning(Object(ps))) && Proper(Meaning(Object(ps)))
  {
    PropsAreProper(ps);
    hide Members, PlainProp, MembersWritten, MembersProper;
  }

  /** A property of ASCII text that needs no escapes. */
  predicate PlainProp(p: Prop) {
    Plain(p.name) && ((p.value.Text? && Plain(p.value.bytes)) || p.value.Place?)
  }

  lemma CommentProps(c: Comment)
    ensures forall i :: 0 <= i < |CommentDoc(c).props| ==> PlainProp(CommentDoc(c).props[i])
  {
    CommentNames();
    LettersArePlain(KindName(c.kind));
    hide Plain;
  }

  lemma {:induction false} PropsAreProper(ps: seq<Prop>)
    requires forall i :: 0 <= i < |ps| ==> PlainProp(ps[i])
    ensures MembersWritten(Members(ps)) && MembersProper(Members(ps))
  {
    if ps != [] {
      var last := ps[|ps| - 1];
      PropsAreProper(ps[..|ps| - 1]);
      assert PlainProp(last);
      PropIsProper(last);
      MembersAppend(Members(ps[..|ps| - 1]), PropMeaning(last));
    }
  }

  lemma PropIsProper(p: Prop)
    requires PlainProp(p)
    ensures MemberWritten(PropMeaning(p)) && MemberProper(PropMeaning(p))
  {
    hide Plain, Utf8, PlaceText;
    PlainIsUtf8(p.name);
    if p.value.Text? {
      PlainIsUtf8(p.value.bytes);
    } else {
      PlaceIsPlain(p.value.location);
      PlainIsUtf8(PlaceText(p.value.location));
    }
  }

  lemma {:induction false} MembersAppend(ms: seq<Member>, m: Member)
    requires MembersWritten(ms) && MembersProper(ms) && MemberWritten(m) && MemberProper(m)
    ensures MembersWritten(ms + [m]) && MembersProper(ms + [m])
  {
    hide MemberWritten, MemberProper;
    if ms == [] {
      assert ms + [m] == [m] && [m][1..] == [];
    } else {
      MembersAppend(ms[1..], m);
      assert (ms + [m])[1..] == ms[1..] + [m];
    }
  }

  lemma {:induction false} ProperAppend(js: seq<Json>, j: Json)
    requires AllWritten(js) && AllProper(js) && Written(j) && Proper(j)
    ensures AllWritten(js + [j]) && AllProper(js + [j])
  {
    hide Written, Proper;
    if js == [] {
      assert js + [j] == [j] && [j][1..] == [];
    } else {
      ProperAppend(js[1..], j);
      assert (js + [j])[1..] == js[1..] + [j];
    }
  }
}
