/** The wire format of the protected VM bridge (native-build/bridge.cpp): little-endian
    values, exchanged between Lua and the managed host. */
module BridgeWire {

  import opened Basics

  const MAX_WIRE: nat := 8 * 1024 * 1024
  const MAX_NODES: nat := 200000
  const MAX_DEPTH: nat := 32
  const MAX_COUNT: nat := 64

  newtype byte = x: int | 0 <= x < 256

  /** The eight bytes of an IEEE double, least significant first. */
  type Double = b: seq<byte> | |b| == 8 witness [0, 0, 0, 0, 0, 0, 0, 0]

  type Identity = nat  // what lua_topointer tells apart

  /** A Lua value as the bridge sees it; a table is its entries in iteration order. */
  datatype Value =
    | Nil
    | Boolean(b: bool)
    | Number(bits: Double)
    | String(bytes: seq<byte>)
    | Table(entries: seq<Entry>)
    | Function(identity: Identity)
    | Handle(kind: nat, scope: nat, index: nat)
    | Unsupported

  datatype Entry = Entry(key: Value, value: Value)

  /** All exponent bits set means an infinity or a NaN. */
  predicate Finite(d: Double) {
    !(d[7] % 128 == 127 && d[6] / 16 == 15)
  }

  predicate IsZero(d: Double) {
    d[..7] == [0, 0, 0, 0, 0, 0, 0] && d[7] % 128 == 0
  }

  function LittleEndian(n: nat, width: nat): (b: seq<byte>)
    ensures |b| == width
  {
    if width == 0 then [] else [(n % 256) as byte] + LittleEndian(n / 256, width - 1)
  }

  function FromLittleEndian(b: seq<byte>): nat {
    if b == [] then 0 else b[0] as nat + 256 * FromLittleEndian(b[1..])
  }

  function U32(n: nat): (b: seq<byte>)
    ensures |b| == 4
  {
    LittleEndian(n, 4)
  }

  function Read32(b: seq<byte>): (n: nat)
    requires |b| == 4
    ensures n == b[0] as nat + 0x100 * b[1] as nat + 0x1_0000 * b[2] as nat + 0x100_0000 * b[3] as nat
  {
    var c, d := b[1..], b[2..];
    assert c[1..] == d && d[1..] == b[3..] && b[3..][1..] == [];
    assert FromLittleEndian(b[3..]) == b[3] as nat && FromLittleEndian(d) == b[2] as nat + 256 * b[3] as nat;
    assert FromLittleEndian(c) == b[1] as nat + 256 * FromLittleEndian(d);
    FromLittleEndian(b)
  }

  function Power256(width: nat): nat {
    if width == 0 then 1 else 256 * Power256(width - 1)
  }

  lemma {:induction false} ReadBack(n: nat, width: nat)
    requires n < Power256(width)
    ensures FromLittleEndian(LittleEndian(n, width)) == n
  {
    if width > 0 { ReadBack(n / 256, width - 1); }
  }

  lemma ReadU32(n: nat)
    requires n < 0x1_0000_0000
    ensures Read32(U32(n)) == n
  {
    assert Power256(2) == 0x1_0000 && Power256(4) == 256 * (256 * Power256(2));
    ReadBack(n, 4);
  }

  lemma {:induction false} WriteBack(b: seq<byte>)
    ensures FromLittleEndian(b) < Power256(|b|) && LittleEndian(FromLittleEndian(b), |b|) == b
  {
    if b != [] {
      WriteBack(b[1..]);
      LowestByte(b[0] as nat, FromLittleEndian(b[1..]));
    }
  }

  lemma LowestByte(low: nat, high: nat)
    requires low < 256
    ensures (low + 256 * high) % 256 == low && (low + 256 * high) / 256 == high
  {
  }

  lemma WriteU32(b: seq<byte>)
    requires |b| == 4
    ensures Read32(b) < 0x1_0000_0000 && U32(Read32(b)) == b
  {
    WriteBack(b);
  }

  lemma {:induction false} LowAndHigh(b: seq<byte>, k: nat)
    requires k <= |b|
    ensures FromLittleEndian(b) == FromLittleEndian(b[..k]) + Power256(k) * FromLittleEndian(b[k..])
  {
    if k > 0 {
      LowAndHigh(b[1..], k - 1);
      assert b[..k][1..] == b[1..][..k - 1] && b[k..] == b[1..][k - 1..];
      Shifted(FromLittleEndian(b[..k][1..]), Power256(k - 1), FromLittleEndian(b[k..]));
    } else {
      assert b[0..] == b;
    }
  }

  lemma Shifted(low: nat, power: nat, high: nat)
    ensures 256 * (low + power * high) == 256 * low + (256 * power) * high
  {
  }

  /** The exponent of a double: the eleven bits below its sign. */
  ghost function Exponent(d: Double): nat {
    FromLittleEndian(d) / 0x10_0000_0000_0000 % 2048
  }

  /** Positive or negative zero: no bit is set, or the sign alone. */
  ghost predicate ZeroNumber(d: Double) {
    FromLittleEndian(d) % 0x8000_0000_0000_0000 == 0
  }

  lemma DoubleBits(d: Double)
    ensures var low := FromLittleEndian(d[..6]);
            low < 0x1_0000_0000_0000 && (low == 0 <==> d[..6] == [0, 0, 0, 0, 0, 0])
            && FromLittleEndian(d) == low + 0x1_0000_0000_0000 * (d[6] as nat + 256 * d[7] as nat)
  {
    LowAndHigh(d, 6);
    WriteBack(d[..6]);
    assert Power256(3) == 0x100_0000 && Power256(6) == 256 * (256 * (256 * Power256(3)));
    var high := d[6..];
    assert high[1..][1..] == [] && FromLittleEndian(high[1..]) == d[7] as nat;
    NoBytes(d[..6]);
  }

  lemma {:induction false} NoBytes(b: seq<byte>)
    ensures FromLittleEndian(b) == 0 <==> forall i :: 0 <= i < |b| ==> b[i] == 0
  {
    if b != [] { NoBytes(b[1..]); }
  }

  /** The test of the top bytes finds just the numbers whose exponent is not all ones. */
  lemma FiniteByExponent(d: Double)
    ensures Finite(d) <==> Exponent(d) != 2047
  {
    DoubleBits(d);
    ExponentBits(FromLittleEndian(d[..6]), d[6] as nat, d[7] as nat);
  }

  lemma ExponentBits(low: nat, six: nat, seven: nat)
    requires low < 0x1_0000_0000_0000 && six < 256 && seven < 256
    ensures (low + 0x1_0000_0000_0000 * (six + 256 * seven)) / 0x10_0000_0000_0000 % 2048 == six / 16 + 16 * (seven % 128)
  {
    var rest := low + 0x1_0000_0000_0000 * (six % 16);
    assert low + 0x1_0000_0000_0000 * (six + 256 * seven) == rest + 0x10_0000_0000_0000 * (six / 16 + 16 * seven);
    assert six / 16 + 16 * seven == 2048 * (seven / 128) + (six / 16 + 16 * (seven % 128));
  }

  lemma ZeroByBits(d: Double)
    ensures IsZero(d) <==> ZeroNumber(d)
  {
    DoubleBits(d);
    ZeroBits(FromLittleEndian(d[..6]), d[6] as nat, d[7] as nat);
    assert d[..7] == d[..6] + [d[6]];
  }

  lemma ZeroBits(low: nat, six: nat, seven: nat)
    requires low < 0x1_0000_0000_0000 && six < 256 && seven < 256
    ensures (low + 0x1_0000_0000_0000 * (six + 256 * seven)) % 0x8000_0000_0000_0000 == 0 <==> low == 0 && six == 0 && seven % 128 == 0
  {
    var rest := low + 0x1_0000_0000_0000 * (six + 256 * (seven % 128));
    assert low + 0x1_0000_0000_0000 * (six + 256 * seven) == rest + 0x8000_0000_0000_0000 * (seven / 128);
  }

  // ---- encoding ----

  /** The bytes of a value, given the reference numbers of the functions in it. */
  ghost function Bytes(v: Value, ids: map<Identity, nat>): (b: seq<byte>)
    ensures |b| == Size(v)
    decreases v
  {
    match v
    case Nil => [0]
    case Boolean(b) => [if b then 2 else 1]
    case Number(bits) => [3] + bits
    case String(bytes) => [4] + U32(|bytes|) + bytes
    case Table(entries) => [5] + U32(|entries|) + EntryBytes(entries, ids)
    case Function(f) => [6] + U32(if f in ids then ids[f] else 0)
    case Handle(kind, scope, index) => [7] + U32(kind) + U32(scope) + U32(index)
    case Unsupported => []
  }

  ghost function EntryBytes(entries: seq<Entry>, ids: map<Identity, nat>): (b: seq<byte>)
    ensures |b| == EntrySize(entries)
    decreases entries
  {
    if entries == [] then []
    else
      assert entries[0].key < entries[0];
      Bytes(entries[0].key, ids) + Bytes(entries[0].value, ids) + EntryBytes(entries[1..], ids)
  }

  ghost function Size(v: Value): nat
    decreases v
  {
    match v
    case Nil => 1
    case Boolean(_) => 1
    case Number(_) => 9
    case String(bytes) => 5 + |bytes|
    case Table(entries) => 5 + EntrySize(entries)
    case Function(_) => 5
    case Handle(_, _, _) => 13
    case Unsupported => 0
  }

  ghost function EntrySize(entries: seq<Entry>): nat
    decreases entries
  {
    if entries == [] then 0
    else
      assert entries[0].key < entries[0];
      Size(entries[0].key) + Size(entries[0].value) + EntrySize(entries[1..])
  }

  /** The nodes that a value costs against the node limit. */
  ghost function Count(v: Value): nat
    decreases v
  {
    if v.Table? then 1 + EntryCount(v.entries) else 1
  }

  ghost function EntryCount(entries: seq<Entry>): nat
    decreases entries
  {
    if entries == [] then 0
    else
      assert entries[0].key < entries[0];
      Count(entries[0].key) + Count(entries[0].value) + EntryCount(entries[1..])
  }

  /** The value has only what the encoder takes, and nests no deeper than it allows. */
  ghost predicate Encodable(v: Value, depth: nat)
    decreases v
  {
    && depth <= 32
    && match v
       case Number(bits) => Exponent(bits) != 2047
       case Table(entries) => EntriesEncodable(entries, depth + 1)
       case Unsupported => false
       case _ => true
  }

  ghost predicate EntriesEncodable(entries: seq<Entry>, depth: nat)
    decreases entries
  {
    entries != [] ==>
      assert entries[0].key < entries[0];
      && (entries[0].key.String? || entries[0].key.Number?)
      && Encodable(entries[0].key, depth) && Encodable(entries[0].value, depth)
      && EntriesEncodable(entries[1..], depth)
  }

  /** The functions in a value have reference numbers. */
  ghost predicate Known(v: Value, ids: map<Identity, nat>)
    decreases v
  {
    match v
    case Table(entries) => EntriesKnown(entries, ids)
    case Function(f) => f in ids
    case _ => true
  }

  ghost predicate EntriesKnown(entries: seq<Entry>, ids: map<Identity, nat>)
    decreases entries
  {
    entries != [] ==>
      assert entries[0].key < entries[0];
      Known(entries[0].key, ids) && Known(entries[0].value, ids) && EntriesKnown(entries[1..], ids)
  }

  /** The functions in a value. */
  ghost function FunctionsIn(v: Value): set<Identity>
    decreases v
  {
    match v
    case Table(entries) => EntryFunctions(entries)
    case Function(f) => {f}
    case _ => {}
  }

  ghost function EntryFunctions(entries: seq<Entry>): set<Identity>
    decreases entries
  {
    if entries == [] then {}
    else
      assert entries[0].key < entries[0];
      FunctionsIn(entries[0].key) + FunctionsIn(entries[0].value) + EntryFunctions(entries[1..])
  }

  /** More references do not change the bytes of what was encodable already. */
  lemma {:induction false} BytesStable(v: Value, ids: map<Identity, nat>, ids': map<Identity, nat>)
    requires Known(v, ids) && forall f :: f in ids ==> f in ids' && ids'[f] == ids[f]
    ensures Known(v, ids') && Bytes(v, ids') == Bytes(v, ids)
    decreases v
  {
    if v.Table? { EntryBytesStable(v.entries, ids, ids'); }
  }

  lemma {:induction false} EntryBytesStable(entries: seq<Entry>, ids: map<Identity, nat>, ids': map<Identity, nat>)
    requires EntriesKnown(entries, ids) && forall f :: f in ids ==> f in ids' && ids'[f] == ids[f]
    ensures EntriesKnown(entries, ids') && EntryBytes(entries, ids') == EntryBytes(entries, ids)
    decreases entries
  {
    if entries != [] {
      assert entries[0].key < entries[0];
      BytesStable(entries[0].key, ids, ids');
      BytesStable(entries[0].value, ids, ids');
      EntryBytesStable(entries[1..], ids, ids');
    }
  }

  /** The entries up to the `i`-th and from there on, put together. */
  lemma {:induction false} EntriesSplit(entries: seq<Entry>, i: nat, ids: map<Identity, nat>, depth: nat)
    requires i <= |entries|
    ensures EntryBytes(entries, ids) == EntryBytes(entries[..i], ids) + EntryBytes(entries[i..], ids)
    ensures EntrySize(entries) == EntrySize(entries[..i]) + EntrySize(entries[i..])
    ensures EntryCount(entries) == EntryCount(entries[..i]) + EntryCount(entries[i..])
    ensures EntriesEncodable(entries, depth) <==> EntriesEncodable(entries[..i], depth) && EntriesEncodable(entries[i..], depth)
    ensures EntriesKnown(entries, ids) <==> EntriesKnown(entries[..i], ids) && EntriesKnown(entries[i..], ids)
    ensures EntryFunctions(entries) == EntryFunctions(entries[..i]) + EntryFunctions(entries[i..])
  {
    if i == 0 {
      assert entries[..i] == [] && entries[i..] == entries;
    } else {
      assert entries[1..][..i - 1] == entries[..i][1..] && entries[1..][i - 1..] == entries[i..];
      EntriesSplit(entries[1..], i - 1, ids, depth);
      EntriesSplitStep(entries, i, ids);
    }
  }

  lemma EntriesSplitStep(entries: seq<Entry>, i: nat, ids: map<Identity, nat>)
    requires 0 < i <= |entries|
    requires EntryBytes(entries[1..], ids) == EntryBytes(entries[..i][1..], ids) + EntryBytes(entries[i..], ids)
    ensures EntryBytes(entries, ids) == EntryBytes(entries[..i], ids) + EntryBytes(entries[i..], ids)
  {
    Regroup(Bytes(entries[0].key, ids) + Bytes(entries[0].value, ids), EntryBytes(entries[..i][1..], ids), EntryBytes(entries[i..], ids));
  }

  // ---- decoding ----

  datatype Parsed<T> = Bad | Good(value: T, rest: seq<byte>, nodes: nat)

  /** Raw equality of table keys. A decoded table is a new object, equal to no other. */
  predicate SameKey(a: Value, b: Value) {
    if a.Number? && b.Number? then a == b || (IsZero(a.bits) && IsZero(b.bits)) else a == b && !a.Table?
  }

  /** `lua_rawset` on a table given by its entries. */
  function RawSet(entries: seq<Entry>, k: Value, v: Value): seq<Entry> {
    if entries == [] then (if v.Nil? then [] else [Entry(k, v)])
    else if SameKey(entries[0].key, k) then (if v.Nil? then [] else [Entry(entries[0].key, v)]) + entries[1..]
    else [entries[0]] + RawSet(entries[1..], k, v)
  }

  function Height(depth: nat): nat {
    if depth <= MAX_DEPTH then MAX_DEPTH + 1 - depth else 0
  }

  /** What `decode` makes of the bytes from the cursor on, but for the handle cache: the
      value and the bytes left. It accepts any bytes, and only ever looks at these. */
  function Parse(s: seq<byte>, depth: nat, nodes: nat): (r: Parsed<Value>)
    ensures r.Good? ==> |r.rest| < |s| && nodes < r.nodes <= MAX_NODES
    decreases Height(depth), 0
  {
    if depth > MAX_DEPTH || nodes + 1 > MAX_NODES || s == [] then Bad
    else if s[0] == 0 then Good(Nil, s[1..], nodes + 1)
    else if s[0] == 1 || s[0] == 2 then Good(Boolean(s[0] == 2), s[1..], nodes + 1)
    else if s[0] == 3 then ParseNumber(s[1..], nodes + 1)
    else if s[0] == 4 then ParseString(s[1..], nodes + 1)
    else if s[0] == 5 then
      var t := s[1..];
      if |t| < 4 || Read32(t[..4]) > MAX_NODES then Bad
      else
        var r := ParseEntries(t[4..], depth + 1, nodes + 1, Read32(t[..4]));
        if r.Bad? then Bad else Good(Table(SetAll([], r.value)), r.rest, r.nodes)
    else if s[0] == 7 then ParseHandle(s[1..], nodes + 1)
    else Bad
  }

  function ParseNumber(s: seq<byte>, nodes: nat): Parsed<Value> {
    if |s| < 8 || !Finite(s[..8]) then Bad else Good(Number(s[..8]), s[8..], nodes)
  }

  function ParseString(s: seq<byte>, nodes: nat): Parsed<Value> {
    if |s| < 4 || Read32(s[..4]) > |s| - 4 then Bad
    else
      var n := Read32(s[..4]);
      Good(String(s[4..4 + n]), s[4 + n..], nodes)
  }

  function ParseHandle(s: seq<byte>, nodes: nat): Parsed<Value> {
    if |s| < 12 then Bad
    else
      var h := Handle(Read32(s[..4]), Read32(s[4..8]), Read32(s[8..12]));
      if ValidHandle(h) then Good(h, s[12..], nodes) else Bad
  }

  predicate ValidHandle(v: Value) {
    v.Handle? && (v.kind == 1 || v.kind == 2) && v.scope != 0
  }

  /** A key and a value; a nil key cannot be set. */
  function ParsePair(s: seq<byte>, depth: nat, nodes: nat): (r: Parsed<Entry>)
    ensures r.Good? ==> |r.rest| < |s| && nodes < r.nodes <= MAX_NODES
    decreases Height(depth), 1
  {
    var k := Parse(s, depth, nodes);
    if k.Bad? then Bad
    else
      var v := Parse(k.rest, depth, k.nodes);
      if v.Bad? || k.value.Nil? then Bad else Good(Entry(k.value, v.value), v.rest, v.nodes)
  }

  /** `n` key-value pairs, as they come. */
  function ParseEntries(s: seq<byte>, depth: nat, nodes: nat, n: nat): (r: Parsed<seq<Entry>>)
    requires nodes <= MAX_NODES
    ensures r.Good? ==> |r.rest| <= |s| && nodes <= r.nodes <= MAX_NODES
    decreases Height(depth), n + 2
  {
    if n == 0 then Good([], s, nodes)
    else
      var e := ParsePair(s, depth, nodes);
      if e.Bad? then Bad
      else
        var r := ParseEntries(e.rest, depth, e.nodes, n - 1);
        if r.Bad? then Bad else Good([e.value] + r.value, r.rest, r.nodes)
  }

  /** The table that results from setting these pairs one after the other. */
  function SetAll(before: seq<Entry>, pairs: seq<Entry>): seq<Entry>
    decreases pairs
  {
    if pairs == [] then before else SetAll(RawSet(before, pairs[0].key, pairs[0].value), pairs[1..])
  }

  /** Pairs already read, in front of what reading on yields. */
  function Prepend(done: seq<Entry>, r: Parsed<seq<Entry>>): Parsed<seq<Entry>> {
    if r.Bad? then Bad else Good(done + r.value, r.rest, r.nodes)
  }

  lemma {:induction false} SetAllAppend(before: seq<Entry>, pairs: seq<Entry>, e: Entry)
    ensures SetAll(before, pairs + [e]) == RawSet(SetAll(before, pairs), e.key, e.value)
    decreases pairs
  {
    if pairs == [] {
      assert pairs + [e] == [e];
      assert SetAll(RawSet(before, e.key, e.value), [e][1..]) == RawSet(before, e.key, e.value);
    } else {
      assert (pairs + [e])[1..] == pairs[1..] + [e];
      SetAllAppend(RawSet(before, pairs[0].key, pairs[0].value), pairs[1..], e);
    }
  }

  /** Reading one more pair of the `n + 1` that are left. */
  lemma ReadOneMore(done: seq<Entry>, s: seq<byte>, depth: nat, nodes: nat, n: nat, e: Entry, s': seq<byte>, nodes': nat)
    requires nodes <= MAX_NODES && nodes' <= MAX_NODES && ParsePair(s, depth, nodes) == Good(e, s', nodes')
    ensures Prepend(done, ParseEntries(s, depth, nodes, n + 1)) == Prepend(done + [e], ParseEntries(s', depth, nodes', n))
  {
    var r := ParseEntries(s', depth, nodes', n);
    if r.Good? { assert done + ([e] + r.value) == done + [e] + r.value; }
  }

  lemma ReadNoMore(done: seq<Entry>, s: seq<byte>, depth: nat, nodes: nat, n: nat)
    requires nodes <= MAX_NODES && ParsePair(s, depth, nodes).Bad?
    ensures Prepend(done, ParseEntries(s, depth, nodes, n + 1)).Bad?
  {
  }

  lemma NothingRead(s: seq<byte>, depth: nat, nodes: nat)
    requires nodes <= MAX_NODES
    ensures ParseEntries(s, depth, nodes, 0) == Good([], s, nodes)
  {
  }

  lemma NothingSet()
    ensures SetAll([], []) == []
  {
  }

  // ---- data ----

  /** A value of a Lua table graph without functions: keys are told apart by the table,
      entries hold something, and handles are those that the bridge itself made. */
  ghost predicate Data(v: Value)
    decreases v
  {
    match v
    case Table(entries) => Distinct(entries) && DataEntries(entries)
    case Handle(kind, scope, index) => 1 <= kind <= 2 && 0 < scope < 0x1_0000_0000 && index < 0x1_0000_0000
    case Function(_) => false
    case _ => true
  }

  ghost predicate DataEntries(entries: seq<Entry>)
    decreases entries
  {
    entries != [] ==>
      assert entries[0].key < entries[0];
      Data(entries[0].key) && Data(entries[0].value) && DataEntries(entries[1..])
  }

  /** What `lua_next` goes through: distinct keys, none of them nil, each with a value. */
  ghost predicate Distinct(entries: seq<Entry>) {
    entries != [] ==>
      && !entries[0].key.Nil? && !entries[0].value.Nil?
      && (forall e :: e in entries[1..] ==> !EqualKeys(entries[0].key, e.key))
      && Distinct(entries[1..])
  }

  /** All that reading a value back takes, together. */
  ghost predicate Portable(v: Value, depth: nat)
    decreases v
  {
    && depth <= 32
    && match v
       case Number(bits) => Exponent(bits) != 2047
       case String(bytes) => |bytes| < 0x1_0000_0000
       case Table(entries) => Distinct(entries) && EntriesPortable(entries, depth + 1)
       case Handle(kind, scope, index) => 1 <= kind <= 2 && 0 < scope < 0x1_0000_0000 && index < 0x1_0000_0000
       case Function(_) => false
       case Unsupported => false
       case _ => true
  }

  ghost predicate EntriesPortable(entries: seq<Entry>, depth: nat)
    decreases entries
  {
    entries != [] ==>
      assert entries[0].key < entries[0];
      && !entries[0].key.Nil? && Portable(entries[0].key, depth) && Portable(entries[0].value, depth)
      && EntriesPortable(entries[1..], depth)
  }

  lemma {:induction false} EncodableIsPortable(v: Value, depth: nat)
    requires Data(v) && Encodable(v, depth) && Size(v) <= MAX_WIRE
    ensures Portable(v, depth)
    decreases v
  {
    if v.Table? { EntriesArePortable(v.entries, depth + 1); }
  }

  lemma {:induction false} EntriesArePortable(entries: seq<Entry>, depth: nat)
    requires DataEntries(entries) && EntriesEncodable(entries, depth) && EntrySize(entries) <= MAX_WIRE
    ensures EntriesPortable(entries, depth)
    decreases entries
  {
    if entries != [] {
      assert entries[0].key < entries[0];
      EncodableIsPortable(entries[0].key, depth);
      EncodableIsPortable(entries[0].value, depth);
      EntriesArePortable(entries[1..], depth);
    }
  }

  /** Equal as keys of a Lua table, said by the bits: numbers by value, where zero has two
      signs, and everything else as it is. No table read from bytes is equal to another. */
  ghost predicate EqualKeys(a: Value, b: Value) {
    if a.Number? && b.Number? then a.bits == b.bits || (ZeroNumber(a.bits) && ZeroNumber(b.bits)) else a == b && !a.Table?
  }

  lemma KeysByBits(a: Value, b: Value)
    ensures SameKey(a, b) <==> EqualKeys(a, b)
  {
    if a.Number? && b.Number? {
      ZeroByBits(a.bits);
      ZeroByBits(b.bits);
    }
  }

  lemma AllKeysByBits()
    ensures forall a, b :: SameKey(a, b) <==> EqualKeys(a, b)
  {
    forall a, b ensures SameKey(a, b) <==> EqualKeys(a, b) { KeysByBits(a, b); }
  }

  /** The first entry with this key. */
  ghost function Slot(entries: seq<Entry>, k: Value): Option<Value> {
    if entries == [] then None
    else if EqualKeys(entries[0].key, k) then Some(entries[0].value)
    else Slot(entries[1..], k)
  }

  /** No two entries have equal keys. */
  ghost predicate KeysDiffer(entries: seq<Entry>) {
    entries != [] ==> (forall e :: e in entries[1..] ==> !EqualKeys(entries[0].key, e.key)) && KeysDiffer(entries[1..])
  }

  lemma {:induction false} NoSlot(entries: seq<Entry>, k: Value)
    ensures Slot(entries, k) == None <==> forall e :: e in entries ==> !EqualKeys(e.key, k)
  {
    if entries != [] {
      NoSlot(entries[1..], k);
      assert forall e :: e in entries <==> e == entries[0] || e in entries[1..];
    }
  }

  /** No key comes in that was not there or is set. */
  lemma {:induction false} RawSetKeys(entries: seq<Entry>, k: Value, v: Value, e: Entry)
    requires e in RawSet(entries, k, v)
    ensures e.key == k || exists d :: d in entries && d.key == e.key
  {
    if entries != [] && !SameKey(entries[0].key, k) && e != entries[0] { RawSetKeys(entries[1..], k, v, e); }
  }

  lemma EqualAsKeys(a: Value, b: Value, c: Value)
    requires EqualKeys(a, b)
    ensures EqualKeys(b, a) && (EqualKeys(a, c) <==> EqualKeys(b, c)) && !a.Table?
  {
  }

  lemma {:induction false} RawSetKeysDiffer(entries: seq<Entry>, k: Value, v: Value)
    requires KeysDiffer(entries)
    ensures KeysDiffer(RawSet(entries, k, v))
  {
    hide EqualKeys, SameKey;
    AllKeysByBits();
    if entries != [] {
      var first, rest := entries[0], entries[1..];
      RawSetKeysDiffer(rest, k, v);
      if EqualKeys(first.key, k) {
        assert [] + rest == rest && ([Entry(first.key, v)] + rest)[1..] == rest;
      } else {
        forall e | e in RawSet(rest, k, v) ensures !EqualKeys(first.key, e.key) { RawSetKeys(rest, k, v, e); }
        assert ([first] + RawSet(rest, k, v))[1..] == RawSet(rest, k, v);
      }
    }
  }

  /** Setting a key changes what is under it, and under no other key. */
  lemma {:induction false} RawSetSlot(entries: seq<Entry>, k: Value, v: Value, other: Value)
    requires KeysDiffer(entries) && !other.Table?
    ensures Slot(RawSet(entries, k, v), other)
         == if EqualKeys(k, other) then (if v.Nil? then None else Some(v)) else Slot(entries, other)
  {
    hide EqualKeys, SameKey;
    AllKeysByBits();
    if entries != [] {
      var first, rest := entries[0], entries[1..];
      if EqualKeys(first.key, k) {
        EqualAsKeys(first.key, k, other);
        if EqualKeys(first.key, other) {
          forall e | e in rest ensures !EqualKeys(e.key, other) {
            if EqualKeys(e.key, other) { EqualAsKeys(first.key, other, e.key); EqualAsKeys(e.key, other, e.key); }
          }
        }
        NoSlot(rest, other);
        assert [] + rest == rest && ([Entry(first.key, v)] + rest)[1..] == rest;
      } else {
        RawSetSlot(rest, k, v, other);
        if EqualKeys(k, other) && EqualKeys(first.key, other) {
          EqualAsKeys(first.key, other, k);
          EqualAsKeys(k, other, k);
        }
        assert ([first] + RawSet(rest, k, v))[1..] == RawSet(rest, k, v);
      }
    }
  }

  /** A key that is no table has the value of its last pair, and none if that is nil or there
      is no such pair; and no key comes twice. */
  lemma {:induction false} LastPairWins(pairs: seq<Entry>, k: Value, i: int)
    requires !k.Table? && -1 <= i < |pairs| && (i >= 0 ==> EqualKeys(pairs[i].key, k))
    requires forall j :: i < j < |pairs| ==> !EqualKeys(pairs[j].key, k)
    ensures var t := SetAll([], pairs);
            && KeysDiffer(t)
            && Slot(t, k) == if i >= 0 && !pairs[i].value.Nil? then Some(pairs[i].value) else None
  {
    var n := |pairs|;
    if n > 0 {
      var before, last := pairs[..n - 1], pairs[n - 1];
      assert pairs == before + [last];
      SetAllAppend([], before, last);
      if i < n - 1 { LastPairWins(before, k, i); } else { AnyPairs(before); }
      RawSetKeysDiffer(SetAll([], before), last.key, last.value);
      RawSetSlot(SetAll([], before), last.key, last.value, k);
    }
  }

  lemma {:induction false} AnyPairs(pairs: seq<Entry>)
    ensures KeysDiffer(SetAll([], pairs))
  {
    var n := |pairs|;
    if n > 0 {
      AnyPairs(pairs[..n - 1]);
      assert pairs == pairs[..n - 1] + [pairs[n - 1]];
      SetAllAppend([], pairs[..n - 1], pairs[n - 1]);
      RawSetKeysDiffer(SetAll([], pairs[..n - 1]), pairs[n - 1].key, pairs[n - 1].value);
    }
  }

  /** The entries with tables as keys, in order. */
  ghost function UnderTables(entries: seq<Entry>): seq<Entry> {
    if entries == [] then []
    else (if entries[0].key.Table? && !entries[0].value.Nil? then [entries[0]] else []) + UnderTables(entries[1..])
  }

  /** Keys that are tables are all different, so each of them stays, unless its value is nil. */
  lemma {:induction false} TableKeysStay(before: seq<Entry>, pairs: seq<Entry>)
    ensures UnderTables(SetAll(before, pairs)) == UnderTables(before) + UnderTables(pairs)
    decreases pairs
  {
    if pairs != [] {
      TableKeysStay(RawSet(before, pairs[0].key, pairs[0].value), pairs[1..]);
      RawSetUnderTables(before, pairs[0].key, pairs[0].value);
    }
  }

  lemma {:induction false} RawSetUnderTables(entries: seq<Entry>, k: Value, v: Value)
    ensures UnderTables(RawSet(entries, k, v)) == UnderTables(entries) + UnderTables([Entry(k, v)])
  {
    if entries != [] {
      var rest := entries[1..];
      RawSetUnderTables(rest, k, v);
      if SameKey(entries[0].key, k) {
        assert [] + rest == rest && ([Entry(entries[0].key, v)] + rest)[1..] == rest;
      } else {
        assert ([entries[0]] + RawSet(rest, k, v))[1..] == RawSet(rest, k, v);
      }
    }
  }

  /** A new key is appended. */
  lemma {:induction false} RawSetNew(entries: seq<Entry>, k: Value, v: Value)
    requires !v.Nil? && forall e :: e in entries ==> !SameKey(e.key, k)
    ensures RawSet(entries, k, v) == entries + [Entry(k, v)]
  {
    if entries != [] { RawSetNew(entries[1..], k, v); }
  }

  /** Setting entries with distinct new keys appends them. */
  lemma {:induction false} SetAllNew(before: seq<Entry>, entries: seq<Entry>)
    requires Distinct(entries)
    requires forall d, e :: d in before && e in entries ==> !SameKey(d.key, e.key)
    ensures SetAll(before, entries) == before + entries
    decreases entries
  {
    if entries != [] {
      assert entries[0] in entries && forall e :: e in entries[1..] ==> e in entries;
      AllKeysByBits();
      RawSetNew(before, entries[0].key, entries[0].value);
      SetAllNew(before + [entries[0]], entries[1..]);
      assert before + [entries[0]] + entries[1..] == before + entries;
    } else {
      assert before + entries == before;
    }
  }

  /** There is room for a value at this depth and node count. */
  ghost predicate Room(depth: nat, nodes: nat) {
    depth <= 32 && nodes < 200000
  }

  lemma ConstantRoundTrip(v: Value, rest: seq<byte>, depth: nat, nodes: nat)
    requires (v.Nil? || v.Boolean?) && Room(depth, nodes)
    ensures Parse([if v.Nil? then 0 else if v.b then 2 else 1] + rest, depth, nodes) == Good(v, rest, nodes + 1)
  {
    assert ([if v.Nil? then 0 else if v.b then 2 else 1] + rest)[1..] == rest;
  }

  lemma NumberRoundTrip(bits: Double, rest: seq<byte>, depth: nat, nodes: nat)
    requires Exponent(bits) != 2047 && Room(depth, nodes)
    ensures Parse([3] + bits + rest, depth, nodes) == Good(Number(bits), rest, nodes + 1)
  {
    FiniteByExponent(bits);
    assert ([3] + bits + rest)[1..] == bits + rest;
    assert (bits + rest)[..8] == bits && (bits + rest)[8..] == rest;
  }

  lemma StringRoundTrip(bytes: seq<byte>, rest: seq<byte>, depth: nat, nodes: nat)
    requires |bytes| < 0x1_0000_0000 && Room(depth, nodes)
    ensures Parse([4] + U32(|bytes|) + bytes + rest, depth, nodes) == Good(String(bytes), rest, nodes + 1)
  {
    var s, n := U32(|bytes|) + bytes + rest, |bytes|;
    ReadU32(n);
    assert ([4] + U32(|bytes|) + bytes + rest)[1..] == s;
    assert s[..4] == U32(n) && s[4..4 + n] == bytes && s[4 + n..] == rest;
  }

  /** A handle is read if and only if its kind is that of an item or of a behaviour and its
      scope is not zero. */
  lemma HandleIsRead(kind: nat, scope: nat, index: nat, rest: seq<byte>, depth: nat, nodes: nat)
    requires kind < 0x1_0000_0000 && scope < 0x1_0000_0000 && index < 0x1_0000_0000 && Room(depth, nodes)
    ensures Parse([7] + U32(kind) + U32(scope) + U32(index) + rest, depth, nodes)
         == if (kind == 1 || kind == 2) && scope != 0 then Good(Handle(kind, scope, index), rest, nodes + 1) else Bad
  {
    var s := U32(kind) + U32(scope) + U32(index) + rest;
    ReadU32(kind);
    ReadU32(scope);
    ReadU32(index);
    assert ([7] + U32(kind) + U32(scope) + U32(index) + rest)[1..] == s;
    assert s[..4] == U32(kind) && s[4..8] == U32(scope) && s[8..12] == U32(index) && s[12..] == rest;
  }

  lemma TableReads(n: nat, s: seq<byte>, depth: nat, nodes: nat, entries: seq<Entry>, rest: seq<byte>, m: nat)
    requires n <= MAX_NODES && Room(depth, nodes)
    requires ParseEntries(s, depth + 1, nodes + 1, n) == Good(entries, rest, m)
    ensures Parse([5] + U32(n) + s, depth, nodes) == Good(Table(SetAll([], entries)), rest, m)
  {
    ReadU32(n);
    var t := U32(n) + s;
    assert ([5] + U32(n) + s)[1..] == t && t[..4] == U32(n) && t[4..] == s;
  }

  // ---- which bytes are read, and as what ----

  /** What may stand in the bytes: a table as its pairs come, keys repeated or not. */
  ghost predicate Wire(v: Value, depth: nat)
    decreases v
  {
    && depth <= 32
    && match v
       case Number(bits) => Exponent(bits) != 2047
       case String(bytes) => |bytes| < 0x1_0000_0000
       case Table(entries) => EntriesWire(entries, depth + 1)
       case Handle(kind, scope, index) => 1 <= kind <= 2 && 0 < scope < 0x1_0000_0000 && index < 0x1_0000_0000
       case Function(_) => false
       case Unsupported => false
       case _ => true
  }

  ghost predicate EntriesWire(entries: seq<Entry>, depth: nat)
    decreases entries
  {
    entries != [] ==>
      assert entries[0].key < entries[0];
      && !entries[0].key.Nil? && Wire(entries[0].key, depth) && Wire(entries[0].value, depth)
      && EntriesWire(entries[1..], depth)
  }

  /** The value that they make: every table has its pairs set one after the other. */
  ghost function Meaning(v: Value): Value
    decreases v
  {
    if v.Table? then Table(SetAll([], Meanings(v.entries))) else v
  }

  ghost function Meanings(entries: seq<Entry>): (r: seq<Entry>)
    ensures |r| == |entries|
    decreases entries
  {
    if entries == [] then []
    else
      assert entries[0].key < entries[0];
      [Entry(Meaning(entries[0].key), Meaning(entries[0].value))] + Meanings(entries[1..])
  }

  /** All such bytes are read, whatever comes after them, as what they mean. */
  lemma {:induction false} Accepts(v: Value, ids: map<Identity, nat>, rest: seq<byte>, depth: nat, nodes: nat)
    requires Wire(v, depth) && nodes + Count(v) <= 200000
    ensures Parse(Bytes(v, ids) + rest, depth, nodes) == Good(Meaning(v), rest, nodes + Count(v))
    decreases v
  {
    if v.Table? {
      var entries, payload, m := v.entries, EntryBytes(v.entries, ids), nodes + Count(v);
      EntryCountAtLeast(entries);
      assert m == (nodes + 1) + EntryCount(entries);
      AcceptsEntries(entries, ids, rest, depth + 1, nodes + 1);
      TableReads(|entries|, payload + rest, depth, nodes, Meanings(entries), rest, m);
      Regroup([5] + U32(|entries|), payload, rest);
    } else {
      LeafRoundTrip(v, ids, rest, depth, nodes);
    }
  }

  lemma LeafRoundTrip(v: Value, ids: map<Identity, nat>, rest: seq<byte>, depth: nat, nodes: nat)
    requires !v.Table? && Wire(v, depth) && nodes < MAX_NODES
    ensures Parse(Bytes(v, ids) + rest, depth, nodes) == Good(v, rest, nodes + 1)
  {
    match v
    case Nil => ConstantRoundTrip(v, rest, depth, nodes);
    case Boolean(_) => ConstantRoundTrip(v, rest, depth, nodes);
    case Number(bits) => NumberRoundTrip(bits, rest, depth, nodes);
    case String(bytes) => StringRoundTrip(bytes, rest, depth, nodes);
    case Handle(kind, scope, index) => HandleIsRead(kind, scope, index, rest, depth, nodes);
  }

  lemma {:induction false} EntryCountAtLeast(entries: seq<Entry>)
    ensures EntryCount(entries) >= |entries|
  {
    if entries != [] { EntryCountAtLeast(entries[1..]); }
  }

  lemma EntryBytesGroup(entries: seq<Entry>, ids: map<Identity, nat>, rest: seq<byte>)
    requires entries != []
    ensures EntryBytes(entries, ids) + rest
         == Bytes(entries[0].key, ids) + (Bytes(entries[0].value, ids) + (EntryBytes(entries[1..], ids) + rest))
  {
    Regroup(Bytes(entries[0].key, ids) + Bytes(entries[0].value, ids), EntryBytes(entries[1..], ids), rest);
    Regroup(Bytes(entries[0].key, ids), Bytes(entries[0].value, ids), EntryBytes(entries[1..], ids) + rest);
  }

  /** A pair whose key and value are read, and those after it. */
  lemma EntryReads(s: seq<byte>, s': seq<byte>, s'': seq<byte>, depth: nat, nodes: nat, k: Value, m: nat, v: Value, m': nat,
                   n: nat, more: seq<Entry>, rest: seq<byte>, end: nat)
    requires nodes <= 200000 && m' <= 200000 && !k.Nil?
    requires Parse(s, depth, nodes) == Good(k, s', m) && Parse(s', depth, m) == Good(v, s'', m')
    requires ParseEntries(s'', depth, m', n) == Good(more, rest, end)
    ensures ParseEntries(s, depth, nodes, n + 1) == Good([Entry(k, v)] + more, rest, end)
  {
    assert ParsePair(s, depth, nodes) == Good(Entry(k, v), s'', m');
  }

  lemma {:induction false} AcceptsEntries(entries: seq<Entry>, ids: map<Identity, nat>, rest: seq<byte>, depth: nat, nodes: nat)
    requires EntriesWire(entries, depth) && nodes + EntryCount(entries) <= 200000
    ensures ParseEntries(EntryBytes(entries, ids) + rest, depth, nodes, |entries|)
         == Good(Meanings(entries), rest, nodes + EntryCount(entries))
    decreases entries
  {
    hide Parse, ParseEntries, Wire;
    if entries == [] {
      assert EntryBytes(entries, ids) + rest == rest;
      NothingRead(rest, depth, nodes);
    } else {
      var k, v, more := entries[0].key, entries[0].value, entries[1..];
      assert k < entries[0] && v < entries[0];
      var after := EntryBytes(more, ids) + rest;
      var m := nodes + Count(k);
      var m' := m + Count(v);
      Accepts(k, ids, Bytes(v, ids) + after, depth, nodes);
      Accepts(v, ids, after, depth, m);
      AcceptsEntries(more, ids, rest, depth, m');
      EntryBytesGroup(entries, ids, rest);
      EntryReads(EntryBytes(entries, ids) + rest, Bytes(v, ids) + after, after, depth, nodes, Meaning(k), m, Meaning(v), m',
                 |more|, Meanings(more), rest, nodes + EntryCount(entries));
    }
  }

  /** Nothing else is read: whatever the reader accepts begins with the bytes of such a value,
      is read as what that means, and costs its nodes. */
  lemma {:induction false} Recognises(s: seq<byte>, depth: nat, nodes: nat) returns (w: Value)
    requires Parse(s, depth, nodes).Good?
    ensures var r := Parse(s, depth, nodes);
            && Wire(w, depth) && s == Bytes(w, map[]) + r.rest && r.value == Meaning(w)
            && r.nodes == nodes + Count(w) <= 200000
    decreases Height(depth), 0
  {
    if s[0] == 5 {
      var t := s[1..];
      var entries := RecognisesEntries(t[4..], depth + 1, nodes + 1, Read32(t[..4]));
      w := Table(entries);
      WriteU32(t[..4]);
      TableBytes(s, entries, Parse(s, depth, nodes).rest);
    } else {
      w := Parse(s, depth, nodes).value;
      if s[0] == 3 {
        NumberIsRecognised(s, depth, nodes);
      } else if s[0] == 4 {
        StringIsRecognised(s, depth, nodes);
      } else if s[0] == 7 {
        HandleIsRecognised(s, depth, nodes);
      } else {
        assert s == [s[0]] + s[1..];
      }
    }
  }

  lemma TableBytes(s: seq<byte>, entries: seq<Entry>, rest: seq<byte>)
    requires |s| >= 5 && s[0] == 5 && s[1..][..4] == U32(|entries|) && s[1..][4..] == EntryBytes(entries, map[]) + rest
    ensures s == Bytes(Table(entries), map[]) + rest
  {
    assert s == [5] + s[1..][..4] + s[1..][4..];
    Regroup([5] + U32(|entries|), EntryBytes(entries, map[]), rest);
  }

  lemma NumberIsRecognised(s: seq<byte>, depth: nat, nodes: nat)
    requires s != [] && s[0] == 3 && Parse(s, depth, nodes).Good?
    ensures var r := Parse(s, depth, nodes);
            r.value.Number? && Wire(r.value, depth) && s == Bytes(r.value, map[]) + r.rest && r.nodes == nodes + 1
  {
    FiniteByExponent(s[1..][..8]);
    assert s == [3] + s[1..][..8] + s[1..][8..];
  }

  lemma StringIsRecognised(s: seq<byte>, depth: nat, nodes: nat)
    requires s != [] && s[0] == 4 && Parse(s, depth, nodes).Good?
    ensures var r := Parse(s, depth, nodes);
            r.value.String? && Wire(r.value, depth) && s == Bytes(r.value, map[]) + r.rest && r.nodes == nodes + 1
  {
    var t := s[1..];
    WriteU32(t[..4]);
    var n := Read32(t[..4]);
    assert |t[4..4 + n]| == n && s == [4] + t[..4] + t[4..4 + n] + t[4 + n..];
  }

  lemma HandleIsRecognised(s: seq<byte>, depth: nat, nodes: nat)
    requires s != [] && s[0] == 7 && Parse(s, depth, nodes).Good?
    ensures var r := Parse(s, depth, nodes);
            r.value.Handle? && Wire(r.value, depth) && s == Bytes(r.value, map[]) + r.rest && r.nodes == nodes + 1
  {
    var t := s[1..];
    WriteU32(t[..4]);
    WriteU32(t[4..8]);
    WriteU32(t[8..12]);
    assert s == [7] + t[..4] + t[4..8] + t[8..12] + t[12..];
  }

  lemma {:induction false} RecognisesEntries(s: seq<byte>, depth: nat, nodes: nat, n: nat) returns (entries: seq<Entry>)
    requires nodes <= 200000 && ParseEntries(s, depth, nodes, n).Good?
    ensures var r := ParseEntries(s, depth, nodes, n);
            && |entries| == n && EntriesWire(entries, depth) && s == EntryBytes(entries, map[]) + r.rest
            && r.value == Meanings(entries) && r.nodes == nodes + EntryCount(entries) <= 200000
    decreases Height(depth), n + 2
  {
    entries := [];
    if n == 0 {
      assert [] + s == s;
    } else {
      var k := Recognises(s, depth, nodes);
      var r := Parse(s, depth, nodes);
      var v := Recognises(r.rest, depth, r.nodes);
      var r' := Parse(r.rest, depth, r.nodes);
      var more := RecognisesEntries(r'.rest, depth, r'.nodes, n - 1);
      entries := [Entry(k, v)] + more;
      assert entries[1..] == more;
      EntryBytesGroup(entries, map[], ParseEntries(s, depth, nodes, n).rest);
    }
  }

  // ---- the round trip ----

  /** Keys that are told apart stay as they are. */
  lemma {:induction false} PortableMeansItself(v: Value, depth: nat)
    requires Portable(v, depth)
    ensures Wire(v, depth) && Meaning(v) == v
    decreases v
  {
    if v.Table? {
      EntriesMeanThemselves(v.entries, depth + 1);
      SetAllNew([], v.entries);
      assert [] + v.entries == v.entries;
    }
  }

  lemma {:induction false} EntriesMeanThemselves(entries: seq<Entry>, depth: nat)
    requires EntriesPortable(entries, depth)
    ensures EntriesWire(entries, depth) && Meanings(entries) == entries
    decreases entries
  {
    if entries != [] {
      assert entries[0].key < entries[0];
      PortableMeansItself(entries[0].key, depth);
      PortableMeansItself(entries[0].value, depth);
      EntriesMeanThemselves(entries[1..], depth);
    }
  }

  /** Whatever the encoder accepts of a function-free value, the decoder reads back: the
      same value, all of its bytes and no more, and the same node count, at any depth. */
  lemma RoundTrip(v: Value, ids: map<Identity, nat>, rest: seq<byte>, depth: nat, nodes: nat)
    requires Portable(v, depth) && nodes + Count(v) <= 200000
    ensures Parse(Bytes(v, ids) + rest, depth, nodes) == Good(v, rest, nodes + Count(v))
  {
    PortableMeansItself(v, depth);
    Accepts(v, ids, rest, depth, nodes);
  }

  // ---- frames: a count, that many values, and nothing more ----

  ghost function ValuesSize(values: seq<Value>): nat {
    if values == [] then 0 else Size(values[0]) + ValuesSize(values[1..])
  }

  ghost function ValuesBytes(values: seq<Value>, ids: map<Identity, nat>): (b: seq<byte>)
    ensures |b| == ValuesSize(values)
  {
    if values == [] then [] else Bytes(values[0], ids) + ValuesBytes(values[1..], ids)
  }

  ghost function FrameBytes(values: seq<Value>, ids: map<Identity, nat>): seq<byte> {
    U32(|values|) + ValuesBytes(values, ids)
  }

  ghost function ValuesFunctions(values: seq<Value>): set<Identity> {
    if values == [] then {} else FunctionsIn(values[0]) + ValuesFunctions(values[1..])
  }

  ghost function ValuesCount(values: seq<Value>): nat {
    if values == [] then 0 else Count(values[0]) + ValuesCount(values[1..])
  }

  /** The encoder takes every value, and the frame keeps to the limits. */
  ghost predicate FrameFits(values: seq<Value>) {
    (forall v :: v in values ==> Encodable(v, 0)) && ValuesCount(values) <= 200000 && 4 + ValuesSize(values) <= 8388608
  }

  lemma {:induction false} EachSize(values: seq<Value>)
    ensures forall v :: v in values ==> Size(v) <= ValuesSize(values)
  {
    if values != [] { EachSize(values[1..]); }
  }

  lemma {:induction false} PrefixIsLess(values: seq<Value>, k: nat)
    requires k <= |values|
    ensures ValuesCount(values[..k]) <= ValuesCount(values) && ValuesSize(values[..k]) <= ValuesSize(values)
  {
    if k > 0 {
      assert values[..k][1..] == values[1..][..k - 1];
      PrefixIsLess(values[1..], k - 1);
    }
  }

  /** A value that does not fit behind the ones before it keeps the frame from fitting. */
  lemma FrameRefused(values: seq<Value>, i: nat)
    requires i < |values|
    requires !(Encodable(values[i], 0) && ValuesCount(values[..i]) + Count(values[i]) <= MAX_NODES
               && 4 + ValuesSize(values[..i]) + Size(values[i]) <= MAX_WIRE)
    ensures !FrameFits(values)
  {
    hide Encodable;
    assert values[..i + 1] == values[..i] + [values[i]];
    OneMoreValue(values[..i], values[i], map[]);
    PrefixIsLess(values, i + 1);
  }

  /** The bytes of the values up to some point, and one more value. */
  lemma {:induction false} OneMoreValue(values: seq<Value>, v: Value, ids: map<Identity, nat>)
    ensures ValuesBytes(values + [v], ids) == ValuesBytes(values, ids) + Bytes(v, ids)
    ensures ValuesCount(values + [v]) == ValuesCount(values) + Count(v) && ValuesSize(values + [v]) == ValuesSize(values) + Size(v)
    ensures ValuesFunctions(values + [v]) == ValuesFunctions(values) + FunctionsIn(v)
  {
    if values == [] {
      assert values + [v] == [v] && [v][1..] == [];
    } else {
      assert (values + [v])[1..] == values[1..] + [v];
      OneMoreValue(values[1..], v, ids);
      Regroup(Bytes(values[0], ids), ValuesBytes(values[1..], ids), Bytes(v, ids));
    }
  }

  lemma {:induction false} ValuesBytesStable(values: seq<Value>, ids: map<Identity, nat>, ids': map<Identity, nat>)
    requires (forall v :: v in values ==> Known(v, ids)) && forall f :: f in ids ==> f in ids' && ids'[f] == ids[f]
    ensures (forall v :: v in values ==> Known(v, ids')) && ValuesBytes(values, ids') == ValuesBytes(values, ids)
  {
    if values != [] {
      BytesStable(values[0], ids, ids');
      ValuesBytesStable(values[1..], ids, ids');
      assert forall v :: v in values ==> v == values[0] || v in values[1..];
    }
  }

  /** Values read already, in front of what reading on yields. */
  function PrependValues(done: seq<Value>, r: Parsed<seq<Value>>): Parsed<seq<Value>> {
    if r.Bad? then Bad else Good(done + r.value, r.rest, r.nodes)
  }

  lemma ReadOneMoreValue(done: seq<Value>, s: seq<byte>, nodes: nat, n: nat, v: Value, s': seq<byte>, nodes': nat)
    requires Parse(s, 0, nodes) == Good(v, s', nodes')
    ensures PrependValues(done, ParseValues(s, nodes, n + 1)) == PrependValues(done + [v], ParseValues(s', nodes', n))
  {
    var r := ParseValues(s', nodes', n);
    if r.Good? { assert done + ([v] + r.value) == done + [v] + r.value; }
  }

  lemma ReadNoMoreValues(done: seq<Value>, s: seq<byte>, nodes: nat, n: nat)
    requires Parse(s, 0, nodes).Bad?
    ensures PrependValues(done, ParseValues(s, nodes, n + 1)).Bad?
  {
  }

  lemma NoValuesRead(s: seq<byte>, nodes: nat)
    ensures ParseValues(s, nodes, 0) == Good([], s, nodes)
  {
  }

  function ParseValues(s: seq<byte>, nodes: nat, n: nat): Parsed<seq<Value>>
    decreases n
  {
    if n == 0 then Good([], s, nodes)
    else
      var v := Parse(s, 0, nodes);
      if v.Bad? then Bad
      else
        var r := ParseValues(v.rest, v.nodes, n - 1);
        if r.Bad? then Bad else Good([v.value] + r.value, r.rest, r.nodes)
  }

  function ParseFrame(s: seq<byte>): Parsed<seq<Value>> {
    if |s| < 4 || Read32(s[..4]) > MAX_COUNT then Bad
    else
      var r := ParseValues(s[4..], 0, Read32(s[..4]));
      if r.Bad? || r.rest != [] then Bad else r
  }

  ghost predicate ValuesPortable(values: seq<Value>) {
    values == [] || (Portable(values[0], 0) && ValuesPortable(values[1..]))
  }

  lemma {:induction false} ValuesArePortable(values: seq<Value>)
    requires forall v :: v in values ==> Data(v) && Encodable(v, 0) && Size(v) <= MAX_WIRE
    ensures ValuesPortable(values)
  {
    if values != [] {
      EncodableIsPortable(values[0], 0);
      ValuesArePortable(values[1..]);
    }
  }

  lemma ValuesStep(values: seq<Value>, ids: map<Identity, nat>, nodes: nat, after: seq<byte>, m: nat)
    requires values != [] && after == ValuesBytes(values[1..], ids) && m == nodes + Count(values[0])
    requires Parse(Bytes(values[0], ids) + after, 0, nodes) == Good(values[0], after, m)
    requires ParseValues(after, m, |values[1..]|) == Good(values[1..], [], m + ValuesCount(values[1..]))
    ensures ParseValues(ValuesBytes(values, ids), nodes, |values|) == Good(values, [], nodes + ValuesCount(values))
  {
    assert [values[0]] + values[1..] == values && |values[1..]| == |values| - 1;
    assert m + ValuesCount(values[1..]) == nodes + ValuesCount(values);
  }

  lemma {:induction false} ValuesRoundTrip(values: seq<Value>, ids: map<Identity, nat>, nodes: nat)
    requires ValuesPortable(values) && nodes + ValuesCount(values) <= MAX_NODES
    ensures ParseValues(ValuesBytes(values, ids), nodes, |values|) == Good(values, [], nodes + ValuesCount(values))
  {
    hide Bytes, Parse, Count, Portable, ParseValues;
    if values == [] {
      assert ValuesBytes(values, ids) == [] && ValuesCount(values) == 0;
      NoValuesRead([], nodes);
    } else {
      RoundTrip(values[0], ids, ValuesBytes(values[1..], ids), 0, nodes);
      ValuesRoundTrip(values[1..], ids, nodes + Count(values[0]));
      ValuesStep(values, ids, nodes, ValuesBytes(values[1..], ids), nodes + Count(values[0]));
    }
  }

  lemma FrameReads(n: nat, s: seq<byte>, values: seq<Value>, m: nat)
    requires n <= MAX_COUNT && ParseValues(s, 0, n) == Good(values, [], m)
    ensures ParseFrame(U32(n) + s) == Good(values, [], m)
  {
    ReadU32(n);
    assert (U32(n) + s)[..4] == U32(n) && (U32(n) + s)[4..] == s;
  }

  /** A frame of encodable data is read back exactly, with nothing left over. */
  lemma FrameRoundTrip(values: seq<Value>, ids: map<Identity, nat>)
    requires |values| <= 64 && FrameFits(values) && forall v :: v in values ==> Data(v)
    ensures ParseFrame(FrameBytes(values, ids)) == Good(values, [], ValuesCount(values))
  {
    hide Encodable, Data, ValuesPortable, ParseFrame, ParseValues, ValuesBytes;
    EachSize(values);
    ValuesArePortable(values);
    ValuesRoundTrip(values, ids, 0);
    FrameReads(|values|, ValuesBytes(values, ids), values, ValuesCount(values));
  }
}
