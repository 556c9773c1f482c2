/** Encoding and decoding in the protected VM bridge (native-build/bridge.cpp): the code
    that walks values, numbers functions, interns handles and keeps to the limits. */
module BridgeCodec {
  import opened Basics
  import opened BridgeWire
  import opened BridgeRefs

  /** How a step of the codec ended. Lua or the C++ runtime may run out of memory at any
      of their calls; the other failures are the bridge's own. */
  datatype Outcome = Done | Refused | LimitReached | OutOfMemory

  type HandleKey = (nat, nat, nat)

  /** There is userdata for the handle, and Lua holds a reference to it. */
  ghost predicate Cached(handles: map<HandleKey, bool>, v: Value) {
    v.Handle? && (v.kind, v.scope, v.index) in handles && handles[(v.kind, v.scope, v.index)]
  }

  class Codec {
    const referenceLimit: nat
    const handleLimit: nat
    var functions: map<nat, Export>
    var functionIds: map<Identity, nat>
    var pendingRefs: seq<nat>
    var nextReference: nat
    var handles: map<HandleKey, bool>  // whether Lua holds a reference to the userdata
    var input: seq<byte>
    var cursor: nat
    var nodes: nat

    constructor (referenceLimit: nat, handleLimit: nat)
      ensures this.referenceLimit == referenceLimit && this.handleLimit == handleLimit
      ensures Tables() == Refs(map[], map[], [], 1) && handles == map[]
    {
      this.referenceLimit, this.handleLimit := referenceLimit, handleLimit;
      functions, functionIds, pendingRefs, nextReference := map[], map[], [], 1;
      handles, input, cursor, nodes := map[], [], 0, 0;
    }

    ghost function Tables(): Refs
      reads this
    {
      Refs(functions, functionIds, pendingRefs, nextReference)
    }

    /** Takes back every pending reference, finished or cut short. */
    method Rollback()
      requires Consistent(Tables())
      modifies `functions, `functionIds, `pendingRefs
      ensures Tables() == RolledBack(old(Tables())) && Exact(Tables())
      ensures |functions| <= |old(functions)|
    {
      var k := 0;
      ghost var before := Tables();
      assert before.functions == RolledBackTo(before, 0).functions && before.ids == RolledBackTo(before, 0).ids;
      while k < |pendingRefs|
        invariant 0 <= k <= |pendingRefs| && pendingRefs == before.pending
        invariant Tables() == RolledBackTo(before, k)
      {
        TakeBackOne(before, k);
        var id := pendingRefs[k];
        if id in functions {
          functionIds := functionIds - {functions[id].identity};
          functions := functions - {id};
        }
        k := k + 1;
      }
      assert before.pending[..k] == before.pending;
      pendingRefs := [];
      RollbackIsExact(before);
      RollbackShrinks(before);
    }

    /** The function case of `encode`: the number of a known function, or a new one. */
    method Intern(identity: Identity) returns (r: Outcome, id: nat)
      requires Exact(Tables()) && |functions| <= referenceLimit
      modifies `functions, `functionIds, `pendingRefs, `nextReference
      ensures Consistent(Tables()) && Grows(old(Tables()), Tables()) && |functions| <= referenceLimit
      ensures r.Done? ==> Exact(Tables()) && identity in functionIds && functionIds[identity] == id
      ensures r.Done? && identity in old(functionIds) ==> Tables() == old(Tables())
      ensures r.Done? ==> NewFrom(old(functionIds), functionIds, {identity})
      ensures r.LimitReached? ==> |functions| == referenceLimit || nextReference == 0x7fff_ffff
      ensures !r.Refused?
    {
      hide Consistent, Exact, Grows, Registering;
      Unchanged(Tables());
      id := 0;
      if identity in functionIds {
        return Done, functionIds[identity];
      }
      if |functions| >= referenceLimit || nextReference == INT_MAX {
        return LimitReached, id;
      }
      RegisteringGrows(Tables(), identity);
      ghost var step;
      r, id, step := Register(identity);
    }

    /** The steps of a registration, after any of which memory may run out. */
    method Register(identity: Identity) returns (r: Outcome, id: nat, ghost step: nat)
      modifies `functions, `functionIds, `pendingRefs, `nextReference
      ensures id == old(nextReference) && Tables() == Registering(old(Tables()), identity, step)
      ensures if step < 4 then r.OutOfMemory? else r.Done? && functionIds == old(functionIds)[identity := id]
    {
      id, r, step := nextReference, OutOfMemory, 0;
      nextReference := nextReference + 1;
      if * {
        return;
      }
      pendingRefs, step := pendingRefs + [id], 1;
      if * {
        return;
      }
      functions, step := functions[id := Export(false, identity)], 2;
      if * {
        return;
      }
      functions, step := functions[id := Export(true, identity)], 3;
      if * {
        return;
      }
      functionIds, step, r := functionIds[identity := id], 4, Done;
    }

    /** What is pending now belongs to the host. */
    method HandOver()
      modifies `pendingRefs
      ensures Tables() == old(Tables()).(pending := [])
    {
      pendingRefs := [];
    }

    /** The host gives a reference back. */
    method Release(id: nat)
      requires Exact(Tables()) && id in functions
      modifies `functions, `functionIds
      ensures Exact(Tables()) && functions == old(functions) - {id} && |functions| <= |old(functions)|
      ensures pendingRefs == old(pendingRefs) && nextReference == old(nextReference)
    {
      assert forall i :: i in functions ==> Interned(Tables(), i);
      ghost var before := Tables();
      functionIds := functionIds - {functions[id].identity};
      functions := functions - {id};
      CardinalityOfSubset(functions.Keys, before.functions.Keys);
      forall i | i in functions ensures Interned(Tables(), i) { assert Interned(before, i); }
    }

    /** `append`: more bytes, within the limit of a wire buffer. */
    static method Append(out: seq<byte>, more: seq<byte>) returns (ok: bool, out': seq<byte>)
      ensures ok <==> |out| + |more| <= MAX_WIRE
      ensures out' == if ok then out + more else out
    {
      ok := |out| + |more| <= MAX_WIRE;
      out' := if ok then out + more else out;
    }

    ghost predicate Usable()
      reads this
    {
      Exact(Tables()) && |functions| <= referenceLimit
    }

    /** What an encoding step, however it ends, leaves of the reference tables. */
    ghost predicate Exported(before: Refs, r: Outcome)
      reads this
    {
      && Consistent(Tables()) && Grows(before, Tables()) && |functions| <= referenceLimit
      && (r.Done? ==> Exact(Tables()))
      && (r.LimitReached? ==> |functions| == referenceLimit || nextReference == INT_MAX)
    }

    /** The cases of `encode` that leave the reference tables alone. */
    static method EncodeLeaf(v: Value, out: seq<byte>) returns (ok: bool, out': seq<byte>)
      requires !v.Table? && !v.Function?
      ensures ok <==> !v.Unsupported? && (v.Number? ==> Exponent(v.bits) != 2047) && |out| + Size(v) <= MAX_WIRE
      ensures ok ==> forall ids :: out' == out + Bytes(v, ids)
    {
      ok, out' := false, out;
      if v.Number? { FiniteByExponent(v.bits); }
      match v
      case Nil => ok, out' := Append(out, [0]);
      case Boolean(b) => ok, out' := Append(out, [if b then 2 else 1]);
      case Number(bits) => if Finite(bits) { ok, out' := Append(out, [3] + bits); }
      case String(bytes) => ok, out' := Append(out, [4] + U32(|bytes|) + bytes);
      case Handle(kind, scope, index) => ok, out' := Append(out, [7] + U32(kind) + U32(scope) + U32(index));
      case Unsupported =>
    }

    /** `encode`: appends the value's bytes, numbering the functions in it. */
    method Encode(v: Value, out: seq<byte>, depth: nat) returns (r: Outcome, out': seq<byte>)
      requires Usable()
      modifies `functions, `functionIds, `pendingRefs, `nextReference, `nodes
      ensures Exported(old(Tables()), r)
      ensures r.Done? ==> && out' == out + Bytes(v, functionIds) && nodes == old(nodes) + Count(v)
                          && Known(v, functionIds) && Encodable(v, depth)
                          && |out'| <= MAX_WIRE && nodes <= MAX_NODES
      ensures r.Done? ==> NewFrom(old(functionIds), functionIds, FunctionsIn(v))
      ensures r.Refused? ==> !(Encodable(v, depth) && old(nodes) + Count(v) <= MAX_NODES && |out| + Size(v) <= MAX_WIRE)
      decreases v, 1
    {
      r, out' := Refused, out;
      nodes := nodes + 1;
      if depth > MAX_DEPTH || nodes > MAX_NODES {
        return;
      }
      var ok;
      if v.Table? {
        r, out' := EncodeTable(v, out, depth);
      } else if v.Function? {
        var id;
        r, id := Intern(v.identity);
        if r.Done? {
          ok, out' := Append(out, [6] + U32(id));
          r := if ok then Done else Refused;
        }
      } else {
        ok, out' := EncodeLeaf(v, out);
        r := if ok then Done else Refused;
      }
    }

    /** One entry of a table: the key, which must be a string or a number, and the value. */
    method EncodeEntry(e: Entry, out: seq<byte>, depth: nat) returns (r: Outcome, out': seq<byte>)
      requires Usable()
      modifies `functions, `functionIds, `pendingRefs, `nextReference, `nodes
      ensures Exported(old(Tables()), r)
      ensures r.Done? ==> && out' == out + EntryBytes([e], functionIds) && nodes == old(nodes) + EntryCount([e])
                          && EntriesKnown([e], functionIds) && EntriesEncodable([e], depth)
                          && |out'| <= MAX_WIRE && nodes <= MAX_NODES
      ensures r.Done? ==> NewFrom(old(functionIds), functionIds, EntryFunctions([e]))
      ensures r.Refused? ==> !(EntriesEncodable([e], depth) && old(nodes) + EntryCount([e]) <= MAX_NODES && |out| + EntrySize([e]) <= MAX_WIRE)
      decreases e, 2
    {
      if !e.key.String? && !e.key.Number? {
        return Refused, out;
      }
      assert e.key < e && e.value < e;
      hide NewFrom, Exact, Consistent;
      SingleEntry(e, depth);
      r, out' := Encode(e.key, out, depth);
      if r.Done? {
        ghost var between := Tables();
        r, out' := Encode(e.value, out', depth);
        GrowsTransitive(old(Tables()), between, Tables());
        if r.Done? {
          NewFromBoth(old(functionIds), between.ids, functionIds, FunctionsIn(e.key), FunctionsIn(e.value));
        }
        BytesStable(e.key, between.ids, functionIds);
        Regroup(out, Bytes(e.key, functionIds), Bytes(e.value, functionIds));
        SingleEntryBytes(e, functionIds);
      }
    }

    /** The table case: the count goes in front of the entries once it is known. */
    method EncodeTable(v: Value, out: seq<byte>, depth: nat) returns (r: Outcome, out': seq<byte>)
      requires Usable() && v.Table? && depth <= MAX_DEPTH && nodes <= MAX_NODES
      modifies `functions, `functionIds, `pendingRefs, `nextReference, `nodes
      ensures Exported(old(Tables()), r)
      ensures r.Done? ==> && out' == out + Bytes(v, functionIds) && nodes == old(nodes) + EntryCount(v.entries)
                          && EntriesKnown(v.entries, functionIds) && EntriesEncodable(v.entries, depth + 1)
                          && |out'| <= MAX_WIRE && nodes <= MAX_NODES
      ensures r.Done? ==> NewFrom(old(functionIds), functionIds, EntryFunctions(v.entries))
      ensures r.Refused? ==> !(EntriesEncodable(v.entries, depth + 1) && old(nodes) + EntryCount(v.entries) <= MAX_NODES
                               && |out| + Size(v) <= MAX_WIRE)
      decreases v, 0
    {
      var offset, ok := |out| + 1, true;
      ok, out' := Append(out, [5] + U32(0));
      if !ok {
        return Refused, out;
      }
      r, out' := EncodeEntries(v.entries, out', depth + 1);
      if r.Done? {
        PatchCount(out, |v.entries|, EntryBytes(v.entries, functionIds));
        out' := out'[..offset] + U32(|v.entries|) + out'[offset + 4..];
      }
    }

    /** The loop over the entries. */
    method EncodeEntries(entries: seq<Entry>, head: seq<byte>, depth: nat) returns (r: Outcome, out: seq<byte>)
      requires Usable() && nodes <= MAX_NODES && |head| <= MAX_WIRE
      modifies `functions, `functionIds, `pendingRefs, `nextReference, `nodes
      ensures Exported(old(Tables()), r)
      ensures r.Done? ==> && out == head + EntryBytes(entries, functionIds) && nodes == old(nodes) + EntryCount(entries)
                          && EntriesKnown(entries, functionIds) && EntriesEncodable(entries, depth)
                          && |out| <= MAX_WIRE && nodes <= MAX_NODES
      ensures r.Done? ==> NewFrom(old(functionIds), functionIds, EntryFunctions(entries))
      ensures r.Refused? ==> !(EntriesEncodable(entries, depth) && old(nodes) + EntryCount(entries) <= MAX_NODES
                               && |head| + EntrySize(entries) <= MAX_WIRE)
      decreases entries, 3
    {
      hide NewFrom, Exact, Consistent, EntriesDone;
      Unchanged(Tables());
      NothingNew(functionIds);
      NoneDone(entries, functionIds, depth, head, nodes);
      out := head;
      var count := 0;
      while count < |entries|
        invariant 0 <= count <= |entries|
        invariant Exported(old(Tables()), Done)
        invariant EntriesDone(entries, count, functionIds, depth, head, out, old(nodes), nodes)
        invariant NewFrom(old(functionIds), functionIds, EntryFunctions(entries[..count]))
      {
        ghost var between, m, before := Tables(), nodes, out;
        r, out := EncodeEntry(entries[count], out, depth);
        GrowsTransitive(old(Tables()), between, Tables());
        if !r.Done? {
          if r.Refused? { EntryRefused(entries, count, between.ids, depth, head, before, old(nodes), m); }
          return;
        }
        OneMoreFunctions(entries, count);
        NewFromBoth(old(functionIds), between.ids, functionIds, EntryFunctions(entries[..count]), EntryFunctions([entries[count]]));
        OneMoreEntry(entries, count, between.ids, functionIds, depth, head, before, out, old(nodes), m, nodes);
        count := count + 1;
      }
      assert entries[..count] == entries;
      AllDone(entries, functionIds, depth, head, out, old(nodes), nodes);
      r := Done;
    }

    /** `read`: the next `n` bytes, never past the end of the input. */
    method Read(n: nat) returns (ok: bool, bytes: seq<byte>)
      requires cursor <= |input|
      modifies `cursor
      ensures ok <==> old(cursor) + n <= |input|
      ensures if ok then cursor == old(cursor) + n && bytes == input[old(cursor)..cursor] else cursor == old(cursor)
      ensures ok ==> bytes == input[old(cursor)..][..n] && input[cursor..] == input[old(cursor)..][n..]
    {
      ok, bytes := n <= |input| - cursor, [];
      if ok {
        bytes := input[cursor..cursor + n];
        cursor := cursor + n;
      }
    }

    /** The cursor is in range, and the handle cache within its limit. */
    ghost predicate Reading()
      reads this
    {
      cursor <= |input| && |handles| <= handleLimit
    }

    /** `decode`, on whatever bytes the host sent: the value that they spell, or a failure. */
    method Decode(depth: nat) returns (r: Outcome, v: Value)
      requires Reading()
      modifies `cursor, `nodes, `handles
      ensures Reading() && old(handles).Keys <= handles.Keys
      ensures r.Done? ==> Parse(input[old(cursor)..], depth, old(nodes)) == Good(v, input[cursor..], nodes)
      ensures r.Refused? ==> Parse(input[old(cursor)..], depth, old(nodes)).Bad?
      ensures r.LimitReached? ==> |handles| == handleLimit
      decreases Height(depth), 0
    {
      r, v := Refused, Nil;
      ghost var s, n := input[cursor..], nodes;
      nodes := nodes + 1;
      if depth > MAX_DEPTH || nodes > MAX_NODES {
        return;
      }
      var ok, tag := Read(1);
      if !ok {
        return;
      }
      assert tag[0] == s[0];
      match tag[0]
      case 0 => r, v := Done, Nil;
      case 1 => r, v := Done, Boolean(false);
      case 2 => r, v := Done, Boolean(true);
      case 3 => r, v := DecodeNumber();
      case 4 => r, v := DecodeString();
      case 5 => r, v := DecodeTable(depth + 1);
      case 7 => r, v := DecodeHandle();
      case _ =>
    }

    method DecodeNumber() returns (r: Outcome, v: Value)
      requires Reading() && nodes <= MAX_NODES
      modifies `cursor
      ensures Reading() && (r.Done? || r.Refused?)
      ensures ParseNumber(input[old(cursor)..], nodes) == if r.Done? then Good(v, input[cursor..], nodes) else Bad
    {
      ghost var s := input[cursor..];
      var ok, bits := Read(8);
      r, v := Refused, Nil;
      if ok {
        assert bits == s[..8] && input[cursor..] == s[8..];
        if Finite(bits) { r, v := Done, Number(bits); }
      }
    }

    method DecodeString() returns (r: Outcome, v: Value)
      requires Reading() && nodes <= MAX_NODES
      modifies `cursor
      ensures Reading() && (r.Done? || r.Refused?)
      ensures ParseString(input[old(cursor)..], nodes) == if r.Done? then Good(v, input[cursor..], nodes) else Bad
    {
      ghost var s := input[cursor..];
      r, v := Refused, Nil;
      var ok, length := Read(4);
      if !ok {
        return;
      }
      assert length == s[..4];
      var n := Read32(length);
      if n > |input| - cursor {
        return;
      }
      r, v := Done, String(input[cursor..cursor + n]);
      assert input[cursor..cursor + n] == s[4..4 + n] && input[cursor + n..] == s[4 + n..];
      cursor := cursor + n;
    }

    /** Handles are interned: the same userdata every time, within the handle limit. */
    method DecodeHandle() returns (r: Outcome, v: Value)
      requires Reading() && nodes <= MAX_NODES
      modifies `cursor, `handles
      ensures Reading() && old(handles).Keys <= handles.Keys && v.Handle?
      ensures r.Done? ==> ParseHandle(input[old(cursor)..], nodes) == Good(v, input[cursor..], nodes)
      ensures r.Done? ==> (v.kind, v.scope, v.index) in handles && handles[(v.kind, v.scope, v.index)]
      ensures r.Refused? ==> ParseHandle(input[old(cursor)..], nodes).Bad?
      ensures r.LimitReached? ==> |handles| == handleLimit
      ensures Cached(old(handles), v) && !r.Refused? ==> r.Done? && handles == old(handles)
      ensures forall k :: k in handles ==> (k in old(handles) && handles[k] == old(handles)[k]) || k == (v.kind, v.scope, v.index)
    {
      ghost var s := input[cursor..];
      r, v := Refused, Handle(0, 0, 0);
      var ok, kind, scope, index := true, [], [], [];
      ok, kind := Read(4);
      if ok { ok, scope := Read(4); }
      if ok { ok, index := Read(4); }
      if !ok {
        return;
      }
      assert kind == s[..4] && scope == s[4..8] && index == s[8..12] && input[cursor..] == s[12..];
      v := Handle(Read32(kind), Read32(scope), Read32(index));
      if !ValidHandle(v) {
        return;
      }
      var key := (v.kind, v.scope, v.index);
      if key in handles && handles[key] {
        return Done, v;
      }
      if |handles| >= handleLimit {
        return LimitReached, v;
      }
      if * { return OutOfMemory, v; }
      handles := handles[key := false];
      if * { return OutOfMemory, v; }
      handles := handles[key := true];
      r := Done;
    }

    method DecodeTable(depth: nat) returns (r: Outcome, v: Value)
      requires Reading() && nodes <= MAX_NODES
      modifies `cursor, `nodes, `handles
      ensures Reading() && old(handles).Keys <= handles.Keys
      ensures var s := input[old(cursor)..];
              var p := if |s| < 4 || Read32(s[..4]) > MAX_NODES then Bad else ParseEntries(s[4..], depth, old(nodes), Read32(s[..4]));
              && (r.Done? ==> p.Good? && v == Table(SetAll([], p.value)) && p.rest == input[cursor..] && p.nodes == nodes)
              && (r.Refused? ==> p.Bad?)
      ensures r.LimitReached? ==> |handles| == handleLimit
      decreases Height(depth), MAX_NODES + 3
    {
      r, v := Refused, Nil;
      var ok, length := Read(4);
      if ok && Read32(length) <= MAX_NODES {
        r, v := DecodeEntries(depth, Read32(length));
      }
    }

    method DecodePair(depth: nat) returns (r: Outcome, e: Entry)
      requires Reading() && nodes <= MAX_NODES
      modifies `cursor, `nodes, `handles
      ensures Reading() && old(handles).Keys <= handles.Keys
      ensures r.Done? ==> ParsePair(input[old(cursor)..], depth, old(nodes)) == Good(e, input[cursor..], nodes)
      ensures r.Refused? ==> ParsePair(input[old(cursor)..], depth, old(nodes)).Bad?
      ensures r.LimitReached? ==> |handles| == handleLimit
      decreases Height(depth), 1
    {
      var k, v := Nil, Nil;
      r, k := Decode(depth);
      if r.Done? {
        r, v := Decode(depth);
        if r.Done? && k.Nil? { r := Refused; }
      }
      e := Entry(k, v);
    }

    /** The loop over the pairs of a table, set one after the other. */
    method DecodeEntries(depth: nat, n: nat) returns (r: Outcome, v: Value)
      requires Reading() && nodes <= MAX_NODES && n <= MAX_NODES
      modifies `cursor, `nodes, `handles
      ensures Reading() && old(handles).Keys <= handles.Keys
      ensures var p := ParseEntries(input[old(cursor)..], depth, old(nodes), n);
              && (r.Done? ==> p.Good? && v == Table(SetAll([], p.value)) && p.rest == input[cursor..] && p.nodes == nodes)
              && (r.Refused? ==> p.Bad?)
      ensures r.LimitReached? ==> |handles| == handleLimit
      decreases Height(depth), n + 2
    {
      hide Parse, ParsePair, ParseEntries, SetAll, RawSet;
      ghost var p := ParseEntries(input[cursor..], depth, nodes, n);
      var entries := [];
      ghost var done := [];
      assert SetAll([], []) == [] by { NothingSet(); }
      if p.Good? { assert [] + p.value == p.value; }
      var i := 0;
      while i < n
        invariant 0 <= i <= n && Reading() && nodes <= MAX_NODES && old(handles).Keys <= handles.Keys
        invariant entries == SetAll([], done)
        invariant p == Prepend(done, ParseEntries(input[cursor..], depth, nodes, n - i))
      {
        ghost var s, m := input[cursor..], nodes;
        var e;
        r, e := DecodePair(depth);
        if !r.Done? {
          if r.Refused? { ReadNoMore(done, s, depth, m, n - i - 1); }
          return r, Nil;
        }
        ReadOneMore(done, s, depth, m, n - i - 1, e, input[cursor..], nodes);
        SetAllAppend([], done, e);
        entries := RawSet(entries, e.key, e.value);
        done := done + [e];
        i := i + 1;
      }
      NothingRead(input[cursor..], depth, nodes);
      assert done + [] == done;
      r, v := Done, Table(entries);
    }

    /** A frame of values, numbered afresh against the node limit. The table of references
        grows by what is pending; on success the bytes are those of the frame. */
    method EncodeFrame(values: seq<Value>) returns (r: Outcome, out: seq<byte>)
      requires Usable()
      modifies `functions, `functionIds, `pendingRefs, `nextReference, `nodes
      ensures Exported(old(Tables()), r)
      ensures r.Done? ==> && out == FrameBytes(values, functionIds) && FrameFits(values)
                          && forall v :: v in values ==> Known(v, functionIds)
      ensures r.Done? ==> NewFrom(old(functionIds), functionIds, ValuesFunctions(values))
      ensures r.Refused? ==> !FrameFits(values)
    {
      hide Encodable, Known, Bytes, Count, Size, FunctionsIn, Exact, Consistent, NewFrom, Grows;
      Unchanged(Tables());
      NothingNew(functionIds);
      nodes := 0;
      r, out := Done, U32(|values|);
      ghost var head := out;
      var i := 0;
      while i < |values|
        invariant 0 <= i <= |values| && Exported(old(Tables()), Done) && r.Done?
        invariant out == head + ValuesBytes(values[..i], functionIds) && |out| <= MAX_WIRE
        invariant nodes == ValuesCount(values[..i]) <= MAX_NODES
        invariant NewFrom(old(functionIds), functionIds, ValuesFunctions(values[..i]))
        invariant forall v :: v in values[..i] ==> Known(v, functionIds) && Encodable(v, 0)
        decreases |values| - i
      {
        ghost var between, before := Tables(), out;
        r, out := Encode(values[i], out, 0);
        GrowsTransitive(old(Tables()), between, Tables());
        if !r.Done? {
          if r.Refused? { FrameRefused(values, i); }
          return;
        }
        GrownIds(between, Tables());
        NewFromBoth(old(functionIds), between.ids, functionIds, ValuesFunctions(values[..i]), FunctionsIn(values[i]));
        FrameStep(values, i, between.ids, functionIds, head, before, out);
        i := i + 1;
      }
      assert values[..i] == values;
    }

    /** Reads a whole frame: a count, that many values, and nothing after them. */
    method DecodeFrame(bytes: seq<byte>) returns (r: Outcome, values: seq<Value>)
      requires |handles| <= handleLimit
      modifies `input, `cursor, `nodes, `handles
      ensures Reading() && old(handles).Keys <= handles.Keys
      ensures r.Done? ==> ParseFrame(bytes).Good? && values == ParseFrame(bytes).value
      ensures r.Refused? ==> ParseFrame(bytes).Bad?
      ensures r.LimitReached? ==> |handles| == handleLimit
    {
      input, cursor, nodes := bytes, 0, 0;
      r, values := Refused, [];
      assert input[cursor..] == bytes;
      var ok, length := Read(4);
      if ok && Read32(length) <= MAX_COUNT {
        r, values := DecodeValues(Read32(length));
        if r.Done? && cursor != |input| { r := Refused; }
      }
    }

    method DecodeValues(count: nat) returns (r: Outcome, values: seq<Value>)
      requires Reading() && nodes <= MAX_NODES
      modifies `cursor, `nodes, `handles
      ensures Reading() && old(handles).Keys <= handles.Keys
      ensures r.Done? ==> ParseValues(input[old(cursor)..], old(nodes), count) == Good(values, input[cursor..], nodes)
      ensures r.Refused? ==> ParseValues(input[old(cursor)..], old(nodes), count).Bad?
      ensures r.LimitReached? ==> |handles| == handleLimit
    {
      hide Parse, ParseValues;
      ghost var p := ParseValues(input[cursor..], nodes, count);
      r, values := Done, [];
      if p.Good? { assert [] + p.value == p.value; }
      var i := 0;
      while i < count
        invariant 0 <= i <= count && Reading() && nodes <= MAX_NODES && old(handles).Keys <= handles.Keys && r.Done?
        invariant p == PrependValues(values, ParseValues(input[cursor..], nodes, count - i))
      {
        ghost var s, m := input[cursor..], nodes;
        var v;
        r, v := Decode(0);
        if !r.Done? {
          if r.Refused? { ReadNoMoreValues(values, s, m, count - i - 1); }
          return;
        }
        ReadOneMoreValue(values, s, m, count - i - 1, v, input[cursor..], nodes);
        values := values + [v];
        i := i + 1;
      }
      NoValuesRead(input[cursor..], nodes);
      assert values + [] == values;
    }
  }

  /** What a sender encodes, a receiver reads back, unless memory or the receiver's room for
      handles runs out. */
  method SendAndReceive(sender: Codec, receiver: Codec, values: seq<Value>) returns (sent: Outcome, received: Outcome, back: seq<Value>)
    requires sender.Usable() && |receiver.handles| <= receiver.handleLimit
    requires |values| <= 64 && forall v :: v in values ==> Data(v)
    modifies sender, receiver
    ensures sent.Done? ==> FrameFits(values) && !received.Refused? && (received.Done? ==> back == values)
    ensures sent.Refused? ==> !FrameFits(values)
    ensures received.LimitReached? ==> |receiver.handles| == receiver.handleLimit
  {
    hide FrameBytes, FrameFits, ParseFrame, Data;
    received, back := OutOfMemory, [];
    var out;
    sent, out := sender.EncodeFrame(values);
    if sent.Done? {
      FrameRoundTrip(values, sender.functionIds);
      received, back := receiver.DecodeFrame(out);
    }
  }

  lemma GrownIds(r: Refs, r': Refs)
    requires Grows(r, r')
    ensures forall f :: f in r.ids ==> f in r'.ids && r'.ids[f] == r.ids[f]
  {
  }

  lemma FrameStep(values: seq<Value>, i: nat, ids: map<Identity, nat>, ids': map<Identity, nat>, head: seq<byte>, out: seq<byte>, out': seq<byte>)
    requires i < |values| && forall f :: f in ids ==> f in ids' && ids'[f] == ids[f]
    requires forall v :: v in values[..i] ==> Known(v, ids)
    requires out == head + ValuesBytes(values[..i], ids) && out' == out + Bytes(values[i], ids') && Known(values[i], ids')
    ensures out' == head + ValuesBytes(values[..i + 1], ids')
    ensures ValuesCount(values[..i + 1]) == ValuesCount(values[..i]) + Count(values[i])
    ensures ValuesFunctions(values[..i + 1]) == ValuesFunctions(values[..i]) + FunctionsIn(values[i])
    ensures forall v :: v in values[..i + 1] ==> Known(v, ids') && (v in values[..i] || v == values[i])
  {
    assert values[..i + 1] == values[..i] + [values[i]];
    ValuesBytesStable(values[..i], ids, ids');
    OneMoreValue(values[..i], values[i], ids');
    Regroup(head, ValuesBytes(values[..i], ids'), Bytes(values[i], ids'));
  }

  lemma SingleEntry(e: Entry, depth: nat)
    ensures EntrySize([e]) == Size(e.key) + Size(e.value) && EntryCount([e]) == Count(e.key) + Count(e.value)
    ensures EntryFunctions([e]) == FunctionsIn(e.key) + FunctionsIn(e.value)
    ensures EntriesEncodable([e], depth) <==> (e.key.String? || e.key.Number?) && Encodable(e.key, depth) && Encodable(e.value, depth)
  {
  }

  lemma SingleEntryBytes(e: Entry, ids: map<Identity, nat>)
    ensures EntryBytes([e], ids) == Bytes(e.key, ids) + Bytes(e.value, ids)
    ensures EntriesKnown([e], ids) <==> Known(e.key, ids) && Known(e.value, ids)
  {
  }

  /** Overwriting the placeholder count in place. */
  lemma PatchCount(out: seq<byte>, n: nat, payload: seq<byte>)
    ensures var whole := out + ([5] + U32(0)) + payload;
            whole[..|out| + 1] + U32(n) + whole[|out| + 5..] == out + ([5] + U32(n) + payload)
  {
  }

  /** The first `count` entries of a table are written behind `head`. */
  ghost predicate EntriesDone(entries: seq<Entry>, count: nat, ids: map<Identity, nat>, depth: nat,
                              head: seq<byte>, out: seq<byte>, n: nat, m: nat)
    requires count <= |entries|
  {
    && out == head + EntryBytes(entries[..count], ids) && |out| <= MAX_WIRE
    && m == n + EntryCount(entries[..count]) <= MAX_NODES
    && EntriesKnown(entries[..count], ids) && EntriesEncodable(entries[..count], depth)
  }

  lemma NoneDone(entries: seq<Entry>, ids: map<Identity, nat>, depth: nat, head: seq<byte>, n: nat)
    requires |head| <= MAX_WIRE && n <= MAX_NODES
    ensures EntriesDone(entries, 0, ids, depth, head, head, n, n) && EntryFunctions(entries[..0]) == {}
  {
  }

  lemma AllDone(entries: seq<Entry>, ids: map<Identity, nat>, depth: nat, head: seq<byte>, out: seq<byte>, n: nat, m: nat)
    requires EntriesDone(entries, |entries|, ids, depth, head, out, n, m)
    ensures out == head + EntryBytes(entries, ids) && |out| <= MAX_WIRE && m == n + EntryCount(entries) <= MAX_NODES
    ensures EntriesKnown(entries, ids) && EntriesEncodable(entries, depth)
  {
    assert entries[..|entries|] == entries;
  }

  lemma OneMoreFunctions(entries: seq<Entry>, count: nat)
    requires count < |entries|
    ensures EntryFunctions(entries[..count + 1]) == EntryFunctions(entries[..count]) + EntryFunctions([entries[count]])
  {
    var upTo := entries[..count + 1];
    assert upTo[..count] == entries[..count] && upTo[count..] == [entries[count]];
    EntriesSplit(upTo, count, map[], 0);
  }

  lemma OneMoreEntry(entries: seq<Entry>, count: nat, ids: map<Identity, nat>, ids': map<Identity, nat>, depth: nat,
                     head: seq<byte>, out: seq<byte>, out': seq<byte>, n: nat, m: nat, m': nat)
    requires count < |entries| && EntriesDone(entries, count, ids, depth, head, out, n, m)
    requires forall f :: f in ids ==> f in ids' && ids'[f] == ids[f]
    requires out' == out + EntryBytes([entries[count]], ids') && |out'| <= MAX_WIRE
    requires m' == m + EntryCount([entries[count]]) <= MAX_NODES
    requires EntriesKnown([entries[count]], ids') && EntriesEncodable([entries[count]], depth)
    ensures EntriesDone(entries, count + 1, ids', depth, head, out', n, m')
  {
    var upTo := entries[..count + 1];
    assert upTo[..count] == entries[..count] && upTo[count..] == [entries[count]];
    EntriesSplit(upTo, count, ids', depth);
    EntryBytesStable(entries[..count], ids, ids');
    Regroup(head, EntryBytes(entries[..count], ids'), EntryBytes([entries[count]], ids'));
  }

  lemma EntryRefused(entries: seq<Entry>, count: nat, ids: map<Identity, nat>, depth: nat, head: seq<byte>, out: seq<byte>, n: nat, m: nat)
    requires count < |entries| && EntriesDone(entries, count, ids, depth, head, out, n, m)
    requires !(EntriesEncodable([entries[count]], depth) && m + EntryCount([entries[count]]) <= MAX_NODES
               && |out| + EntrySize([entries[count]]) <= MAX_WIRE)
    ensures !(EntriesEncodable(entries, depth) && n + EntryCount(entries) <= MAX_NODES && |head| + EntrySize(entries) <= MAX_WIRE)
  {
    EntriesSplit(entries, count, ids, depth);
    var rest := entries[count..];
    assert rest[..1] == [entries[count]];
    EntriesSplit(rest, 1, ids, depth);
  }
}
