/** What the managed host makes of the frames that the bridge (native-build/bridge.cpp) sends
    it: which function references it holds. */
module BridgeHost {

  import opened Basics
  import opened BridgeWire

  /** The reference numbers among the next `n` values of a frame. A table is its count and then
      as many keys and values, so no depth has to be kept. */
  function Numbers(s: seq<byte>, n: nat): set<nat>
    decreases |s|
  {
    if n == 0 || s == [] then {}
    else if s[0] <= 2 then Numbers(s[1..], n - 1)
    else if s[0] == 3 then (if |s| < 9 then {} else Numbers(s[9..], n - 1))
    else if s[0] == 7 then (if |s| < 13 then {} else Numbers(s[13..], n - 1))
    else if |s| < 5 then {}
    else
      var x := Read32(s[1..5]);
      if s[0] == 4 then (if |s| - 5 < x then {} else Numbers(s[5 + x..], n - 1))
      else if s[0] == 5 then Numbers(s[5..], n - 1 + 2 * x)
      else if s[0] == 6 then {x} + Numbers(s[5..], n - 1)
      else {}
  }

  /** The reference numbers in a whole frame. */
  function FrameNumbers(frame: seq<byte>): set<nat> {
    if |frame| < 4 then {} else Numbers(frame[4..], Read32(frame[..4]))
  }

  /** What lies between bridge and host, in order: frames to the host, be it for a callback or
      as the result of a call, and references that it gives back. */
  datatype Event = Sent(frame: seq<byte>) | GivenBack(id: nat)

  type Log = seq<Event>

  /** The references that the host holds: those in the frames sent to it, but for those that it
      has given back since. */
  function Held(log: Log): set<nat> {
    if log == [] then {}
    else
      match log[|log| - 1]
      case Sent(frame) => Held(log[..|log| - 1]) + FrameNumbers(frame)
      case GivenBack(id) => Held(log[..|log| - 1]) - {id}
  }

  ghost predicate Retired(log: Log, id: nat) {
    GivenBack(id) in log
  }

  /** A number that has been given back is in no later frame. */
  ghost predicate NeverReused(log: Log) {
    forall i, j :: 0 <= i < j < |log| && log[i].GivenBack? && log[j].Sent? ==> log[i].id !in FrameNumbers(log[j].frame)
  }

  lemma HeldAfter(log: Log, e: Event)
    ensures Held(log + [e]) == if e.Sent? then Held(log) + FrameNumbers(e.frame) else Held(log) - {e.id}
  {
    assert (log + [e])[..|log|] == log;
  }

  /** A frame without numbers that have been given back keeps the promise. */
  lemma OneMoreFrame(log: Log, frame: seq<byte>)
    requires NeverReused(log) && forall id: nat :: Retired(log, id) ==> id !in FrameNumbers(frame)
    ensures NeverReused(log + [Sent(frame)])
    ensures forall id: nat :: Retired(log + [Sent(frame)], id) <==> Retired(log, id)
  {
    hide FrameNumbers;
    var after := log + [Sent(frame)];
    forall i, j | 0 <= i < j < |after| && after[i].GivenBack? && after[j].Sent?
      ensures after[i].id !in FrameNumbers(after[j].frame) {
      if j == |log| { assert Retired(log, after[i].id); }
    }
  }

  lemma OneMoreReturn(log: Log, id: nat)
    requires NeverReused(log)
    ensures NeverReused(log + [GivenBack(id)])
    ensures forall x: nat :: Retired(log + [GivenBack(id)], x) <==> Retired(log, x) || x == id
  {
    hide FrameNumbers;
    assert (log + [GivenBack(id)])[|log|] == GivenBack(id);
  }

  /** The fields of a value fit the wire: four bytes for lengths, counts and numbers. */
  ghost predicate Fits32(v: Value, ids: map<Identity, nat>)
    decreases v
  {
    match v
    case String(bytes) => |bytes| < 0x1_0000_0000
    case Table(entries) => |entries| < 0x1_0000_0000 && EntriesFit32(entries, ids)
    case Function(f) => f in ids && ids[f] < 0x1_0000_0000
    case Unsupported => false
    case _ => true
  }

  ghost predicate EntriesFit32(entries: seq<Entry>, ids: map<Identity, nat>)
    decreases entries
  {
    entries != [] ==>
      assert entries[0].key < entries[0];
      Fits32(entries[0].key, ids) && Fits32(entries[0].value, ids) && EntriesFit32(entries[1..], ids)
  }

  /** What the encoder takes fits, if the references' numbers do. */
  lemma {:induction false} EncodableFits(v: Value, ids: map<Identity, nat>, depth: nat)
    requires Encodable(v, depth) && Known(v, ids) && Size(v) <= MAX_WIRE && Count(v) <= MAX_NODES
    requires forall f :: f in ids ==> ids[f] < 0x1_0000_0000
    ensures Fits32(v, ids)
    decreases v
  {
    if v.Table? {
      EntryCountAtLeast(v.entries);
      EntriesAllFit(v.entries, ids, depth + 1);
    }
  }

  lemma {:induction false} EntriesAllFit(entries: seq<Entry>, ids: map<Identity, nat>, depth: nat)
    requires EntriesEncodable(entries, depth) && EntriesKnown(entries, ids)
    requires EntrySize(entries) <= MAX_WIRE && EntryCount(entries) <= MAX_NODES
    requires forall f :: f in ids ==> ids[f] < 0x1_0000_0000
    ensures EntriesFit32(entries, ids)
    decreases entries
  {
    if entries != [] {
      assert entries[0].key < entries[0];
      EncodableFits(entries[0].key, ids, depth);
      EncodableFits(entries[0].value, ids, depth);
      EntriesAllFit(entries[1..], ids, depth);
    }
  }

  /** The numbers of some functions. */
  ghost function NumbersOf(functions: set<Identity>, ids: map<Identity, nat>): set<nat> {
    set f | f in functions && f in ids :: ids[f]
  }

  lemma NumbersOfBoth(a: set<Identity>, b: set<Identity>, ids: map<Identity, nat>)
    ensures NumbersOf(a + b, ids) == NumbersOf(a, ids) + NumbersOf(b, ids)
  {
  }

  lemma LeafNumbers(v: Value, ids: map<Identity, nat>, rest: seq<byte>, n: nat)
    requires !v.Table? && Fits32(v, ids)
    ensures Numbers(Bytes(v, ids) + rest, n + 1) == NumbersOf(FunctionsIn(v), ids) + Numbers(rest, n)
  {
    var s, size := Bytes(v, ids) + rest, |Bytes(v, ids)|;
    assert s[size..] == rest;
    match v {
      case Function(f) =>
        ReadU32(ids[f]);
        assert s[1..5] == U32(ids[f]);
        assert NumbersOf({f}, ids) == {ids[f]};
      case String(bytes) =>
        ReadU32(|bytes|);
        assert s[1..5] == U32(|bytes|);
      case _ =>
    }
  }

  lemma TableNumbers(count: nat, s: seq<byte>, n: nat)
    requires count < 0x1_0000_0000
    ensures Numbers([5] + U32(count) + s, n + 1) == Numbers(s, n + 2 * count)
  {
    var t := [5] + U32(count) + s;
    ReadU32(count);
    assert t[1..5] == U32(count) && t[5..] == s;
  }

  /** The host finds in a value's bytes the numbers of just the functions in it. */
  lemma {:induction false} ValueNumbers(v: Value, ids: map<Identity, nat>, rest: seq<byte>, n: nat)
    requires Fits32(v, ids)
    ensures Numbers(Bytes(v, ids) + rest, n + 1) == NumbersOf(FunctionsIn(v), ids) + Numbers(rest, n)
    decreases v
  {
    hide Numbers;
    if v.Table? {
      var payload := EntryBytes(v.entries, ids);
      Regroup([5] + U32(|v.entries|), payload, rest);
      TableNumbers(|v.entries|, payload + rest, n);
      EntryNumbers(v.entries, ids, rest, n);
    } else {
      LeafNumbers(v, ids, rest, n);
    }
  }

  lemma {:induction false} EntryNumbers(entries: seq<Entry>, ids: map<Identity, nat>, rest: seq<byte>, n: nat)
    requires EntriesFit32(entries, ids)
    ensures Numbers(EntryBytes(entries, ids) + rest, n + 2 * |entries|) == NumbersOf(EntryFunctions(entries), ids) + Numbers(rest, n)
    decreases entries
  {
    hide Numbers, NumbersOf;
    if entries == [] {
      assert EntryBytes(entries, ids) + rest == rest;
      NoNumbers(ids);
    } else {
      assert entries[0].key < entries[0];
      var e, after := entries[0], EntryBytes(entries[1..], ids) + rest;
      var m := n + 2 * |entries[1..]|;
      EntryBytesGroup(entries, ids, rest);
      ValueNumbers(e.key, ids, Bytes(e.value, ids) + after, m + 1);
      ValueNumbers(e.value, ids, after, m);
      EntryNumbers(entries[1..], ids, rest, n);
      NumbersOfBoth(FunctionsIn(e.key), FunctionsIn(e.value), ids);
      NumbersOfBoth(FunctionsIn(e.key) + FunctionsIn(e.value), EntryFunctions(entries[1..]), ids);
    }
  }

  lemma NoNumbers(ids: map<Identity, nat>)
    ensures NumbersOf({}, ids) == {}
  {
  }

  lemma {:induction false} ValuesNumbers(values: seq<Value>, ids: map<Identity, nat>)
    requires forall v :: v in values ==> Fits32(v, ids)
    ensures Numbers(ValuesBytes(values, ids), |values|) == NumbersOf(ValuesFunctions(values), ids)
  {
    hide Numbers, NumbersOf, Fits32;
    if values == [] {
      NothingToRead();
      NoNumbers(ids);
    } else {
      ValueNumbers(values[0], ids, ValuesBytes(values[1..], ids), |values[1..]|);
      ValuesNumbers(values[1..], ids);
      NumbersOfBoth(FunctionsIn(values[0]), ValuesFunctions(values[1..]), ids);
    }
  }

  lemma NothingToRead()
    ensures Numbers([], 0) == {}
  {
  }

  /** A frame tells the host the numbers of just the functions in its values. */
  lemma SentNumbers(values: seq<Value>, ids: map<Identity, nat>)
    requires FrameFits(values) && (forall v :: v in values ==> Known(v, ids))
    requires forall f :: f in ids ==> ids[f] < 0x1_0000_0000
    ensures FrameNumbers(FrameBytes(values, ids)) == NumbersOf(ValuesFunctions(values), ids)
  {
    hide Encodable, Known, Fits32, Numbers, NumbersOf, Bytes;
    EachSize(values);
    EachCount(values);
    forall v | v in values ensures Fits32(v, ids) { EncodableFits(v, ids, 0); }
    var payload := ValuesBytes(values, ids);
    var frame := U32(|values|) + payload;
    ReadU32(|values|);
    assert frame[..4] == U32(|values|) && frame[4..] == payload;
    ValuesNumbers(values, ids);
  }

  lemma {:induction false} EachCount(values: seq<Value>)
    ensures |values| <= ValuesCount(values) && forall v :: v in values ==> Count(v) <= ValuesCount(values)
  {
    if values != [] { EachCount(values[1..]); }
  }
}
