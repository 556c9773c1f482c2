/** Tables as the Lua heap holds them, which may refer to themselves, and what the bridge's
    encoder (native-build/bridge.cpp) makes of those: its depth limit refuses every cycle. */
module BridgeCycles {

  import opened BridgeWire

  datatype Cell = Plain(value: Value) | Ref(table: nat)

  datatype Slot = Slot(key: Cell, value: Cell)

  type Tables = map<nat, seq<Slot>>

  /** The value that a walk of at most `n` tables below one another meets. */
  function Unfold(h: Tables, c: Cell, n: nat): Value
    decreases n, 0
  {
    match c
    case Plain(v) => v
    case Ref(t) => if n == 0 || t !in h then Unsupported else Table(UnfoldSlots(h, h[t], n - 1))
  }

  function UnfoldSlots(h: Tables, slots: seq<Slot>, n: nat): (r: seq<Entry>)
    ensures |r| == |slots|
    decreases n, |slots| + 1
  {
    if slots == [] then []
    else [Entry(Unfold(h, slots[0].key, n), Unfold(h, slots[0].value, n))] + UnfoldSlots(h, slots[1..], n)
  }

  lemma {:induction false} SlotUnfolds(h: Tables, slots: seq<Slot>, n: nat, i: nat)
    requires i < |slots|
    ensures UnfoldSlots(h, slots, n)[i].value == Unfold(h, slots[i].value, n)
  {
    if i > 0 { SlotUnfolds(h, slots[1..], n, i - 1); }
  }

  lemma {:induction false} EachIsEncodable(entries: seq<Entry>, depth: nat, i: nat)
    requires EntriesEncodable(entries, depth) && i < |entries|
    ensures Encodable(entries[i].value, depth)
  {
    if i > 0 { EachIsEncodable(entries[1..], depth, i - 1); }
  }

  /** What the encoder takes has been met in full: a longer walk meets the same. */
  lemma {:induction false} EncodableIsWhole(h: Tables, c: Cell, n: nat, m: nat, depth: nat)
    requires Encodable(Unfold(h, c, n), depth) && n <= m
    ensures Unfold(h, c, m) == Unfold(h, c, n)
    decreases n, 0
  {
    if c.Ref? { SlotsAreWhole(h, h[c.table], n - 1, m - 1, depth + 1); }
  }

  lemma {:induction false} SlotsAreWhole(h: Tables, slots: seq<Slot>, n: nat, m: nat, depth: nat)
    requires EntriesEncodable(UnfoldSlots(h, slots, n), depth) && n <= m
    ensures UnfoldSlots(h, slots, m) == UnfoldSlots(h, slots, n)
    decreases n, |slots| + 1
  {
    if slots != [] {
      EncodableIsWhole(h, slots[0].key, n, m, depth);
      EncodableIsWhole(h, slots[0].value, n, m, depth);
      SlotsAreWhole(h, slots[1..], n, m, depth);
    }
  }

  ghost predicate RefersTo(h: Tables, t: nat, u: nat) {
    t in h && exists i :: 0 <= i < |h[t]| && h[t][i].value == Ref(u)
  }

  /** Every step of the path is a reference, and the last table refers back to the `j`-th. */
  ghost predicate Loops(h: Tables, path: seq<nat>, j: nat) {
    && j < |path|
    && (forall k :: 0 <= k < |path| ==> RefersTo(h, path[k], Following(path, j, k)))
  }

  function Following(path: seq<nat>, j: nat, k: nat): nat
    requires j < |path| && k < |path|
  {
    if k + 1 < |path| then path[k + 1] else path[j]
  }

  /** A table that leads into a cycle is refused, wherever it stands and however far the walk
      goes: the depth limit is reached first. */
  lemma {:induction false} CyclicIsRefused(h: Tables, path: seq<nat>, j: nat, k: nat, n: nat, depth: nat)
    requires Loops(h, path, j) && k < |path|
    ensures !Encodable(Unfold(h, Ref(path[k]), n), depth)
    decreases Height(depth)
  {
    var v, t := Unfold(h, Ref(path[k]), n), path[k];
    if Encodable(v, depth) {
      assert RefersTo(h, t, Following(path, j, k));
      var i :| 0 <= i < |h[t]| && h[t][i].value == Ref(Following(path, j, k));
      SlotUnfolds(h, h[t], n - 1, i);
      EachIsEncodable(v.entries, depth + 1, i);
      CyclicIsRefused(h, path, j, if k + 1 < |path| then k + 1 else j, n - 1, depth + 1);
    }
  }
}
