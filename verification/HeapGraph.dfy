/** Reachability over a Lua heap dump (tools/heapgraph.py): a breadth-first walk along
    strong references that charges every new object to one node of a tree. */
module HeapGraph {

  import opened Basics

  type Addr = nat

  /** A table entry; a key or value that is not on the heap is `None`. */
  datatype Pair = Pair(key: Option<Addr>, value: Option<Addr>)

  datatype Body =
    | TableObject(pairs: seq<Pair>, array_: seq<Addr>, metatable: Option<Addr>)
    | FunctionObject(env: Addr, proto: Option<Addr>, upvalues: seq<Addr>)
    | UserdataObject(metatable: Option<Addr>)
    | ThreadObject(env: Addr, stack: seq<Addr>, names: seq<Option<string>>)
    | ProtoObject(source: string, constants: seq<Addr>, protos: seq<Addr>)
    | UpvalueObject(target: Option<Addr>)
    | StringObject(data: string)
    | BufferObject

  datatype Object = Object(size: nat, cat: nat, body: Body)

  type Heap = map<Addr, Object>

  /** A reference, and where its target is charged: the names of the child nodes to
      descend to from the node of the object that holds the reference. */
  datatype Edge = Edge(to: Addr, under: seq<string>)

  function Optional(x: Option<Addr>, under: seq<string>): seq<Edge> {
    if x.Some? then [Edge(x.value, under)] else []
  }

  function Each(xs: seq<Addr>, under: seq<string>): (es: seq<Edge>)
    ensures |es| == |xs| && forall i :: 0 <= i < |xs| ==> es[i] == Edge(xs[i], under)
  {
    seq(|xs|, i requires 0 <= i < |xs| => Edge(xs[i], under))
  }

  predicate IsString(heap: Heap, x: Option<Addr>) {
    x.Some? && x.value in heap && heap[x.value].body.StringObject?
  }

  /** `getkey`: the string under a string key, if the first such key has a string. */
  function GetKey(heap: Heap, pairs: seq<Pair>, key: string): Option<string> {
    if pairs == [] then None
    else if IsString(heap, pairs[0].key) && heap[pairs[0].key.value].body.data == key then
      (if IsString(heap, pairs[0].value) then Some(heap[pairs[0].value.value].body.data) else None)
    else GetKey(heap, pairs[1..], key)
  }

  /** Whether the metatable's `__mode` holds this letter. */
  predicate Weak(heap: Heap, metatable: Option<Addr>, letter: char) {
    && metatable.Some? && metatable.value in heap && heap[metatable.value].body.TableObject?
    && var mode := GetKey(heap, heap[metatable.value].body.pairs, "__mode");
       mode.Some? && letter in mode.value
  }

  /** String keys are always strong and name the place of their value. */
  function PairEdges(heap: Heap, p: Pair, weakKey: bool, weakValue: bool): seq<Edge> {
    if IsString(heap, p.key) then
      [Edge(p.key.value, [])] + (if weakValue then [] else Optional(p.value, [heap[p.key.value].body.data]))
    else
      (if weakKey then [] else Optional(p.key, [])) + (if weakValue then [] else Optional(p.value, []))
  }

  function PairsEdges(heap: Heap, pairs: seq<Pair>, weakKey: bool, weakValue: bool): seq<Edge> {
    if pairs == [] then []
    else PairEdges(heap, pairs[0], weakKey, weakValue) + PairsEdges(heap, pairs[1..], weakKey, weakValue)
  }

  /** The stack of a thread: a name that starts with "frame:" opens the node of a frame,
      and the slots after it are charged there, by their own names if they have one. */
  function StackEdges(stack: seq<Addr>, names: seq<Option<string>>, frame: Option<string>): seq<Edge>
    requires names == [] || |names| >= |stack|
  {
    if stack == [] then []
    else
      var name := if names == [] then None else names[0];
      var opens := name.Some? && "frame:" <= name.value;
      var frame := if opens then Some(name.value[6..]) else frame;
      var under := if frame.None? then ["__stack"]
                   else if opens || name.None? || name.value == "" then ["__stack", frame.value]
                   else ["__stack", frame.value, name.value];
      [Edge(stack[0], under)] + StackEdges(stack[1..], if names == [] then [] else names[1..], frame)
  }

  /** All references that the walk follows from an object, in its order. */
  function Edges(heap: Heap, body: Body): seq<Edge>
    requires body.ThreadObject? ==> body.names == [] || |body.names| >= |body.stack|
  {
    match body
    case TableObject(pairs, array_, metatable) =>
      PairsEdges(heap, pairs, Weak(heap, metatable, 'k'), Weak(heap, metatable, 'v')) + Each(array_, []) + Optional(metatable, ["__meta"])
    case FunctionObject(env, proto, upvalues) =>
      var source := if proto.Some? && proto.value in heap && heap[proto.value].body.ProtoObject? then heap[proto.value].body.source else "";
      [Edge(env, ["__env"])] + Optional(proto, ["__proto"]) + Each(upvalues, [source])
    case UserdataObject(metatable) => Optional(metatable, ["__meta"])
    case ThreadObject(env, stack, names) => [Edge(env, ["__env"])] + StackEdges(stack, names, None)
    case ProtoObject(_, constants, protos) => Each(constants, []) + Each(protos, [])
    case UpvalueObject(target) => Optional(target, [])
    case StringObject(_) => []
    case BufferObject => []
  }

  // ---- what an object holds, by its own fields ----

  ghost predicate StringAt(heap: Heap, x: Option<Addr>, text: string) {
    x.Some? && x.value in heap && heap[x.value].body == StringObject(text)
  }

  ghost predicate IsText(heap: Heap, x: Option<Addr>) {
    exists text :: StringAt(heap, x, text)
  }

  /** The first entry of a metatable under `__mode` has a string with this letter. */
  ghost predicate HasMode(heap: Heap, metatable: Option<Addr>, letter: char) {
    && metatable.Some? && metatable.value in heap && heap[metatable.value].body.TableObject?
    && exists i, mode :: ModeAt(heap, heap[metatable.value].body.pairs, i, mode) && letter in mode
  }

  ghost predicate ModeAt(heap: Heap, pairs: seq<Pair>, i: int, mode: string) {
    && 0 <= i < |pairs| && StringAt(heap, pairs[i].key, "__mode") && StringAt(heap, pairs[i].value, mode)
    && forall j :: 0 <= j < i ==> !StringAt(heap, pairs[j].key, "__mode")
  }

  /** The object holds `b` strongly, and `b` is charged under these names from its place on. */
  ghost predicate Holds(heap: Heap, body: Body, b: Addr, under: seq<string>) {
    match body
    case TableObject(pairs, array_, metatable) =>
      || (exists p :: p in pairs && PairHolds(heap, p, HasMode(heap, metatable, 'k'), HasMode(heap, metatable, 'v'), b, under))
      || (b in array_ && under == []) || (metatable == Some(b) && under == ["__meta"])
    case FunctionObject(env, proto, upvalues) =>
      || (b == env && under == ["__env"]) || (proto == Some(b) && under == ["__proto"])
      || (b in upvalues && |under| == 1 && SourceIs(heap, proto, under[0]))
    case UserdataObject(metatable) => metatable == Some(b) && under == ["__meta"]
    case ThreadObject(env, stack, names) =>
      || (b == env && under == ["__env"])
      || (exists i :: 0 <= i < |stack| && SlotHolds(stack, names, i, None, b, under))
    case ProtoObject(_, constants, protos) => (b in constants || b in protos) && under == []
    case UpvalueObject(target) => target == Some(b) && under == []
    case StringObject(_) => false
    case BufferObject => false
  }

  /** A string key is held whatever the mode, and its value under its text. */
  ghost predicate PairHolds(heap: Heap, p: Pair, weakKey: bool, weakValue: bool, b: Addr, under: seq<string>) {
    || (p.key == Some(b) && under == [] && (IsText(heap, p.key) || !weakKey))
    || (p.value == Some(b) && !weakValue
        && if IsText(heap, p.key) then |under| == 1 && StringAt(heap, p.key, under[0]) else under == [])
  }

  /** The source of the function's proto, if the dump gives one. */
  ghost predicate SourceIs(heap: Heap, proto: Option<Addr>, source: string) {
    if proto.Some? && proto.value in heap && heap[proto.value].body.ProtoObject? then source == heap[proto.value].body.source
    else source == ""
  }

  ghost predicate FrameStart(names: seq<Option<string>>, i: int) {
    0 <= i < |names| && names[i].Some? && |names[i].value| >= 6 && names[i].value[..6] == "frame:"
  }

  /** The latest slot up to the `i`-th that opens a frame. */
  ghost predicate LatestFrame(names: seq<Option<string>>, i: int, j: int) {
    j <= i && FrameStart(names, j) && forall k :: j < k <= i ==> !FrameStart(names, k)
  }

  /** A stack slot is charged under the stack, there under the latest frame, if one has been
      opened, and there under its own name, if it has one and opens no frame itself. */
  ghost predicate SlotHolds(stack: seq<Addr>, names: seq<Option<string>>, i: int, frame: Option<string>, b: Addr, under: seq<string>)
    requires 0 <= i < |stack|
  {
    && stack[i] == b
    && (forall j :: LatestFrame(names, i, j) ==> under == ["__stack", names[j].value[6..]] + if j < i then OwnName(names, i) else [])
    && ((forall j :: 0 <= j <= i ==> !FrameStart(names, j)) ==>
          under == if frame.None? then ["__stack"] else ["__stack", frame.value] + OwnName(names, i))
  }

  ghost function OwnName(names: seq<Option<string>>, i: int): seq<string> {
    if 0 <= i < |names| && names[i].Some? && names[i].value != "" then [names[i].value] else []
  }

  /** A dump in which every reference leads to an object. */
  ghost predicate ValidHeap(heap: Heap) {
    forall a :: a in heap ==>
      && (heap[a].body.ThreadObject? ==> heap[a].body.names == [] || |heap[a].body.names| >= |heap[a].body.stack|)
      && forall b, under :: Holds(heap, heap[a].body, b, under) ==> b in heap
  }

  /** There is a strong reference from `a` to `b`. */
  ghost predicate Refers(heap: Heap, a: Addr, b: Addr) {
    a in heap && exists under :: Holds(heap, heap[a].body, b, under)
  }

  // ---- the edges are just what is held ----

  lemma {:induction false} GetKeyIsFirst(heap: Heap, pairs: seq<Pair>, mode: string)
    ensures GetKey(heap, pairs, "__mode") == Some(mode) <==> exists i :: ModeAt(heap, pairs, i, mode)
  {
    if pairs != [] {
      var rest := pairs[1..];
      GetKeyIsFirst(heap, rest, mode);
      if StringAt(heap, pairs[0].key, "__mode") {
        if StringAt(heap, pairs[0].value, mode) { assert ModeAt(heap, pairs, 0, mode); }
      } else {
        if i :| ModeAt(heap, rest, i, mode) {
          forall j | 0 <= j < i + 1 ensures !StringAt(heap, pairs[j].key, "__mode") {
            if j > 0 { assert pairs[j] == rest[j - 1]; }
          }
          assert ModeAt(heap, pairs, i + 1, mode);
        }
        if i :| ModeAt(heap, pairs, i, mode) {
          forall j | 0 <= j < i - 1 ensures !StringAt(heap, rest[j].key, "__mode") { assert pairs[j + 1] == rest[j]; }
          assert ModeAt(heap, rest, i - 1, mode);
        }
      }
    }
  }

  lemma WeakIsMode(heap: Heap, metatable: Option<Addr>, letter: char)
    ensures Weak(heap, metatable, letter) <==> HasMode(heap, metatable, letter)
  {
    hide GetKey, ModeAt;
    if metatable.Some? && metatable.value in heap && heap[metatable.value].body.TableObject? {
      var pairs := heap[metatable.value].body.pairs;
      var found := GetKey(heap, pairs, "__mode");
      if found.Some? { GetKeyIsFirst(heap, pairs, found.value); }
      if i, mode :| ModeAt(heap, pairs, i, mode) && letter in mode { GetKeyIsFirst(heap, pairs, mode); }
    }
  }

  lemma PairEdgesAre(heap: Heap, p: Pair, weakKey: bool, weakValue: bool, e: Edge)
    ensures e in PairEdges(heap, p, weakKey, weakValue) <==> PairHolds(heap, p, weakKey, weakValue, e.to, e.under)
  {
    if IsString(heap, p.key) {
      assert StringAt(heap, p.key, heap[p.key.value].body.data);
      if |e.under| == 1 { assert e.under == [e.under[0]]; }
    }
  }

  lemma {:induction false} PairsEdgesAre(heap: Heap, pairs: seq<Pair>, weakKey: bool, weakValue: bool, e: Edge)
    ensures e in PairsEdges(heap, pairs, weakKey, weakValue)
       <==> exists p :: p in pairs && PairHolds(heap, p, weakKey, weakValue, e.to, e.under)
  {
    hide PairEdges, PairHolds;
    if pairs != [] {
      PairsEdgesAre(heap, pairs[1..], weakKey, weakValue, e);
      PairEdgesAre(heap, pairs[0], weakKey, weakValue, e);
      assert forall p :: p in pairs <==> p == pairs[0] || p in pairs[1..];
    }
  }

  lemma EachAre(xs: seq<Addr>, under: seq<string>, e: Edge)
    ensures e in Each(xs, under) <==> e.to in xs && e.under == under
  {
    var es := Each(xs, under);
    if e.to in xs && e.under == under {
      var i :| 0 <= i < |xs| && xs[i] == e.to;
      assert es[i] in es;
    }
  }

  lemma OptionalAre(x: Option<Addr>, under: seq<string>, e: Edge)
    ensures e in Optional(x, under) <==> x == Some(e.to) && e.under == under
  {
  }

  /** The edges of a stack from a slot on, given the frame that is open there. */
  lemma {:induction false} StackEdgeIs(stack: seq<Addr>, names: seq<Option<string>>, frame: Option<string>, i: nat)
    requires (names == [] || |names| >= |stack|) && i < |stack|
    ensures var es := StackEdges(stack, names, frame);
            |es| == |stack| && SlotHolds(stack, names, i, frame, es[i].to, es[i].under)
  {
    StackLength(stack, names, frame);
    var opens := names != [] && names[0].Some? && "frame:" <= names[0].value;
    assert opens <==> FrameStart(names, 0);
    if i > 0 {
      var names' := if names == [] then [] else names[1..];
      var frame' := if opens then Some(names[0].value[6..]) else frame;
      StackEdgeIs(stack[1..], names', frame', i - 1);
      var e := StackEdges(stack, names, frame)[i];
      assert e == StackEdges(stack[1..], names', frame')[i - 1];
      SlotShifts(stack, names, frame, frame', i, e);
    } else {
      assert forall j :: LatestFrame(names, 0, j) ==> j == 0;
      if opens { assert LatestFrame(names, 0, 0); }
    }
  }

  lemma SlotShifts(stack: seq<Addr>, names: seq<Option<string>>, frame: Option<string>, frame': Option<string>, i: nat, e: Edge)
    requires 0 < i < |stack|
    requires var names' := if names == [] then [] else names[1..]; SlotHolds(stack[1..], names', i - 1, frame', e.to, e.under)
    requires frame' == if FrameStart(names, 0) then Some(names[0].value[6..]) else frame
    ensures SlotHolds(stack, names, i, frame, e.to, e.under)
  {
    var names' := if names == [] then [] else names[1..];
    forall k ensures FrameStart(names, k + 1) <==> FrameStart(names', k) || (k == -1 && FrameStart(names, 0)) {
      if 0 <= k < |names'| { assert names'[k] == names[k + 1]; }
    }
    assert OwnName(names, i) == OwnName(names', i - 1);
    var none := forall j :: 0 <= j <= i - 1 ==> !FrameStart(names', j);
    forall j | LatestFrame(names, i, j)
      ensures e.under == ["__stack", names[j].value[6..]] + if j < i then OwnName(names, i) else []
    {
      if j > 0 {
        forall k | j - 1 < k <= i - 1 ensures !FrameStart(names', k) { assert !FrameStart(names, k + 1); }
        assert FrameStart(names', j - 1) by { assert FrameStart(names, (j - 1) + 1); }
        assert LatestFrame(names', i - 1, j - 1);
      } else {
        forall k | 0 <= k <= i - 1 ensures !FrameStart(names', k) { assert !FrameStart(names, k + 1); }
      }
    }
    if forall j :: 0 <= j <= i ==> !FrameStart(names, j) {
      forall k | 0 <= k <= i - 1 ensures !FrameStart(names', k) { assert !FrameStart(names, k + 1); }
    }
  }

  /** What a slot is charged under is settled. */
  lemma SlotIsSettled(stack: seq<Addr>, names: seq<Option<string>>, i: nat, frame: Option<string>, b: Addr, u: seq<string>, v: seq<string>)
    requires i < |stack| && SlotHolds(stack, names, i, frame, b, u) && SlotHolds(stack, names, i, frame, b, v)
    ensures u == v
  {
    if !forall j :: 0 <= j <= i ==> !FrameStart(names, j) {
      var j := LastFrame(names, i);
    }
  }

  lemma {:induction false} LastFrame(names: seq<Option<string>>, i: nat) returns (j: int)
    requires exists k :: 0 <= k <= i && FrameStart(names, k)
    ensures LatestFrame(names, i, j)
  {
    if FrameStart(names, i) {
      j := i;
    } else {
      j := LastFrame(names, i - 1);
    }
  }

  lemma StackEdgesAre(stack: seq<Addr>, names: seq<Option<string>>, e: Edge)
    requires names == [] || |names| >= |stack|
    ensures e in StackEdges(stack, names, None)
       <==> exists i :: 0 <= i < |stack| && SlotHolds(stack, names, i, None, e.to, e.under)
  {
    hide SlotHolds;
    var es := StackEdges(stack, names, None);
    StackLength(stack, names, None);
    if e in es {
      var i :| 0 <= i < |es| && es[i] == e;
      StackEdgeIs(stack, names, None, i);
    }
    if i :| 0 <= i < |stack| && SlotHolds(stack, names, i, None, e.to, e.under) {
      StackEdgeIs(stack, names, None, i);
      SlotTarget(stack, names, i, None, e.to, e.under);
      SlotTarget(stack, names, i, None, es[i].to, es[i].under);
      SlotIsSettled(stack, names, i, None, e.to, e.under, es[i].under);
      assert es[i] == e;
    }
  }

  lemma SlotTarget(stack: seq<Addr>, names: seq<Option<string>>, i: nat, frame: Option<string>, b: Addr, under: seq<string>)
    requires i < |stack| && SlotHolds(stack, names, i, frame, b, under)
    ensures stack[i] == b
  {
  }

  lemma {:induction false} StackLength(stack: seq<Addr>, names: seq<Option<string>>, frame: Option<string>)
    requires names == [] || |names| >= |stack|
    ensures |StackEdges(stack, names, frame)| == |stack|
  {
    if stack != [] {
      var opens := names != [] && names[0].Some? && "frame:" <= names[0].value;
      StackLength(stack[1..], if names == [] then [] else names[1..], if opens then Some(names[0].value[6..]) else frame);
    }
  }

  /** The edges of an object lead to just what it holds, under the names that go with it. */
  lemma EdgesAreHeld(heap: Heap, body: Body, e: Edge)
    requires body.ThreadObject? ==> body.names == [] || |body.names| >= |body.stack|
    ensures e in Edges(heap, body) <==> Holds(heap, body, e.to, e.under)
  {
    hide Weak, HasMode, PairHolds, PairsEdges, SlotHolds, StackEdges, Each;
    match body {
      case TableObject(pairs, array_, metatable) =>
        WeakIsMode(heap, metatable, 'k');
        WeakIsMode(heap, metatable, 'v');
        PairsEdgesAre(heap, pairs, Weak(heap, metatable, 'k'), Weak(heap, metatable, 'v'), e);
        EachAre(array_, [], e);
        OptionalAre(metatable, ["__meta"], e);
      case FunctionObject(env, proto, upvalues) =>
        var source := if proto.Some? && proto.value in heap && heap[proto.value].body.ProtoObject? then heap[proto.value].body.source else "";
        OptionalAre(proto, ["__proto"], e);
        EachAre(upvalues, [source], e);
        if |e.under| == 1 { assert e.under == [e.under[0]]; }
      case UserdataObject(metatable) => OptionalAre(metatable, ["__meta"], e);
      case ThreadObject(env, stack, names) => StackEdgesAre(stack, names, e);
      case ProtoObject(_, constants, protos) =>
        EachAre(constants, [], e);
        EachAre(protos, [], e);
      case UpvalueObject(target) => OptionalAre(target, [], e);
      case StringObject(_) =>
      case BufferObject =>
    }
  }

  // ---- the walk ----

  type Root = (string, Addr)

  /** One step of a way through the heap, and the names that go with it. */
  datatype Hop = Hop(to: Addr, under: seq<string>)

  /** A way from a root along strong references. */
  ghost predicate IsWay(heap: Heap, roots: seq<Root>, way: seq<Hop>) {
    && way != [] && |way[0].under| == 1 && (way[0].under[0], way[0].to) in roots
    && forall i :: 0 <= i < |way| - 1 ==> Step(heap, way, i)
  }

  ghost predicate Step(heap: Heap, way: seq<Hop>, i: nat)
    requires i + 1 < |way|
  {
    way[i].to in heap && Holds(heap, heap[way[i].to].body, way[i + 1].to, way[i + 1].under)
  }

  ghost predicate EndsAt(way: seq<Hop>, a: Addr) {
    way != [] && way[|way| - 1].to == a
  }

  /** The object can be reached from a root along strong references. */
  ghost predicate Reachable(heap: Heap, roots: seq<Root>, a: Addr) {
    exists way: seq<Hop> :: IsWay(heap, roots, way) && EndsAt(way, a)
  }

  /** The names along a way. */
  ghost function Names(way: seq<Hop>): seq<string> {
    if way == [] then [] else Names(way[..|way| - 1]) + way[|way| - 1].under
  }

  lemma WayOn(heap: Heap, roots: seq<Root>, way: seq<Hop>, b: Addr, under: seq<string>)
    requires IsWay(heap, roots, way) && way[|way| - 1].to in heap
    requires Holds(heap, heap[way[|way| - 1].to].body, b, under)
    ensures IsWay(heap, roots, way + [Hop(b, under)]) && Names(way + [Hop(b, under)]) == Names(way) + under
  {
    hide Holds;
    var longer := way + [Hop(b, under)];
    assert longer[..|way|] == way;
    forall i | 0 <= i < |longer| - 1 ensures Step(heap, longer, i) {
      if i < |way| - 1 { assert Step(heap, way, i); }
    }
  }

  /** A set that holds the roots and all that its members refer to holds all that is reachable. */
  lemma {:induction false} ClosedHoldsPath(heap: Heap, roots: seq<Root>, closed: set<Addr>, way: seq<Hop>, n: nat)
    requires IsWay(heap, roots, way) && n < |way|
    requires (forall r :: r in roots ==> r.1 in closed) && forall a, b :: a in closed && Refers(heap, a, b) ==> b in closed
    ensures way[n].to in closed
    decreases n
  {
    hide Holds;
    if n > 0 {
      ClosedHoldsPath(heap, roots, closed, way, n - 1);
      assert Step(heap, way, n - 1);
      assert Refers(heap, way[n - 1].to, way[n].to);
    }
  }

  datatype Node = Node(name: string, count: nat, size: nat, objects: seq<Addr>, children: map<string, nat>)

  ghost function Sizes(heap: Heap, objects: seq<Addr>): nat
    requires forall a :: a in objects ==> a in heap
  {
    if objects == [] then 0 else heap[objects[0]].size + Sizes(heap, objects[1..])
  }

  ghost function TotalSize(nodes: seq<Node>): nat {
    if nodes == [] then 0 else nodes[0].size + TotalSize(nodes[1..])
  }

  ghost function AllObjects(nodes: seq<Node>): multiset<Addr> {
    if nodes == [] then multiset{} else multiset(nodes[0].objects) + AllObjects(nodes[1..])
  }

  lemma {:induction false} SizesAppend(heap: Heap, objects: seq<Addr>, a: Addr)
    requires (forall b :: b in objects ==> b in heap) && a in heap
    ensures Sizes(heap, objects + [a]) == Sizes(heap, objects) + heap[a].size
  {
    if objects == [] {
      assert objects + [a] == [a];
    } else {
      assert (objects + [a])[1..] == objects[1..] + [a];
      SizesAppend(heap, objects[1..], a);
    }
  }

  /** Charging an object to one node, and adding an empty node. */
  lemma {:induction false} ChargeOne(nodes: seq<Node>, k: nat, node: Node, a: Addr)
    requires k < |nodes| && node.objects == nodes[k].objects + [a] && node.size >= nodes[k].size
    ensures TotalSize(nodes[k := node]) == TotalSize(nodes) + (node.size - nodes[k].size)
    ensures AllObjects(nodes[k := node]) == AllObjects(nodes) + multiset{a}
  {
    if k == 0 {
      assert nodes[0 := node][1..] == nodes[1..];
    } else {
      assert nodes[k := node][1..] == nodes[1..][k - 1 := node];
      ChargeOne(nodes[1..], k - 1, node, a);
    }
  }

  lemma {:induction false} AddEmpty(nodes: seq<Node>, node: Node)
    requires node.objects == [] && node.size == 0
    ensures TotalSize(nodes + [node]) == TotalSize(nodes) && AllObjects(nodes + [node]) == AllObjects(nodes)
  {
    if nodes == [] {
      assert nodes + [node] == [node];
    } else {
      assert (nodes + [node])[1..] == nodes[1..] + [node];
      AddEmpty(nodes[1..], node);
    }
  }

  lemma {:induction false} Relink(nodes: seq<Node>, k: nat, children: map<string, nat>)
    requires k < |nodes|
    ensures TotalSize(nodes[k := nodes[k].(children := children)]) == TotalSize(nodes)
    ensures AllObjects(nodes[k := nodes[k].(children := children)]) == AllObjects(nodes)
  {
    var nodes' := nodes[k := nodes[k].(children := children)];
    if k == 0 {
      assert nodes'[1..] == nodes[1..];
    } else {
      assert nodes'[1..] == nodes[1..][k - 1 := nodes[k].(children := children)];
      Relink(nodes[1..], k - 1, children);
    }
  }

  /** The child is the one child of its parent that has its name. */
  ghost predicate ChildOfParent(nodes: seq<Node>, parents: seq<nat>, c: nat)
    requires c < |nodes| == |parents|
  {
    && parents[c] < c && nodes[c].name in nodes[parents[c]].children
    && nodes[parents[c]].children[nodes[c].name] == c
  }

  ghost predicate ParentOfChildren(nodes: seq<Node>, parents: seq<nat>, p: nat)
    requires p < |nodes| == |parents|
  {
    forall n :: n in nodes[p].children ==>
      var c := nodes[p].children[n];
      p < c < |nodes| && parents[c] == p && nodes[c].name == n
  }

  /** A tree: every node but the root is the child of one earlier node, under its name. */
  ghost predicate IsTree(nodes: seq<Node>, parents: seq<nat>) {
    && |nodes| == |parents| > 0
    && (forall c :: 0 < c < |nodes| ==> ChildOfParent(nodes, parents, c))
    && (forall p :: 0 <= p < |nodes| ==> ParentOfChildren(nodes, parents, p))
  }

  lemma SameShape(nodes: seq<Node>, nodes': seq<Node>, parents: seq<nat>)
    requires IsTree(nodes, parents) && |nodes'| == |nodes|
    requires forall i :: 0 <= i < |nodes| ==> nodes'[i].name == nodes[i].name && nodes'[i].children == nodes[i].children
    ensures IsTree(nodes', parents)
  {
    forall c | 0 < c < |nodes'| ensures ChildOfParent(nodes', parents, c) { assert ChildOfParent(nodes, parents, c); }
    forall p | 0 <= p < |nodes'| ensures ParentOfChildren(nodes', parents, p) { assert ParentOfChildren(nodes, parents, p); }
  }

  /** The tree with a new child of `k`. */
  function WithChild(nodes: seq<Node>, k: nat, name: string): seq<Node>
    requires k < |nodes|
  {
    (nodes + [Node(name, 0, 0, [], map[])])[k := nodes[k].(children := nodes[k].children[name := |nodes|])]
  }

  lemma WithChildIsTree(nodes: seq<Node>, parents: seq<nat>, k: nat, name: string)
    requires IsTree(nodes, parents) && k < |nodes| && name !in nodes[k].children
    ensures IsTree(WithChild(nodes, k, name), parents + [k])
  {
    var nodes', parents' := WithChild(nodes, k, name), parents + [k];
    forall c | 0 < c < |nodes'| ensures ChildOfParent(nodes', parents', c) {
      if c < |nodes| {
        assert ChildOfParent(nodes, parents, c) && ParentOfChildren(nodes, parents, parents[c]);
      }
    }
    forall p | 0 <= p < |nodes'| ensures ParentOfChildren(nodes', parents', p) {
      if p < |nodes| { assert ParentOfChildren(nodes, parents, p); }
    }
  }

  lemma WithChildTotals(nodes: seq<Node>, k: nat, name: string)
    requires k < |nodes|
    ensures TotalSize(WithChild(nodes, k, name)) == TotalSize(nodes) && AllObjects(WithChild(nodes, k, name)) == AllObjects(nodes)
  {
    AddEmpty(nodes, Node(name, 0, 0, [], map[]));
    Relink(nodes + [Node(name, 0, 0, [], map[])], k, nodes[k].children[name := |nodes|]);
  }

  /** Descending from `k` by these names leads to `c`. */
  ghost predicate LeadsTo(nodes: seq<Node>, k: nat, under: seq<string>, c: nat)
    decreases |under|
  {
    && k < |nodes|
    && if under == [] then k == c
       else under[0] in nodes[k].children && LeadsTo(nodes, nodes[k].children[under[0]], under[1..], c)
  }

  /** No node and no child is ever taken away, and nodes that are new count nothing yet. */
  ghost predicate Grown(nodes: seq<Node>, nodes': seq<Node>) {
    && |nodes| <= |nodes'|
    && (forall p, n :: 0 <= p < |nodes| && n in nodes[p].children ==>
         n in nodes'[p].children && nodes'[p].children[n] == nodes[p].children[n])
    && forall p :: 0 <= p < |nodes'| ==> SameOwn(nodes'[p], if p < |nodes| then nodes[p] else Node("", 0, 0, [], map[]))
  }

  ghost predicate SameOwn(n: Node, m: Node) {
    n.count == m.count && n.size == m.size && n.objects == m.objects
  }

  lemma GrownReflexive(nodes: seq<Node>)
    ensures Grown(nodes, nodes)
  {
  }

  lemma GrownTransitive(a: seq<Node>, b: seq<Node>, c: seq<Node>)
    requires Grown(a, b) && Grown(b, c)
    ensures Grown(a, c)
  {
    forall p | 0 <= p < |c| ensures SameOwn(c[p], if p < |a| then a[p] else Node("", 0, 0, [], map[])) {
      assert p < |b| ==> SameOwn(b[p], if p < |a| then a[p] else Node("", 0, 0, [], map[]));
    }
    forall p, n | 0 <= p < |a| && n in a[p].children ensures n in c[p].children && c[p].children[n] == a[p].children[n] {
      assert n in b[p].children;
    }
  }

  /** Every node counts its own objects. */
  ghost predicate OwnCounted(heap: Heap, nodes: seq<Node>) {
    forall k :: 0 <= k < |nodes| ==> NodeCounts(heap, nodes[k])
  }

  ghost predicate NodeCounts(heap: Heap, n: Node) {
    (forall a :: a in n.objects ==> a in heap) && n.size == Sizes(heap, n.objects) && n.count == |n.objects|
  }

  lemma GrownStaysCounted(heap: Heap, nodes: seq<Node>, nodes': seq<Node>)
    requires OwnCounted(heap, nodes) && Grown(nodes, nodes')
    ensures OwnCounted(heap, nodes')
  {
    forall k | 0 <= k < |nodes'| ensures NodeCounts(heap, nodes'[k]) {
      assert SameOwn(nodes'[k], if k < |nodes| then nodes[k] else Node("", 0, 0, [], map[]));
      if k < |nodes| { assert NodeCounts(heap, nodes[k]); }
    }
  }

  lemma RootIsCounted(heap: Heap)
    ensures var nodes := [Node("", 0, 0, [], map[])];
            OwnCounted(heap, nodes) && TotalSize(nodes) == 0 && AllObjects(nodes) == multiset{}
  {
  }

  lemma ChargedIsCounted(heap: Heap, nodes: seq<Node>, k: nat, a: Addr)
    requires OwnCounted(heap, nodes) && k < |nodes| && a in heap
    ensures var n := nodes[k];
            OwnCounted(heap, nodes[k := n.(count := n.count + 1, size := n.size + heap[a].size, objects := n.objects + [a])])
  {
    var n := nodes[k];
    assert NodeCounts(heap, n);
    SizesAppend(heap, n.objects, a);
    var n' := n.(count := n.count + 1, size := n.size + heap[a].size, objects := n.objects + [a]);
    assert NodeCounts(heap, n');
    hide NodeCounts;
    var nodes' := nodes[k := n'];
    forall i | 0 <= i < |nodes'| ensures NodeCounts(heap, nodes'[i]) {
      assert NodeCounts(heap, nodes[i]);
    }
  }

  lemma NoNames(nodes: seq<Node>, k: nat)
    requires k < |nodes|
    ensures LeadsTo(nodes, k, [], k)
  {
  }

  lemma {:induction false} LeadsToStays(nodes: seq<Node>, nodes': seq<Node>, k: nat, under: seq<string>, c: nat)
    requires LeadsTo(nodes, k, under, c) && Grown(nodes, nodes')
    ensures LeadsTo(nodes', k, under, c)
    decreases |under|
  {
    if under != [] { LeadsToStays(nodes, nodes', nodes[k].children[under[0]], under[1..], c); }
  }

  lemma {:induction false} LeadsToAppend(nodes: seq<Node>, k: nat, under: seq<string>, c: nat, name: string)
    requires LeadsTo(nodes, k, under, c) && c < |nodes| && name in nodes[c].children && nodes[c].children[name] < |nodes|
    ensures LeadsTo(nodes, k, under + [name], nodes[c].children[name])
    decreases |under|
  {
    if under == [] {
      assert under + [name] == [name] && [name][1..] == [];
    } else {
      assert (under + [name])[1..] == under[1..] + [name];
      LeadsToAppend(nodes, nodes[k].children[under[0]], under[1..], c, name);
    }
  }

  lemma {:induction false} LeadsToJoined(nodes: seq<Node>, k: nat, x: seq<string>, y: seq<string>, c: nat, d: nat)
    requires LeadsTo(nodes, k, x, c) && LeadsTo(nodes, c, y, d)
    ensures LeadsTo(nodes, k, x + y, d)
    decreases |x|
  {
    if x == [] {
      assert x + y == y;
    } else {
      assert (x + y)[1..] == x[1..] + y;
      LeadsToJoined(nodes, nodes[k].children[x[0]], x[1..], y, c, d);
    }
  }

  /** The tree that the walk charges objects to; node 0 is the root. */
  class Tree {
    var nodes: seq<Node>
    ghost var parents: seq<nat>

    constructor ()
      ensures Valid() && nodes == [Node("", 0, 0, [], map[])] && TotalSize(nodes) == 0 && AllObjects(nodes) == multiset{}
    {
      nodes, parents := [Node("", 0, 0, [], map[])], [0];
    }

    ghost predicate Valid()
      reads this
    {
      IsTree(nodes, parents)
    }

    /** `Node.child`: the child of that name, made if it is not there. */
    method Child(k: nat, name: string) returns (c: nat)
      requires Valid() && k < |nodes|
      modifies this
      ensures Valid() && k < c < |nodes| && |old(nodes)| <= |nodes| && Grown(old(nodes), nodes)
      ensures name in nodes[k].children && nodes[k].children[name] == c
      ensures TotalSize(nodes) == TotalSize(old(nodes)) && AllObjects(nodes) == AllObjects(old(nodes))
    {
      assert ParentOfChildren(nodes, parents, k);
      if name in nodes[k].children {
        return nodes[k].children[name];
      }
      c := |nodes|;
      WithChildTotals(nodes, k, name);
      WithChildIsTree(nodes, parents, k, name);
      nodes, parents := nodes + [Node(name, 0, 0, [], map[])], parents + [k];
      nodes := nodes[k := nodes[k].(children := nodes[k].children[name := c])];
    }

    method Descend(k: nat, under: seq<string>) returns (c: nat)
      requires Valid() && k < |nodes|
      modifies this
      ensures Valid() && c < |nodes| && |old(nodes)| <= |nodes| && Grown(old(nodes), nodes) && LeadsTo(nodes, k, under, c)
      ensures TotalSize(nodes) == TotalSize(old(nodes)) && AllObjects(nodes) == AllObjects(old(nodes))
    {
      hide IsTree, Grown, LeadsTo, TotalSize, AllObjects;
      GrownReflexive(nodes);
      NoNames(nodes, k);
      c := k;
      for i := 0 to |under|
        invariant Valid() && c < |nodes| && |old(nodes)| <= |nodes| && Grown(old(nodes), nodes) && LeadsTo(nodes, k, under[..i], c)
        invariant TotalSize(nodes) == TotalSize(old(nodes)) && AllObjects(nodes) == AllObjects(old(nodes))
      {
        ghost var before, from := nodes, c;
        c := Child(c, under[i]);
        GrownTransitive(old(nodes), before, nodes);
        LeadsToStays(before, nodes, k, under[..i], from);
        LeadsToAppend(nodes, k, under[..i], from, under[i]);
        assert under[..i + 1] == under[..i] + [under[i]];
      }
      assert under[..|under|] == under;
    }

    method Charge(k: nat, a: Addr, size: nat)
      requires Valid() && k < |nodes|
      modifies `nodes
      ensures Valid() && |nodes| == |old(nodes)|
      ensures var n := old(nodes)[k];
              nodes == old(nodes)[k := n.(count := n.count + 1, size := n.size + size, objects := n.objects + [a])]
      ensures TotalSize(nodes) == TotalSize(old(nodes)) + size && AllObjects(nodes) == AllObjects(old(nodes)) + multiset{a}
    {
      hide IsTree, AllObjects, TotalSize;
      var n := nodes[k];
      var n' := n.(count := n.count + 1, size := n.size + size, objects := n.objects + [a]);
      ChargeOne(nodes, k, n', a);
      SameShape(nodes, nodes[k := n'], parents);
      nodes := nodes[k := n'];
    }
  }

  datatype Item = Item(addr: Addr, node: nat)

  /** Whatever a visited object refers to is visited or still in the queue. */
  ghost predicate Frontier(heap: Heap, visited: set<Addr>, queue: seq<Item>, offset: nat)
    requires offset <= |queue|
  {
    forall a, b :: a in visited && Refers(heap, a, b) ==> b in visited || Waiting(queue, offset, b)
  }

  ghost predicate Waiting(queue: seq<Item>, offset: nat, a: Addr)
    requires offset <= |queue|
  {
    exists i :: offset <= i < |queue| && queue[i].addr == a
  }

  /** The node is where the names along some way to the object lead. */
  ghost predicate PlacedAt(heap: Heap, roots: seq<Root>, nodes: seq<Node>, a: Addr, k: nat) {
    exists way: seq<Hop> :: IsWay(heap, roots, way) && EndsAt(way, a) && LeadsTo(nodes, 0, Names(way), k)
  }

  lemma PlacedIsReachable(heap: Heap, roots: seq<Root>, nodes: seq<Node>, a: Addr, k: nat)
    requires PlacedAt(heap, roots, nodes, a, k)
    ensures Reachable(heap, roots, a)
  {
  }

  lemma PlacedStays(heap: Heap, roots: seq<Root>, nodes: seq<Node>, nodes': seq<Node>, a: Addr, k: nat)
    requires PlacedAt(heap, roots, nodes, a, k) && Grown(nodes, nodes')
    ensures PlacedAt(heap, roots, nodes', a, k)
  {
    hide IsWay, Grown, Names, LeadsTo;
    var way: seq<Hop> :| IsWay(heap, roots, way) && EndsAt(way, a) && LeadsTo(nodes, 0, Names(way), k);
    LeadsToStays(nodes, nodes', 0, Names(way), k);
  }

  /** What an object holds has its place below that of the object. */
  lemma PlacedOn(heap: Heap, roots: seq<Root>, nodes: seq<Node>, a: Addr, k: nat, b: Addr, under: seq<string>, c: nat)
    requires PlacedAt(heap, roots, nodes, a, k) && a in heap && Holds(heap, heap[a].body, b, under) && LeadsTo(nodes, k, under, c)
    ensures PlacedAt(heap, roots, nodes, b, c)
  {
    hide IsWay, Names, LeadsTo, Holds;
    var way: seq<Hop> :| IsWay(heap, roots, way) && EndsAt(way, a) && LeadsTo(nodes, 0, Names(way), k);
    WayOn(heap, roots, way, b, under);
    LeadsToJoined(nodes, 0, Names(way), under, k, c);
    assert EndsAt(way + [Hop(b, under)], b);
  }

  lemma RootIsPlaced(heap: Heap, roots: seq<Root>, nodes: seq<Node>, root: Root, k: nat)
    requires root in roots && nodes != [] && root.0 in nodes[0].children && nodes[0].children[root.0] == k < |nodes|
    ensures PlacedAt(heap, roots, nodes, root.1, k)
  {
    var way := [Hop(root.1, [root.0])];
    assert way[..0] == [] && Names(way) == [root.0] && [root.0][1..] == [];
    assert IsWay(heap, roots, way) && EndsAt(way, root.1);
    assert LeadsTo(nodes, 0, Names(way), k);
  }

  /** Everything queued is an object with a place where a way to it leads. */
  ghost predicate QueueFits(heap: Heap, roots: seq<Root>, queue: seq<Item>, nodes: seq<Node>) {
    forall i :: 0 <= i < |queue| ==> ItemFits(heap, roots, queue[i], nodes)
  }

  ghost predicate ItemFits(heap: Heap, roots: seq<Root>, item: Item, nodes: seq<Node>) {
    item.addr in heap && item.node < |nodes| && PlacedAt(heap, roots, nodes, item.addr, item.node)
  }

  lemma QueueStays(heap: Heap, roots: seq<Root>, queue: seq<Item>, nodes: seq<Node>, nodes': seq<Node>)
    requires QueueFits(heap, roots, queue, nodes) && Grown(nodes, nodes')
    ensures QueueFits(heap, roots, queue, nodes')
  {
    assert |nodes| <= |nodes'|;
    hide PlacedAt, Grown;
    forall i | 0 <= i < |queue| ensures ItemFits(heap, roots, queue[i], nodes') {
      assert ItemFits(heap, roots, queue[i], nodes);
      PlacedStays(heap, roots, nodes, nodes', queue[i].addr, queue[i].node);
    }
  }

  /** Every object is charged where a way to it leads. */
  ghost predicate ChargedInPlace(heap: Heap, roots: seq<Root>, nodes: seq<Node>) {
    forall k, a :: 0 <= k < |nodes| && a in nodes[k].objects ==> PlacedAt(heap, roots, nodes, a, k)
  }

  lemma InPlaceStays(heap: Heap, roots: seq<Root>, nodes: seq<Node>, nodes': seq<Node>)
    requires ChargedInPlace(heap, roots, nodes) && Grown(nodes, nodes')
    ensures ChargedInPlace(heap, roots, nodes')
  {
    hide PlacedAt;
    forall k, a | 0 <= k < |nodes'| && a in nodes'[k].objects ensures PlacedAt(heap, roots, nodes', a, k) {
      assert SameOwn(nodes'[k], if k < |nodes| then nodes[k] else Node("", 0, 0, [], map[]));
      PlacedStays(heap, roots, nodes, nodes', a, k);
    }
  }

  lemma InPlaceCharged(heap: Heap, roots: seq<Root>, nodes: seq<Node>, k: nat, node: Node, a: Addr)
    requires ChargedInPlace(heap, roots, nodes) && k < |nodes| && PlacedAt(heap, roots, nodes, a, k)
    requires node.objects == nodes[k].objects + [a] && node.children == nodes[k].children
    ensures ChargedInPlace(heap, roots, nodes[k := node])
    ensures forall b, c :: PlacedAt(heap, roots, nodes, b, c) ==> PlacedAt(heap, roots, nodes[k := node], b, c)
  {
    var nodes' := nodes[k := node];
    forall b, c | PlacedAt(heap, roots, nodes, b, c) ensures PlacedAt(heap, roots, nodes', b, c) {
      hide IsWay, Names;
      var way: seq<Hop> :| IsWay(heap, roots, way) && EndsAt(way, b) && LeadsTo(nodes, 0, Names(way), c);
      SameLinks(nodes, nodes', 0, Names(way), c);
    }
    hide PlacedAt;
    forall m, b | 0 <= m < |nodes'| && b in nodes'[m].objects ensures PlacedAt(heap, roots, nodes', b, m) {}
  }

  lemma {:induction false} SameLinks(nodes: seq<Node>, nodes': seq<Node>, k: nat, under: seq<string>, c: nat)
    requires LeadsTo(nodes, k, under, c) && |nodes'| == |nodes| && forall i :: 0 <= i < |nodes| ==> nodes'[i].children == nodes[i].children
    ensures LeadsTo(nodes', k, under, c)
    decreases |under|
  {
    if under != [] { SameLinks(nodes, nodes', nodes[k].children[under[0]], under[1..], c); }
  }

  /** The objects of the old dump, if there is one, are not charged. */
  predicate IsNew(old_: Option<set<Addr>>, a: Addr) {
    old_.None? || a !in old_.value
  }

  /** The objects charged so far: the new ones among those visited, each one once. */
  ghost predicate Charges(heap: Heap, old_: Option<set<Addr>>, visited: set<Addr>, charged: seq<Addr>, nodes: seq<Node>) {
    && NoDuplicates(charged) && (forall a :: a in charged ==> a in heap)
    && (forall a :: a in charged <==> a in visited && !(old_.Some? && a in old_.value))
    && AllObjects(nodes) == multiset(charged) && TotalSize(nodes) == Sizes(heap, charged)
    && OwnCounted(heap, nodes)
  }

  lemma ChargesAreCounted(heap: Heap, old_: Option<set<Addr>>, visited: set<Addr>, charged: seq<Addr>, nodes: seq<Node>)
    requires Charges(heap, old_, visited, charged, nodes)
    ensures OwnCounted(heap, nodes)
  {
  }

  lemma ChargeNext(heap: Heap, old_: Option<set<Addr>>, visited: set<Addr>, charged: seq<Addr>, nodes: seq<Node>, nodes': seq<Node>, a: Addr)
    requires Charges(heap, old_, visited, charged, nodes) && a in heap && a !in visited
    requires AllObjects(nodes') == AllObjects(nodes) + (if IsNew(old_, a) then multiset{a} else multiset{})
    requires TotalSize(nodes') == TotalSize(nodes) + (if IsNew(old_, a) then heap[a].size else 0) && OwnCounted(heap, nodes')
    ensures Charges(heap, old_, visited + {a}, if IsNew(old_, a) then charged + [a] else charged, nodes')
  {
    hide AllObjects, TotalSize, Sizes, OwnCounted;
    if IsNew(old_, a) {
      assert a !in charged;
      SizesAppend(heap, charged, a);
      assert multiset(charged + [a]) == multiset(charged) + multiset{a};
    }
  }

  /** The queued item is the edge's target, at the place that the edge names. */
  ghost predicate Placed(nodes: seq<Node>, k: nat, e: Edge, item: Item) {
    item.addr == e.to && LeadsTo(nodes, k, e.under, item.node)
  }

  lemma EdgesOf(heap: Heap, a: Addr)
    requires ValidHeap(heap) && a in heap
    ensures var edges := Edges(heap, heap[a].body);
            && (forall i :: 0 <= i < |edges| ==> edges[i].to in heap && Holds(heap, heap[a].body, edges[i].to, edges[i].under))
            && forall b, under :: Holds(heap, heap[a].body, b, under) ==> Among(edges, b, under)
  {
    hide Holds, Edges;
    var edges := Edges(heap, heap[a].body);
    forall i | 0 <= i < |edges| ensures edges[i].to in heap && Holds(heap, heap[a].body, edges[i].to, edges[i].under) {
      assert edges[i] in edges;
      EdgesAreHeld(heap, heap[a].body, edges[i]);
    }
    forall b, under | Holds(heap, heap[a].body, b, under) ensures Among(edges, b, under) {
      EdgesAreHeld(heap, heap[a].body, Edge(b, under));
      var i :| 0 <= i < |edges| && edges[i] == Edge(b, under);
    }
  }

  ghost predicate Among(edges: seq<Edge>, b: Addr, under: seq<string>) {
    exists i :: 0 <= i < |edges| && edges[i] == Edge(b, under)
  }

  /** The object is queued, at the place that these names lead to. */
  ghost predicate QueuedUnder(nodes: seq<Node>, k: nat, queue: seq<Item>, from: nat, b: Addr, under: seq<string>)
    requires from <= |queue|
  {
    exists i :: from <= i < |queue| && queue[i].addr == b && LeadsTo(nodes, k, under, queue[i].node)
  }

  /** Queues just what one object holds, each with its place in the tree; a thread has a node
      for its stack even if the stack is empty. */
  method Enqueue(heap: Heap, ghost roots: seq<Root>, a: Addr, k: nat, tree: Tree, queue: seq<Item>) returns (queue': seq<Item>)
    requires ValidHeap(heap) && a in heap
    requires tree.Valid() && k < |tree.nodes| && QueueFits(heap, roots, queue, tree.nodes)
    requires PlacedAt(heap, roots, tree.nodes, a, k)
    modifies tree
    ensures tree.Valid() && |tree.nodes| >= |old(tree.nodes)| && Grown(old(tree.nodes), tree.nodes)
    ensures heap[a].body.ThreadObject? ==> "__stack" in tree.nodes[k].children
    ensures TotalSize(tree.nodes) == TotalSize(old(tree.nodes)) && AllObjects(tree.nodes) == AllObjects(old(tree.nodes))
    ensures queue <= queue' && QueueFits(heap, roots, queue', tree.nodes)
    ensures forall b, under :: Holds(heap, heap[a].body, b, under) ==> QueuedUnder(tree.nodes, k, queue', |queue|, b, under)
    ensures forall b :: Waiting(queue', |queue|, b) <==> Refers(heap, a, b)
  {
    hide Edges, Holds, PlacedAt, IsTree, AllObjects, TotalSize, Grown, LeadsTo;
    EdgesOf(heap, a);
    GrownReflexive(tree.nodes);
    queue' := queue;
    var edges := Edges(heap, heap[a].body);
    for i := 0 to |edges|
      invariant tree.Valid() && |tree.nodes| >= |old(tree.nodes)| && Grown(old(tree.nodes), tree.nodes)
      invariant TotalSize(tree.nodes) == TotalSize(old(tree.nodes)) && AllObjects(tree.nodes) == AllObjects(old(tree.nodes))
      invariant |queue'| == |queue| + i && queue'[..|queue|] == queue && QueueFits(heap, roots, queue', tree.nodes)
      invariant PlacedAt(heap, roots, tree.nodes, a, k)
      invariant forall j :: 0 <= j < i ==> Placed(tree.nodes, k, edges[j], queue'[|queue| + j])
    {
      ghost var before := tree.nodes;
      var node := tree.Descend(k, edges[i].under);
      GrownTransitive(old(tree.nodes), before, tree.nodes);
      QueueStays(heap, roots, queue', before, tree.nodes);
      PlacedStays(heap, roots, before, tree.nodes, a, k);
      PlacedOn(heap, roots, tree.nodes, a, k, edges[i].to, edges[i].under, node);
      EdgesStayPlaced(before, tree.nodes, k, edges[..i], queue'[|queue|..]);
      queue' := queue' + [Item(edges[i].to, node)];
    }
    if heap[a].body.ThreadObject? {
      ghost var before := tree.nodes;
      var stackNode := tree.Child(k, "__stack");
      GrownTransitive(old(tree.nodes), before, tree.nodes);
      QueueStays(heap, roots, queue', before, tree.nodes);
      EdgesStayPlaced(before, tree.nodes, k, edges, queue'[|queue|..]);
    }
    forall b, under | Holds(heap, heap[a].body, b, under) ensures QueuedUnder(tree.nodes, k, queue', |queue|, b, under) {
      assert Among(edges, b, under);
      var j :| 0 <= j < |edges| && edges[j] == Edge(b, under);
      assert Placed(tree.nodes, k, edges[j], queue'[|queue| + j]);
    }
    forall b ensures Waiting(queue', |queue|, b) <==> Refers(heap, a, b) {
      if i :| |queue| <= i < |queue'| && queue'[i].addr == b {
        assert Placed(tree.nodes, k, edges[i - |queue|], queue'[|queue| + (i - |queue|)]);
      }
      if under :| Holds(heap, heap[a].body, b, under) { assert QueuedUnder(tree.nodes, k, queue', |queue|, b, under); }
    }
  }

  lemma EdgesStayPlaced(nodes: seq<Node>, nodes': seq<Node>, k: nat, edges: seq<Edge>, items: seq<Item>)
    requires Grown(nodes, nodes') && |edges| == |items| && forall j :: 0 <= j < |edges| ==> Placed(nodes, k, edges[j], items[j])
    ensures forall j :: 0 <= j < |edges| ==> Placed(nodes', k, edges[j], items[j])
  {
    hide Grown, LeadsTo;
    forall j | 0 <= j < |edges| ensures Placed(nodes', k, edges[j], items[j]) {
      assert Placed(nodes, k, edges[j], items[j]);
      LeadsToStays(nodes, nodes', k, edges[j].under, items[j].node);
    }
  }

  /** The roots come first, each under a node of its own name. */
  method QueueRoots(heap: Heap, roots: seq<Root>, tree: Tree) returns (queue: seq<Item>)
    requires ValidHeap(heap) && (forall r :: r in roots ==> r.1 in heap)
    requires tree.Valid() && tree.nodes == [Node("", 0, 0, [], map[])]
    modifies tree
    ensures tree.Valid() && TotalSize(tree.nodes) == 0 && AllObjects(tree.nodes) == multiset{} && OwnCounted(heap, tree.nodes)
    ensures QueueFits(heap, roots, queue, tree.nodes) && ChargedInPlace(heap, roots, tree.nodes)
    ensures forall r :: r in roots ==> Waiting(queue, 0, r.1)
  {
    assert OwnCounted(heap, tree.nodes) && TotalSize(tree.nodes) == 0 && AllObjects(tree.nodes) == multiset{} by { RootIsCounted(heap); }
    assert ChargedInPlace(heap, roots, tree.nodes);
    hide ValidHeap, PlacedAt, ChargedInPlace, IsTree, AllObjects, TotalSize, Grown, OwnCounted;
    queue := [];
    for i := 0 to |roots|
      invariant tree.Valid() && |queue| == i && |tree.nodes| > 0 && QueueFits(heap, roots, queue, tree.nodes)
      invariant ChargedInPlace(heap, roots, tree.nodes) && forall j :: 0 <= j < i ==> queue[j].addr == roots[j].1
      invariant TotalSize(tree.nodes) == 0 && AllObjects(tree.nodes) == multiset{} && OwnCounted(heap, tree.nodes)
    {
      ghost var before := tree.nodes;
      var node := tree.Child(0, roots[i].0);
      GrownStaysCounted(heap, before, tree.nodes);
      QueueStays(heap, roots, queue, before, tree.nodes);
      InPlaceStays(heap, roots, before, tree.nodes);
      assert roots[i] in roots;
      RootIsPlaced(heap, roots, tree.nodes, roots[i], node);
      queue := queue + [Item(roots[i].1, node)];
    }
    forall r | r in roots ensures Waiting(queue, 0, r.1) {
      var j :| 0 <= j < |roots| && roots[j] == r;
      assert queue[j].addr == r.1;
    }
  }

  /** The walk visits exactly the objects that can be reached from the roots, and charges
      every new one of them to exactly one node, where the names along some way to it lead: the
      tree's total is their total size. */
  method Walk(heap: Heap, roots: seq<Root>, old_: Option<set<Addr>>)
    returns (tree: Tree, visited: set<Addr>, ghost charged: seq<Addr>)
    requires ValidHeap(heap) && forall r :: r in roots ==> r.1 in heap
    ensures fresh(tree) && tree.Valid()
    ensures forall a :: a in visited <==> Reachable(heap, roots, a)
    ensures Charges(heap, old_, visited, charged, tree.nodes) && ChargedInPlace(heap, roots, tree.nodes)
  {
    hide ValidHeap, Edges, Refers, Holds, Reachable, PlacedAt, ChargedInPlace, IsTree, AllObjects, TotalSize, Sizes, NoDuplicates,
         Frontier, Grown, OwnCounted, Charges;
    tree := new Tree();
    var queue := QueueRoots(heap, roots, tree);
    var offset := 0;
    visited, charged := {}, [];
    NothingVisited(heap, old_, queue, tree.nodes);
    while offset < |queue|
      invariant 0 <= offset <= |queue| && tree.Valid() && fresh(tree) && visited <= heap.Keys
      invariant QueueFits(heap, roots, queue, tree.nodes) && ChargedInPlace(heap, roots, tree.nodes)
      invariant forall a :: a in visited ==> Reachable(heap, roots, a)
      invariant forall r :: r in roots ==> r.1 in visited || Waiting(queue, offset, r.1)
      invariant Frontier(heap, visited, queue, offset)
      invariant Charges(heap, old_, visited, charged, tree.nodes)
      decreases heap.Keys - visited, |queue| - offset
    {
      var Item(a, node) := queue[offset];
      assert ItemFits(heap, roots, queue[offset], tree.nodes);
      ghost var before := queue;
      offset := offset + 1;
      if a !in visited {
        ghost var nodes := tree.nodes;
        ChargesAreCounted(heap, old_, visited, charged, nodes);
        PlacedIsReachable(heap, roots, nodes, a, node);
        if IsNew(old_, a) {
          ChargeAt(heap, roots, tree, node, a, queue);
        }
        ghost var charging := tree.nodes;
        queue := Enqueue(heap, roots, a, node, tree, queue);
        GrownStaysCounted(heap, charging, tree.nodes);
        InPlaceStays(heap, roots, charging, tree.nodes);
        ChargeNext(heap, old_, visited, charged, nodes, tree.nodes, a);
        if IsNew(old_, a) { charged := charged + [a]; }
        FrontierStep(heap, visited, before, offset - 1, queue, a);
        visited := visited + {a};
      } else {
        FrontierSkip(heap, visited, queue, offset - 1);
      }
    }
    FinishedVisitsAll(heap, roots, visited, queue, offset);
  }

  /** Charges a new object to its node. */
  method ChargeAt(heap: Heap, ghost roots: seq<Root>, tree: Tree, k: nat, a: Addr, ghost queue: seq<Item>)
    requires tree.Valid() && k < |tree.nodes| && a in heap && PlacedAt(heap, roots, tree.nodes, a, k)
    requires OwnCounted(heap, tree.nodes) && ChargedInPlace(heap, roots, tree.nodes) && QueueFits(heap, roots, queue, tree.nodes)
    modifies tree`nodes
    ensures tree.Valid() && |tree.nodes| == |old(tree.nodes)| && PlacedAt(heap, roots, tree.nodes, a, k)
    ensures OwnCounted(heap, tree.nodes) && ChargedInPlace(heap, roots, tree.nodes) && QueueFits(heap, roots, queue, tree.nodes)
    ensures TotalSize(tree.nodes) == TotalSize(old(tree.nodes)) + heap[a].size
    ensures AllObjects(tree.nodes) == AllObjects(old(tree.nodes)) + multiset{a}
  {
    hide PlacedAt, ChargedInPlace, IsTree, AllObjects, TotalSize, OwnCounted;
    ghost var nodes, n := tree.nodes, tree.nodes[k];
    ChargedIsCounted(heap, nodes, k, a);
    InPlaceCharged(heap, roots, nodes, k, n.(count := n.count + 1, size := n.size + heap[a].size, objects := n.objects + [a]), a);
    tree.Charge(k, a, heap[a].size);
    forall i | 0 <= i < |queue| ensures ItemFits(heap, roots, queue[i], tree.nodes) { assert ItemFits(heap, roots, queue[i], nodes); }
  }

  lemma NothingVisited(heap: Heap, old_: Option<set<Addr>>, queue: seq<Item>, nodes: seq<Node>)
    requires AllObjects(nodes) == multiset{} && TotalSize(nodes) == 0 && OwnCounted(heap, nodes)
    ensures Frontier(heap, {}, queue, 0) && Charges(heap, old_, {}, [], nodes)
  {
  }

  lemma FinishedVisitsAll(heap: Heap, roots: seq<Root>, visited: set<Addr>, queue: seq<Item>, offset: nat)
    requires offset == |queue| && Frontier(heap, visited, queue, offset)
    requires forall r :: r in roots ==> r.1 in visited || Waiting(queue, offset, r.1)
    ensures forall a :: Reachable(heap, roots, a) ==> a in visited
  {
    hide Refers;
    forall a | Reachable(heap, roots, a) ensures a in visited {
      var way: seq<Hop> :| IsWay(heap, roots, way) && EndsAt(way, a);
      ClosedHoldsPath(heap, roots, visited, way, |way| - 1);
    }
  }

  lemma WaitingStays(queue: seq<Item>, offset: nat, queue': seq<Item>, a: Addr)
    requires offset < |queue| && queue <= queue' && Waiting(queue, offset, a) && a != queue[offset].addr
    ensures Waiting(queue', offset + 1, a)
  {
    var i :| offset <= i < |queue| && queue[i].addr == a;
    assert queue'[i].addr == a;
  }

  lemma FrontierStep(heap: Heap, visited: set<Addr>, queue: seq<Item>, offset: nat, queue': seq<Item>, a: Addr)
    requires offset < |queue| && queue <= queue' && a == queue[offset].addr
    requires Frontier(heap, visited, queue, offset)
    requires forall b :: Refers(heap, a, b) ==> Waiting(queue', |queue|, b)
    ensures Frontier(heap, visited + {a}, queue', offset + 1)
    ensures forall b :: Waiting(queue, offset, b) ==> b == a || Waiting(queue', offset + 1, b)
  {
    forall b | Waiting(queue, offset, b) ensures b == a || Waiting(queue', offset + 1, b) {
      if b != a { WaitingStays(queue, offset, queue', b); }
    }
    forall x, b | x in visited + {a} && Refers(heap, x, b) ensures b in visited + {a} || Waiting(queue', offset + 1, b) {
      if x == a {
        var i :| |queue| <= i < |queue'| && queue'[i].addr == b;
      } else {
        assert b in visited || Waiting(queue, offset, b);
      }
    }
  }

  lemma FrontierSkip(heap: Heap, visited: set<Addr>, queue: seq<Item>, offset: nat)
    requires offset < |queue| && queue[offset].addr in visited
    requires Frontier(heap, visited, queue, offset)
    ensures Frontier(heap, visited, queue, offset + 1)
    ensures forall b :: Waiting(queue, offset, b) ==> b in visited || Waiting(queue, offset + 1, b)
  {
    forall b | Waiting(queue, offset, b) ensures b in visited || Waiting(queue, offset + 1, b) {
      if b != queue[offset].addr { WaitingStays(queue, offset, queue, b); }
    }
    forall x, b | x in visited && Refers(heap, x, b) ensures b in visited || Waiting(queue, offset + 1, b) {
      assert b in visited || Waiting(queue, offset, b);
    }
  }
}
