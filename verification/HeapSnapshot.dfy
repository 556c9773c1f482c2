/** From a Lua heap dump to the flat arrays of a DevTools heap snapshot (tools/heapsnapshot.py). */
module HeapSnapshot {

  import opened Basics

  type Addr = string

  /** Objects of the dump; what a JSON object may lack is optional. */
  datatype Body =
    | Table(pairs: seq<Pair>, elements: seq<Addr>, metatable: Option<Addr>)
    | Thread(place: Option<string>, env: Option<Addr>, stack: seq<Addr>)
    | Function(name: Option<string>, env: Option<Addr>, proto: Option<Addr>, upvalues: seq<Addr>)
    | Upvalue(target: Option<Addr>)
    | Userdata(metatable: Option<Addr>)
    | Proto(place: Option<string>, constants: seq<Addr>, protos: seq<Addr>)
    | Text(data: string)
    | Buffer

  datatype Pair = Pair(key: Option<Addr>, value: Option<Addr>)

  datatype Object = Object(size: nat, body: Body)

  /** The dump: its objects, the order in which it lists them, and two roots. */
  datatype Dump = Dump(objects: map<Addr, Object>, order: seq<Addr>, registry: Addr, mainThread: Addr)

  function TypeName(b: Body): string {
    match b
    case Table(_, _, _) => "table"
    case Thread(_, _, _) => "thread"
    case Function(_, _, _, _) => "function"
    case Upvalue(_) => "upvalue"
    case Userdata(_) => "userdata"
    case Proto(_, _, _) => "proto"
    case Text(_) => "string"
    case Buffer => "buffer"
  }

  // ---- what an object refers to ----

  const CONTEXT: nat := 0
  const ELEMENT: nat := 1
  const PROPERTY: nat := 2
  const INTERNAL: nat := 3

  /** An edge is named, or numbered if it is an array element. */
  datatype Name = Named(text: string) | At(index: nat)

  datatype Edge<T> = Edge(kind: nat, name: Name, to: T)

  function Opt(kind: nat, what: string, a: Option<Addr>): seq<Edge<Addr>> {
    if a.Some? then [Edge(kind, Named(what + " (" + a.value + ")"), a.value)] else []
  }

  /** The edges of a table entry; a key that is a string names the edge to its value. */
  function PairEdges(d: Dump, p: Pair): seq<Edge<Addr>>
    requires p.key.Some? ==> p.key.value in d.objects
  {
    if p.key.None? && p.value.None? then []
    else if p.key.None? then [Edge(PROPERTY, Named("(Luau table key value type)"), p.value.value)]
    else
      var key := p.key.value;
      var body := d.objects[key].body;
      var toKey := Edge(INTERNAL, Named("Luau table key ref: " + TypeName(body) + " (" + key + ")"), key);
      if p.value.None? then [toKey]
      else if body.Text? then [Edge(PROPERTY, Named(body.data), p.value.value), toKey]
      else [Edge(PROPERTY, Named(TypeName(body) + " (" + key + ")"), p.value.value), toKey]
  }

  function AllPairEdges(d: Dump, ps: seq<Pair>): seq<Edge<Addr>>
    requires KeysThere(d, ps)
  {
    if ps == [] then []
    else AllPairEdges(d, ps[..|ps| - 1]) + PairEdges(d, ps[|ps| - 1])
  }

  predicate KeysThere(d: Dump, ps: seq<Pair>) {
    forall i :: 0 <= i < |ps| && ps[i].key.Some? ==> ps[i].key.value in d.objects
  }

  /** What a list of references is: each kind names its edges in its own way. */
  datatype Listing = Elements | Stack | Upvalues | Plain

  function Listed(l: Listing, i: nat, x: Addr): Edge<Addr> {
    match l
    case Elements => Edge(ELEMENT, At(i), x)
    case Stack => Edge(CONTEXT, Named("callstack[" + Decimal(i) + "]"), x)
    case Upvalues => Edge(CONTEXT, Named("up value (" + x + ")"), x)
    case Plain => Edge(CONTEXT, Named(x), x)
  }

  function ListEdges(l: Listing, xs: seq<Addr>): (r: seq<Edge<Addr>>)
    ensures |r| == |xs|
  {
    if xs == [] then [] else ListEdges(l, xs[..|xs| - 1]) + [Listed(l, |xs| - 1, xs[|xs| - 1])]
  }

  /** All edges out of an object, in order. */
  function OutEdges(d: Dump, b: Body): seq<Edge<Addr>>
    requires b.Table? ==> KeysThere(d, b.pairs)
  {
    match b
    case Table(pairs, elements, metatable) => AllPairEdges(d, pairs) + ListEdges(Elements, elements) + Opt(INTERNAL, "metatable", metatable)
    case Thread(_, env, stack) => Opt(CONTEXT, "env", env) + ListEdges(Stack, stack)
    case Function(_, env, proto, upvalues) => Opt(CONTEXT, "env", env) + Opt(CONTEXT, "proto", proto) + ListEdges(Upvalues, upvalues)
    case Upvalue(target) => Opt(CONTEXT, "upvalue object", target)
    case Userdata(metatable) => Opt(INTERNAL, "metatable", metatable)
    case Proto(_, constants, protos) => ListEdges(Plain, constants) + ListEdges(Plain, protos)
    case Text(_) => []
    case Buffer => []
  }

  // ---- the same, said from the dump's fields ----

  ghost predicate TypeIs(b: Body, text: string) {
    && (b.Table? ==> text == "table") && (b.Thread? ==> text == "thread") && (b.Function? ==> text == "function")
    && (b.Upvalue? ==> text == "upvalue") && (b.Userdata? ==> text == "userdata") && (b.Proto? ==> text == "proto")
    && (b.Text? ==> text == "string") && (b.Buffer? ==> text == "buffer")
  }

  /** An edge to one thing that an object may have, named after it and its address. */
  ghost predicate ShowsOne(what: string, a: Option<Addr>, kind: nat, e: Edge<Addr>) {
    a == Some(e.to) && e.kind == kind && e.name == Named(what + " (" + e.to + ")")
  }

  /** A table entry: an internal edge to its key, and a property edge to its value, with the
      string as its name if the key is one. */
  ghost predicate ShowsPair(d: Dump, p: Pair, e: Edge<Addr>) {
    || (p.key == Some(e.to) && e.kind == 3 && exists kind :: ToKey(d, e.to, kind, e.name))
    || (p.value == Some(e.to) && e.kind == 2 && NameOfValue(d, p.key, e.name))
  }

  ghost predicate ToKey(d: Dump, key: Addr, type_: string, name: Name) {
    key in d.objects && TypeIs(d.objects[key].body, type_) && name == Named("Luau table key ref: " + type_ + " (" + key + ")")
  }

  ghost predicate NameOfValue(d: Dump, key: Option<Addr>, name: Name) {
    if key.None? then name == Named("(Luau table key value type)")
    else
      && key.value in d.objects
      && var body := d.objects[key.value].body;
         if body.Text? then name == Named(body.data)
         else exists type_ :: TypeIs(body, type_) && name == Named(type_ + " (" + key.value + ")")
  }

  ghost predicate ShowsFrame(stack: seq<Addr>, i: nat, e: Edge<Addr>) {
    i < |stack| && stack[i] == e.to && e.kind == 0 && e.name == Named("callstack[" + Decimal(i) + "]")
  }

  /** The object refers to `e.to`, and `e` says how. */
  ghost predicate Shows(d: Dump, b: Body, e: Edge<Addr>) {
    match b
    case Table(pairs, elements, metatable) =>
      || (exists p :: p in pairs && ShowsPair(d, p, e))
      || (e.kind == 1 && e.name.At? && e.name.index < |elements| && elements[e.name.index] == e.to)
      || ShowsOne("metatable", metatable, 3, e)
    case Thread(_, env, stack) => ShowsOne("env", env, 0, e) || exists i :: ShowsFrame(stack, i, e)
    case Function(_, env, proto, upvalues) =>
      || ShowsOne("env", env, 0, e) || ShowsOne("proto", proto, 0, e)
      || (e.to in upvalues && e.kind == 0 && e.name == Named("up value (" + e.to + ")"))
    case Upvalue(target) => ShowsOne("upvalue object", target, 0, e)
    case Userdata(metatable) => ShowsOne("metatable", metatable, 3, e)
    case Proto(_, constants, protos) => (e.to in constants || e.to in protos) && e.kind == 0 && e.name == Named(e.to)
    case Text(_) => false
    case Buffer => false
  }

  ghost function Keys(ps: seq<Pair>): set<nat> {
    set i | 0 <= i < |ps| && ps[i].key.Some?
  }

  ghost function Values(ps: seq<Pair>): set<nat> {
    set i | 0 <= i < |ps| && ps[i].value.Some?
  }

  ghost function One(a: Option<Addr>): nat { if a.Some? then 1 else 0 }

  /** How often an object refers to anything. */
  ghost function References(b: Body): nat {
    match b
    case Table(pairs, elements, metatable) => |Keys(pairs)| + |Values(pairs)| + |elements| + One(metatable)
    case Thread(_, env, stack) => One(env) + |stack|
    case Function(_, env, proto, upvalues) => One(env) + One(proto) + |upvalues|
    case Upvalue(target) => One(target)
    case Userdata(metatable) => One(metatable)
    case Proto(_, constants, protos) => |constants| + |protos|
    case Text(_) => 0
    case Buffer => 0
  }

  lemma PairEdgesShow(d: Dump, p: Pair, e: Edge<Addr>)
    requires p.key.Some? ==> p.key.value in d.objects
    ensures e in PairEdges(d, p) <==> ShowsPair(d, p, e)
    ensures |PairEdges(d, p)| == One(p.key) + One(p.value)
  {
    if p.key.Some? {
      var body := d.objects[p.key.value].body;
      assert forall t :: TypeIs(body, t) <==> t == TypeName(body);
      if p.key.value == e.to { assert ToKey(d, e.to, TypeName(body), e.name) <==> exists kind :: ToKey(d, e.to, kind, e.name); }
    }
  }

  lemma OneMoreOf(ps: seq<Pair>)
    requires ps != []
    ensures var init, last := ps[..|ps| - 1], ps[|ps| - 1];
            |Keys(ps)| == |Keys(init)| + One(last.key) && |Values(ps)| == |Values(init)| + One(last.value)
  {
    var n, init, last := |ps| - 1, ps[..|ps| - 1], ps[|ps| - 1];
    assert Keys(ps) == Keys(init) + (if last.key.Some? then {n} else {});
    assert Values(ps) == Values(init) + (if last.value.Some? then {n} else {});
  }

  lemma {:induction false} AllPairEdgesShow(d: Dump, ps: seq<Pair>, e: Edge<Addr>)
    requires KeysThere(d, ps)
    ensures e in AllPairEdges(d, ps) <==> exists p :: p in ps && ShowsPair(d, p, e)
    ensures |AllPairEdges(d, ps)| == |Keys(ps)| + |Values(ps)|
  {
    hide ShowsPair, PairEdges;
    if ps == [] {
      assert Keys(ps) == {} && Values(ps) == {};
    } else {
      var init, last := ps[..|ps| - 1], ps[|ps| - 1];
      AllPairEdgesShow(d, init, e);
      PairEdgesShow(d, last, e);
      OneMoreOf(ps);
      assert forall p :: p in ps <==> p in init || p == last;
    }
  }

  lemma {:induction false} ListEdgesAt(l: Listing, xs: seq<Addr>, i: nat)
    requires i < |xs|
    ensures ListEdges(l, xs)[i] == Listed(l, i, xs[i])
  {
    hide Listed;
    if i < |xs| - 1 { ListEdgesAt(l, xs[..|xs| - 1], i); }
  }

  lemma ListEdgesShow(l: Listing, xs: seq<Addr>, e: Edge<Addr>)
    ensures e in ListEdges(l, xs) <==> exists i :: 0 <= i < |xs| && e == Listed(l, i, xs[i])
  {
    hide Listed, ListEdges;
    var es := ListEdges(l, xs);
    forall i | 0 <= i < |xs| ensures es[i] == Listed(l, i, xs[i]) { ListEdgesAt(l, xs, i); }
    if i :| 0 <= i < |xs| && e == Listed(l, i, xs[i]) { assert es[i] in es; }
  }

  lemma OptShows(kind: nat, what: string, a: Option<Addr>, e: Edge<Addr>)
    ensures e in Opt(kind, what, a) <==> ShowsOne(what, a, kind, e)
    ensures |Opt(kind, what, a)| == One(a)
  {
  }

  /** The edges of an object are just those that its fields show, one for each reference. */
  lemma OutEdgesShow(d: Dump, b: Body, e: Edge<Addr>)
    requires b.Table? ==> KeysThere(d, b.pairs)
    ensures e in OutEdges(d, b) <==> Shows(d, b, e)
    ensures |OutEdges(d, b)| == References(b)
  {
    hide AllPairEdges, ListEdges, Opt, ShowsPair, ShowsOne, KeysThere, Decimal;
    match b {
      case Table(pairs, elements, metatable) =>
        AllPairEdgesShow(d, pairs, e);
        ListEdgesShow(Elements, elements, e);
        OptShows(INTERNAL, "metatable", metatable, e);
      case Thread(_, env, stack) =>
        OptShows(CONTEXT, "env", env, e);
        ListEdgesShow(Stack, stack, e);
        if i: nat :| ShowsFrame(stack, i, e) { assert e == Listed(Stack, i, stack[i]); }
        if i :| 0 <= i < |stack| && e == Listed(Stack, i, stack[i]) { assert ShowsFrame(stack, i, e); }
      case Function(_, env, proto, upvalues) =>
        OptShows(CONTEXT, "env", env, e);
        OptShows(CONTEXT, "proto", proto, e);
        ListEdgesShow(Upvalues, upvalues, e);
      case Upvalue(target) => OptShows(CONTEXT, "upvalue object", target, e);
      case Userdata(metatable) => OptShows(INTERNAL, "metatable", metatable, e);
      case Proto(_, constants, protos) =>
        ListEdgesShow(Plain, constants, e);
        ListEdgesShow(Plain, protos, e);
      case Text(_) =>
      case Buffer =>
    }
  }

  /** The dump is whole: it lists every object once, and whatever it mentions is in it. */
  ghost predicate Whole(d: Dump) {
    && d.registry in d.objects
    && NoDuplicates(d.order)
    && (forall a :: a in d.objects <==> a in d.order)
    && forall a :: a in d.objects ==> Closed(d, d.objects[a].body)
  }

  ghost predicate Closed(d: Dump, b: Body) {
    && (b.Table? ==> KeysThere(d, b.pairs))
    && forall e :: Shows(d, b, e) ==> e.to in d.objects
  }

  // ---- a node ----

  const OBJECT: nat := 3
  const STRING: nat := 2
  const CODE: nat := 4
  const CLOSURE: nat := 5
  const NATIVE: nat := 8

  function NodeKind(b: Body): nat {
    match b
    case Table(_, _, _) => OBJECT
    case Function(_, _, _, _) => CLOSURE
    case Proto(_, _, _) => CODE
    case Text(_) => STRING
    case _ => NATIVE
  }

  function Placed(what: string, place: Option<string>, a: Addr): string {
    if place.Some? then what + ": " + place.value + " (" + a + ")" else what + " (" + a + ")"
  }

  function NodeName(d: Dump, a: Addr, b: Body): string {
    match b
    case Table(_, _, _) => (if a == d.registry then "Registry (" else "Luau table (") + a + ")"
    case Thread(place, _, _) => Placed("Luau thread", place, a) + if a == d.mainThread then " (main thread)" else ""
    case Function(name, _, _, _) =>
      if name.Some? then "Luau function: " + name.value + " (" + a + ")" else "Luau anonymous function (" + a + ")"
    case Upvalue(_) => "Luau upvalue (" + a + ")"
    case Userdata(_) => "Luau userdata (" + a + ")"
    case Proto(place, _, _) => Placed("Luau proto", place, a)
    case Text(data) => data
    case Buffer => "buffer (" + a + ")"
  }

  ghost predicate KindIs(b: Body, kind: nat) {
    && (b.Table? ==> kind == 3) && (b.Function? ==> kind == 5) && (b.Proto? ==> kind == 4) && (b.Text? ==> kind == 2)
    && (b.Thread? || b.Upvalue? || b.Userdata? || b.Buffer? ==> kind == 8)
  }

  /** The names that tell nodes apart: all but those of strings hold the address, and those
      of the registry and of the main thread are told from all others. */
  ghost predicate NameIs(d: Dump, a: Addr, b: Body, name: string) {
    match b
    case Table(_, _, _) =>
      (a == d.registry ==> name == "Registry (" + a + ")") && (a != d.registry ==> name == "Luau table (" + a + ")")
    case Thread(place, _, _) =>
      var main := if a == d.mainThread then " (main thread)" else "";
      && (place.None? ==> name == "Luau thread" + " (" + a + ")" + main)
      && (place.Some? ==> name == "Luau thread" + ": " + place.value + " (" + a + ")" + main)
    case Function(own, _, _, _) =>
      && (own.None? ==> name == "Luau anonymous function (" + a + ")")
      && (own.Some? ==> name == "Luau function: " + own.value + " (" + a + ")")
    case Upvalue(_) => name == "Luau upvalue (" + a + ")"
    case Userdata(_) => name == "Luau userdata (" + a + ")"
    case Proto(place, _, _) =>
      && (place.None? ==> name == "Luau proto" + " (" + a + ")")
      && (place.Some? ==> name == "Luau proto" + ": " + place.value + " (" + a + ")")
    case Text(data) => name == data
    case Buffer => name == "buffer (" + a + ")"
  }

  lemma NodeIsNamed(d: Dump, a: Addr, b: Body)
    ensures KindIs(b, NodeKind(b)) && NameIs(d, a, b, NodeName(d, a, b))
  {
  }

  /** A node and its edges; an edge leads to a node by number. */
  datatype Node = Node(kind: nat, name: string, id: int, size: nat, edges: seq<Edge<nat>>)

  // ---- the flat snapshot and its reader ----

  datatype Snapshot = Snapshot(nodeCount: nat, edgeCount: nat, nodes: seq<int>, edges: seq<int>, strings: seq<string>)

  const NODE_FIELDS: nat := 7
  const EDGE_FIELDS: nat := 3

  /** Edge number `i`, if the snapshot has it and it makes sense. */
  function ReadEdge(s: Snapshot, i: nat): Option<Edge<nat>> {
    if EDGE_FIELDS * i + EDGE_FIELDS > |s.edges| then None
    else
      var kind, name, to := s.edges[EDGE_FIELDS * i], s.edges[EDGE_FIELDS * i + 1], s.edges[EDGE_FIELDS * i + 2];
      if kind < 0 || to < 0 || to % NODE_FIELDS != 0 || to >= |s.nodes| || name < 0 then None
      else if kind == ELEMENT then Some(Edge(kind, At(name), to / NODE_FIELDS))
      else if name >= |s.strings| then None
      else Some(Edge(kind, Named(s.strings[name]), to / NODE_FIELDS))
  }

  function ReadEdges(s: Snapshot, i: nat, n: nat): Option<seq<Edge<nat>>> {
    if n == 0 then Some([])
    else
      var before, last := ReadEdges(s, i, n - 1), ReadEdge(s, i + n - 1);
      if before.None? || last.None? then None else Some(before.value + [last.value])
  }

  /** Node number `k`, whose edges begin at edge number `i`. */
  function ReadNode(s: Snapshot, k: nat, i: nat): Option<Node> {
    var at := NODE_FIELDS * k;
    if at + NODE_FIELDS > |s.nodes| then None
    else
      var kind, name, id, size, count := s.nodes[at], s.nodes[at + 1], s.nodes[at + 2], s.nodes[at + 3], s.nodes[at + 4];
      if kind < 0 || !(0 <= name < |s.strings|) || size < 0 || count < 0 then None
      else
        var edges := ReadEdges(s, i, count);
        if edges.None? then None else Some(Node(kind, s.strings[name], id, size, edges.value))
  }

  /** The first `k` nodes: their edges follow one another in the edge array. */
  function ReadNodes(s: Snapshot, k: nat): Option<(seq<Node>, nat)> {
    if k == 0 then Some(([], 0))
    else
      var before := ReadNodes(s, k - 1);
      if before.None? then None
      else
        var last := ReadNode(s, k - 1, before.value.1);
        if last.None? then None
        else Some((before.value.0 + [last.value], before.value.1 + |last.value.edges|))
  }

  /** The whole snapshot; nothing may be left over. */
  function Read(s: Snapshot): Option<seq<Node>> {
    var all := ReadNodes(s, s.nodeCount);
    if all.Some? && |s.nodes| == NODE_FIELDS * s.nodeCount
       && all.value.1 == s.edgeCount && |s.edges| == EDGE_FIELDS * s.edgeCount
    then Some(all.value.0) else None
  }

  // ---- what the arrays mean while they grow ----

  /** Every string has one index, and every index its own string. */
  ghost predicate Interned(strings: seq<string>, stringIndex: map<string, nat>) {
    && (forall t :: t in stringIndex ==> stringIndex[t] < |strings| && strings[stringIndex[t]] == t)
    && forall i :: 0 <= i < |strings| ==> strings[i] in stringIndex && stringIndex[strings[i]] == i
  }

  ghost predicate EdgeMeans(strings: seq<string>, total: nat, raw: seq<int>, e: Edge<nat>) {
    && |raw| == EDGE_FIELDS && raw[0] == e.kind && raw[2] == NODE_FIELDS * e.to && e.to < total
    && match e.name
       case Named(text) => e.kind != ELEMENT && 0 <= raw[1] < |strings| && strings[raw[1]] == text
       case At(index) => e.kind == ELEMENT && raw[1] == index
  }

  ghost predicate EdgesMean(strings: seq<string>, total: nat, raws: seq<seq<int>>, es: seq<Edge<nat>>) {
    |raws| == |es| && forall i :: 0 <= i < |raws| ==> EdgeMeans(strings, total, raws[i], es[i])
  }

  ghost predicate NodeMeans(strings: seq<string>, raw: seq<int>, n: Node) {
    && |raw| == NODE_FIELDS && raw[0] == n.kind && raw[2] == n.id && raw[3] == n.size && raw[4] == |n.edges|
    && 0 <= raw[1] < |strings| && strings[raw[1]] == n.name
  }

  ghost predicate NodesMean(strings: seq<string>, raws: seq<seq<int>>, ns: seq<Node>) {
    |raws| == |ns| && forall i :: 0 <= i < |raws| ==> NodeMeans(strings, raws[i], ns[i])
  }

  /** The edges of all nodes, one node after the other. */
  function AllEdges(ns: seq<Node>): seq<Edge<nat>> {
    if ns == [] then [] else AllEdges(ns[..|ns| - 1]) + ns[|ns| - 1].edges
  }

  lemma MoreStrings(strings: seq<string>, strings': seq<string>, total: nat, raws: seq<seq<int>>, es: seq<Edge<nat>>,
                    nodes: seq<seq<int>>, ns: seq<Node>)
    requires strings <= strings' && EdgesMean(strings, total, raws, es) && NodesMean(strings, nodes, ns)
    ensures EdgesMean(strings', total, raws, es) && NodesMean(strings', nodes, ns)
  {
    forall i | 0 <= i < |raws| ensures EdgeMeans(strings', total, raws[i], es[i]) {
      assert EdgeMeans(strings, total, raws[i], es[i]);
    }
    forall i | 0 <= i < |nodes| ensures NodeMeans(strings', nodes[i], ns[i]) {
      assert NodeMeans(strings, nodes[i], ns[i]);
    }
  }

  /** All edges lead to known objects. */
  predicate Known(index: map<Addr, nat>, es: seq<Edge<Addr>>) {
    forall i :: 0 <= i < |es| ==> es[i].to in index
  }

  /** Addresses become node numbers. */
  function Numbered(index: map<Addr, nat>, es: seq<Edge<Addr>>): (r: seq<Edge<nat>>)
    requires Known(index, es)
    ensures |r| == |es|
  {
    seq(|es|, i requires 0 <= i < |es| => Edge(es[i].kind, es[i].name, index[es[i].to]))
  }

  class Writer {
    var nodes: seq<seq<int>>
    var edges: seq<seq<int>>
    var strings: seq<string>
    var stringIndex: map<string, nat>
    const addressToNodeIndex: map<Addr, nat>
    const total: nat
    ghost var meant: seq<Edge<nat>>
    ghost var views: seq<Node>

    ghost predicate Valid()
      reads this
    {
      && (forall a :: a in addressToNodeIndex ==> addressToNodeIndex[a] < total)
      && Interned(strings, stringIndex) && EdgesMean(strings, total, edges, meant) && NodesMean(strings, nodes, views)
    }

    constructor (index: map<Addr, nat>, total: nat)
      requires forall a :: a in index ==> index[a] < total
      ensures Valid() && meant == [] && views == [] && addressToNodeIndex == index && this.total == total
    {
      nodes, edges, strings, stringIndex, meant, views := [], [], [], map[], [], [];
      addressToNodeIndex, this.total := index, total;
    }

    /** `getStringSnapshotIndex` */
    method Intern(text: string) returns (i: nat)
      requires Valid()
      modifies `strings, `stringIndex
      ensures Valid() && old(strings) <= strings && i < |strings| && strings[i] == text
    {
      if text !in stringIndex {
        MoreStrings(strings, strings + [text], total, edges, meant, nodes, views);
        InternOne(strings, stringIndex, text);
        strings := strings + [text];
        stringIndex := stringIndex[text := |strings| - 1];
      }
      i := stringIndex[text];
    }

    /** `addEdge`, with the number of its name or of its place. */
    method AddEdge(kind: nat, name: Name, to: Addr)
      requires Valid() && to in addressToNodeIndex && (kind == ELEMENT <==> name.At?)
      modifies `strings, `stringIndex, `edges, `meant
      ensures Valid() && old(strings) <= strings && |edges| == |old(edges)| + 1
      ensures meant == old(meant) + [Edge(kind, name, addressToNodeIndex[to])]
    {
      var x: nat;
      match name {
        case Named(text) => x := Intern(text);
        case At(index) => x := index;
      }
      edges := edges + [[kind, x, addressToNodeIndex[to] * NODE_FIELDS]];
      meant := meant + [Edge(kind, name, addressToNodeIndex[to])];
    }

    /** `addNode`, with the number of edges added for the node. */
    method AddNode(kind: nat, text: string, id: int, size: nat, edgeCount: nat, ghost out: seq<Edge<nat>>)
      requires Valid() && edgeCount == |out| && meant == AllEdges(views) + out
      modifies `strings, `stringIndex, `nodes, `views
      ensures Valid() && views == old(views) + [Node(kind, text, id, size, out)] && meant == AllEdges(views)
    {
      hide Interned, EdgesMean, NodesMean, AllEdges;
      var name := Intern(text);
      var node := [kind, name, id, size, edgeCount, 0, 0];
      ghost var view := Node(kind, text, id, size, out);
      NodeIsMeant(strings, node, view);
      NodeAdded(strings, nodes, views, node, view);
      OneMoreNode(views, view);
      nodes := nodes + [node];
      views := views + [view];
    }

    /** An edge to what the object may have. */
    method WriteOpt(kind: nat, what: string, a: Option<Addr>) returns (n: nat)
      requires Valid() && kind != ELEMENT && (a.Some? ==> a.value in addressToNodeIndex)
      modifies `strings, `stringIndex, `edges, `meant
      ensures Valid() && n == |Opt(kind, what, a)|
      ensures meant == old(meant) + Numbered(addressToNodeIndex, Opt(kind, what, a))
    {
      hide Interned, EdgesMean, NodesMean;
      n := 0;
      if a.Some? {
        n := n + 1;
        AddEdge(kind, Named(what + " (" + a.value + ")"), a.value);
      }
    }

    method WritePair(d: Dump, p: Pair) returns (n: nat)
      requires Valid() && (p.key.Some? ==> p.key.value in d.objects)
      requires Known(addressToNodeIndex, PairEdges(d, p))
      modifies `strings, `stringIndex, `edges, `meant
      ensures Valid() && n == |PairEdges(d, p)|
      ensures meant == old(meant) + Numbered(addressToNodeIndex, PairEdges(d, p))
    {
      hide Interned, EdgesMean, NodesMean;
      ghost var all := PairEdges(d, p);
      assert (|all| > 0 ==> all[0].to in addressToNodeIndex) && (|all| > 1 ==> all[1].to in addressToNodeIndex);
      n := 0;
      if p.key.None? && p.value.None? {
        return;
      } else if p.key.None? {
        n := n + 1;
        AddEdge(PROPERTY, Named("(Luau table key value type)"), p.value.value);
      } else {
        var key := p.key.value;
        var body := d.objects[key].body;
        var toKey := Named("Luau table key ref: " + TypeName(body) + " (" + key + ")");
        if p.value.None? {
          n := n + 1;
          AddEdge(INTERNAL, toKey, key);
        } else if body.Text? {
          n := n + 2;
          AddEdge(PROPERTY, Named(body.data), p.value.value);
          AddEdge(INTERNAL, toKey, key);
        } else {
          n := n + 2;
          AddEdge(PROPERTY, Named(TypeName(body) + " (" + key + ")"), p.value.value);
          AddEdge(INTERNAL, toKey, key);
        }
      }
    }

    method WritePairs(d: Dump, pairs: seq<Pair>) returns (n: nat)
      requires Valid() && KeysThere(d, pairs)
      requires Known(addressToNodeIndex, AllPairEdges(d, pairs))
      modifies `strings, `stringIndex, `edges, `meant
      ensures Valid() && n == |AllPairEdges(d, pairs)|
      ensures meant == old(meant) + Numbered(addressToNodeIndex, AllPairEdges(d, pairs))
    {
      hide Interned, EdgesMean, NodesMean, PairEdges, Known;
      n := 0;
      PairsKnown(d, pairs, 0, addressToNodeIndex);
      for i := 0 to |pairs|
        invariant Valid() && KeysThere(d, pairs[..i]) && Known(addressToNodeIndex, AllPairEdges(d, pairs[..i]))
        invariant n == |AllPairEdges(d, pairs[..i])|
        invariant meant == old(meant) + Numbered(addressToNodeIndex, AllPairEdges(d, pairs[..i]))
      {
        assert pairs[..i + 1][..i] == pairs[..i];
        PairsKnown(d, pairs, i + 1, addressToNodeIndex);
        ghost var before, next := AllPairEdges(d, pairs[..i]), PairEdges(d, pairs[i]);
        assert AllPairEdges(d, pairs[..i + 1]) == before + next;
        KnownParts(addressToNodeIndex, before, next);
        var count := WritePair(d, pairs[i]);
        NumberedAppend(addressToNodeIndex, before, next);
        n := n + count;
      }
      assert pairs[..|pairs|] == pairs;
    }

    method WriteList(l: Listing, xs: seq<Addr>) returns (n: nat)
      requires Valid() && forall x :: x in xs ==> x in addressToNodeIndex
      modifies `strings, `stringIndex, `edges, `meant
      ensures Valid() && n == |xs| && Known(addressToNodeIndex, ListEdges(l, xs))
      ensures meant == old(meant) + Numbered(addressToNodeIndex, ListEdges(l, xs))
    {
      hide Interned, EdgesMean, NodesMean, Decimal;
      n := 0;
      for i := 0 to |xs|
        invariant Valid() && n == i && Known(addressToNodeIndex, ListEdges(l, xs[..i]))
        invariant meant == old(meant) + Numbered(addressToNodeIndex, ListEdges(l, xs[..i]))
      {
        assert xs[..i + 1][..i] == xs[..i];
        n := n + 1;
        var edge := Listed(l, i, xs[i]);
        AddEdge(edge.kind, edge.name, xs[i]);
        NumberedOne(addressToNodeIndex, ListEdges(l, xs[..i]), edge);
      }
      assert xs[..|xs|] == xs;
    }

    method WriteTable(d: Dump, pairs: seq<Pair>, elements: seq<Addr>, metatable: Option<Addr>) returns (edgeCount: nat)
      requires Valid() && KeysThere(d, pairs)
      requires Known(addressToNodeIndex, OutEdges(d, Table(pairs, elements, metatable)))
      modifies `strings, `stringIndex, `edges, `meant
      ensures Valid() && edgeCount == |OutEdges(d, Table(pairs, elements, metatable))|
      ensures meant == old(meant) + Numbered(addressToNodeIndex, OutEdges(d, Table(pairs, elements, metatable)))
    {
      hide Interned, EdgesMean, NodesMean, Known, AllPairEdges, ListEdges, Opt, Numbered;
      ThreeParts(addressToNodeIndex, AllPairEdges(d, pairs), ListEdges(Elements, elements), Opt(INTERNAL, "metatable", metatable));
      ListTargets(Elements, elements, addressToNodeIndex);
      OptTarget(INTERNAL, "metatable", metatable, addressToNodeIndex);
      var n := WritePairs(d, pairs);
      var m := WriteList(Elements, elements);
      var k := WriteOpt(INTERNAL, "metatable", metatable);
      edgeCount := n + m + k;
    }

    method WriteThread(d: Dump, place: Option<string>, env: Option<Addr>, stack: seq<Addr>) returns (edgeCount: nat)
      requires Valid() && Known(addressToNodeIndex, OutEdges(d, Thread(place, env, stack)))
      modifies `strings, `stringIndex, `edges, `meant
      ensures Valid() && edgeCount == |OutEdges(d, Thread(place, env, stack))|
      ensures meant == old(meant) + Numbered(addressToNodeIndex, OutEdges(d, Thread(place, env, stack)))
    {
      hide Interned, EdgesMean, NodesMean, Known, ListEdges, Opt, Numbered;
      NumberedParts(addressToNodeIndex, Opt(CONTEXT, "env", env), ListEdges(Stack, stack));
      ListTargets(Stack, stack, addressToNodeIndex);
      OptTarget(CONTEXT, "env", env, addressToNodeIndex);
      var n := WriteOpt(CONTEXT, "env", env);
      var m := WriteList(Stack, stack);
      edgeCount := n + m;
    }

    method WriteFunction(d: Dump, name: Option<string>, env: Option<Addr>, proto: Option<Addr>, upvalues: seq<Addr>)
      returns (edgeCount: nat)
      requires Valid() && Known(addressToNodeIndex, OutEdges(d, Function(name, env, proto, upvalues)))
      modifies `strings, `stringIndex, `edges, `meant
      ensures Valid() && edgeCount == |OutEdges(d, Function(name, env, proto, upvalues))|
      ensures meant == old(meant) + Numbered(addressToNodeIndex, OutEdges(d, Function(name, env, proto, upvalues)))
    {
      hide Interned, EdgesMean, NodesMean, Known, ListEdges, Opt, Numbered;
      ThreeParts(addressToNodeIndex, Opt(CONTEXT, "env", env), Opt(CONTEXT, "proto", proto), ListEdges(Upvalues, upvalues));
      ListTargets(Upvalues, upvalues, addressToNodeIndex);
      OptTarget(CONTEXT, "env", env, addressToNodeIndex);
      OptTarget(CONTEXT, "proto", proto, addressToNodeIndex);
      var n := WriteOpt(CONTEXT, "env", env);
      var m := WriteOpt(CONTEXT, "proto", proto);
      var k := WriteList(Upvalues, upvalues);
      edgeCount := n + m + k;
    }

    method WriteProto(d: Dump, place: Option<string>, constants: seq<Addr>, protos: seq<Addr>) returns (edgeCount: nat)
      requires Valid() && Known(addressToNodeIndex, OutEdges(d, Proto(place, constants, protos)))
      modifies `strings, `stringIndex, `edges, `meant
      ensures Valid() && edgeCount == |OutEdges(d, Proto(place, constants, protos))|
      ensures meant == old(meant) + Numbered(addressToNodeIndex, OutEdges(d, Proto(place, constants, protos)))
    {
      hide Interned, EdgesMean, NodesMean, Known, ListEdges, Numbered;
      NumberedParts(addressToNodeIndex, ListEdges(Plain, constants), ListEdges(Plain, protos));
      ListTargets(Plain, constants, addressToNodeIndex);
      ListTargets(Plain, protos, addressToNodeIndex);
      var n := WriteList(Plain, constants);
      var m := WriteList(Plain, protos);
      edgeCount := n + m;
    }

    /** One object: its edges, and then its node with their number. */
    method WriteObject(d: Dump, a: Addr, id: int)
      requires Valid() && meant == AllEdges(views) && a in d.objects && CanView(d, addressToNodeIndex, a)
      modifies this
      ensures Valid() && meant == AllEdges(views)
      ensures views == old(views) + [View(d, addressToNodeIndex, a, id)]
    {
      hide Interned, EdgesMean, NodesMean, Known, KeysThere, AllPairEdges, ListEdges, Opt, AllEdges;
      var Object(size, body) := d.objects[a];
      var edgeCount := 0;
      match body {
        case Table(pairs, elements, metatable) => edgeCount := WriteTable(d, pairs, elements, metatable);
        case Thread(place, env, stack) => edgeCount := WriteThread(d, place, env, stack);
        case Function(name, env, proto, upvalues) => edgeCount := WriteFunction(d, name, env, proto, upvalues);
        case Upvalue(target) =>
          OptTarget(CONTEXT, "upvalue object", target, addressToNodeIndex);
          edgeCount := WriteOpt(CONTEXT, "upvalue object", target);
        case Userdata(metatable) =>
          OptTarget(INTERNAL, "metatable", metatable, addressToNodeIndex);
          edgeCount := WriteOpt(INTERNAL, "metatable", metatable);
        case Proto(place, constants, protos) => edgeCount := WriteProto(d, place, constants, protos);
        case Text(_) =>
        case Buffer =>
      }
      AddNode(NodeKind(body), NodeName(d, a, body), id, size, edgeCount, Numbered(addressToNodeIndex, OutEdges(d, body)));
    }
  }

  predicate CanView(d: Dump, index: map<Addr, nat>, a: Addr)
    requires a in d.objects
  {
    (d.objects[a].body.Table? ==> KeysThere(d, d.objects[a].body.pairs)) && Known(index, OutEdges(d, d.objects[a].body))
  }

  /** What a reader should see of an object. */
  function View(d: Dump, index: map<Addr, nat>, a: Addr, id: int): Node
    requires a in d.objects && CanView(d, index, a)
  {
    var Object(size, body) := d.objects[a];
    Node(NodeKind(body), NodeName(d, a, body), id, size, Numbered(index, OutEdges(d, body)))
  }

  lemma NumberedParts(index: map<Addr, nat>, a: seq<Edge<Addr>>, b: seq<Edge<Addr>>)
    requires Known(index, a + b)
    ensures Known(index, a) && Known(index, b) && Numbered(index, a + b) == Numbered(index, a) + Numbered(index, b)
  {
    KnownParts(index, a, b);
    NumberedAppend(index, a, b);
  }

  lemma ThreeParts(index: map<Addr, nat>, a: seq<Edge<Addr>>, b: seq<Edge<Addr>>, c: seq<Edge<Addr>>)
    requires Known(index, a + b + c)
    ensures Known(index, a) && Known(index, b) && Known(index, c)
    ensures Numbered(index, a + b + c) == Numbered(index, a) + Numbered(index, b) + Numbered(index, c)
  {
    NumberedParts(index, a + b, c);
    NumberedParts(index, a, b);
  }

  lemma OptTarget(kind: nat, what: string, a: Option<Addr>, index: map<Addr, nat>)
    requires Known(index, Opt(kind, what, a))
    ensures a.Some? ==> a.value in index
  {
    if a.Some? { assert Opt(kind, what, a)[0].to == a.value; }
  }

  lemma {:induction false} ListTargets(l: Listing, xs: seq<Addr>, index: map<Addr, nat>)
    requires Known(index, ListEdges(l, xs))
    ensures forall x :: x in xs ==> x in index
  {
    hide Decimal;
    if xs != [] {
      var init, last := xs[..|xs| - 1], xs[|xs| - 1];
      KnownParts(index, ListEdges(l, init), [Listed(l, |xs| - 1, last)]);
      ListTargets(l, init, index);
      LastKnown(index, ListEdges(l, xs));
      assert xs == init + [last];
    }
  }

  lemma LastKnown(index: map<Addr, nat>, es: seq<Edge<Addr>>)
    requires Known(index, es) && es != []
    ensures es[|es| - 1].to in index
  {
  }

  lemma {:induction false} PairsKnown(d: Dump, pairs: seq<Pair>, i: nat, index: map<Addr, nat>)
    requires KeysThere(d, pairs) && Known(index, AllPairEdges(d, pairs)) && i <= |pairs|
    ensures KeysThere(d, pairs[..i]) && Known(index, AllPairEdges(d, pairs[..i]))
    decreases |pairs| - i
  {
    if i < |pairs| {
      PairsKnown(d, pairs, i + 1, index);
      assert pairs[..i + 1][..i] == pairs[..i];
      KnownParts(index, AllPairEdges(d, pairs[..i]), PairEdges(d, pairs[i]));
    } else {
      assert pairs[..i] == pairs;
    }
  }

  lemma NodeIsMeant(strings: seq<string>, raw: seq<int>, n: Node)
    requires |raw| == NODE_FIELDS && raw[0] == n.kind && raw[2] == n.id && raw[3] == n.size && raw[4] == |n.edges|
    requires 0 <= raw[1] < |strings| && strings[raw[1]] == n.name
    ensures NodeMeans(strings, raw, n)
  {
  }

  lemma OneMoreNode(ns: seq<Node>, n: Node)
    ensures AllEdges(ns + [n]) == AllEdges(ns) + n.edges
  {
    assert (ns + [n])[..|ns|] == ns;
  }

  lemma NodeAdded(strings: seq<string>, raws: seq<seq<int>>, ns: seq<Node>, raw: seq<int>, n: Node)
    requires NodesMean(strings, raws, ns) && NodeMeans(strings, raw, n)
    ensures NodesMean(strings, raws + [raw], ns + [n])
  {
    hide NodeMeans;
    forall i | 0 <= i < |raws + [raw]| ensures NodeMeans(strings, (raws + [raw])[i], (ns + [n])[i]) {
      if i < |raws| { assert NodeMeans(strings, raws[i], ns[i]); }
    }
  }

  lemma KnownParts(index: map<Addr, nat>, a: seq<Edge<Addr>>, b: seq<Edge<Addr>>)
    requires Known(index, a + b)
    ensures Known(index, a) && Known(index, b)
  {
    forall i | 0 <= i < |a| ensures a[i].to in index { assert a[i] == (a + b)[i]; }
    forall i | 0 <= i < |b| ensures b[i].to in index { assert b[i] == (a + b)[|a| + i]; }
  }

  lemma NumberedAppend(index: map<Addr, nat>, a: seq<Edge<Addr>>, b: seq<Edge<Addr>>)
    requires Known(index, a) && Known(index, b)
    ensures Known(index, a + b) && Numbered(index, a + b) == Numbered(index, a) + Numbered(index, b)
  {
  }

  lemma NumberedOne(index: map<Addr, nat>, a: seq<Edge<Addr>>, e: Edge<Addr>)
    requires Known(index, a) && e.to in index
    ensures Known(index, a + [e]) && Numbered(index, a + [e]) == Numbered(index, a) + [Edge(e.kind, e.name, index[e.to])]
  {
    NumberedAppend(index, a, [e]);
  }

  lemma InternOne(strings: seq<string>, stringIndex: map<string, nat>, text: string)
    requires Interned(strings, stringIndex) && text !in stringIndex
    ensures Interned(strings + [text], stringIndex[text := |strings|])
  {
  }

  // ---- addresses ----

  ghost predicate Positions(xs: seq<Addr>, index: map<Addr, nat>) {
    && (forall a :: a in index <==> a in xs)
    && forall i :: 0 <= i < |xs| ==> xs[i] in index && index[xs[i]] == i
  }

  /** `readAddresses`: the registry first, every object once, each with its position. */
  method ReadAddresses(d: Dump) returns (addresses: seq<Addr>, index: map<Addr, nat>)
    requires Whole(d)
    ensures addresses != [] && addresses[0] == d.registry
    ensures NoDuplicates(addresses) && Positions(addresses, index) && index.Keys == d.objects.Keys
  {
    addresses, index := [d.registry], map[d.registry := 0];
    for i := 0 to |d.order|
      invariant addresses != [] && addresses[0] == d.registry
      invariant NoDuplicates(addresses) && Positions(addresses, index)
      invariant forall a :: a in index <==> a == d.registry || a in d.order[..i]
    {
      var a := d.order[i];
      assert d.order[..i + 1] == d.order[..i] + [a];
      if a != d.registry {
        assert a !in d.order[..i];
        PositionsNext(addresses, index, a);
        addresses := addresses + [a];
        index := index[a := |addresses| - 1];
      }
    }
    assert d.order[..|d.order|] == d.order;
  }

  lemma PositionsNext(xs: seq<Addr>, index: map<Addr, nat>, a: Addr)
    requires NoDuplicates(xs) && Positions(xs, index) && a !in index
    ensures NoDuplicates(xs + [a]) && Positions(xs + [a], index[a := |xs|])
  {
    assert a !in xs;
  }

  // ---- the conversion, and reading it back ----

  function Flatten(xs: seq<seq<int>>): seq<int> {
    if xs == [] then [] else Flatten(xs[..|xs| - 1]) + xs[|xs| - 1]
  }

  predicate Rows(xs: seq<seq<int>>, w: nat) {
    forall i :: 0 <= i < |xs| ==> |xs[i]| == w
  }

  lemma {:induction false} FlattenLength(xs: seq<seq<int>>, w: nat)
    requires Rows(xs, w)
    ensures |Flatten(xs)| == w * |xs|
  {
    if xs != [] {
      var n := |xs| - 1;
      FlattenLength(xs[..n], w);
      assert w * (n + 1) == w * n + w;
    }
  }

  /** Rows of `w` fields stand at strides of `w`. */
  lemma {:induction false} FlattenAt(xs: seq<seq<int>>, w: nat, i: nat, j: nat)
    requires Rows(xs, w) && i < |xs| && j < w
    ensures 0 <= w * i + j < |Flatten(xs)| && Flatten(xs)[w * i + j] == xs[i][j]
  {
    var n := |xs| - 1;
    FlattenLength(xs[..n], w);
    if i < n {
      FlattenAt(xs[..n], w, i, j);
    } else {
      assert Flatten(xs) == Flatten(xs[..n]) + xs[n];
    }
  }

  /** What the finished arrays say. */
  ghost predicate Says(s: Snapshot, nodes: seq<seq<int>>, edges: seq<seq<int>>, es: seq<Edge<nat>>, ns: seq<Node>) {
    && s.nodes == Flatten(nodes) && s.edges == Flatten(edges) && s.nodeCount == |nodes| && s.edgeCount == |edges|
    && EdgesMean(s.strings, |nodes|, edges, es) && NodesMean(s.strings, nodes, ns) && es == AllEdges(ns)
  }

  lemma SaysRows(s: Snapshot, nodes: seq<seq<int>>, edges: seq<seq<int>>, es: seq<Edge<nat>>, ns: seq<Node>)
    requires Says(s, nodes, edges, es, ns)
    ensures Rows(nodes, NODE_FIELDS) && Rows(edges, EDGE_FIELDS)
    ensures |s.nodes| == NODE_FIELDS * |nodes| && |s.edges| == EDGE_FIELDS * |edges|
  {
    forall i | 0 <= i < |nodes| ensures |nodes[i]| == NODE_FIELDS { assert NodeMeans(s.strings, nodes[i], ns[i]); }
    forall i | 0 <= i < |edges| ensures |edges[i]| == EDGE_FIELDS { assert EdgeMeans(s.strings, |nodes|, edges[i], es[i]); }
    FlattenLength(nodes, NODE_FIELDS);
    FlattenLength(edges, EDGE_FIELDS);
  }

  lemma EdgeReads(s: Snapshot, nodes: seq<seq<int>>, edges: seq<seq<int>>, es: seq<Edge<nat>>, ns: seq<Node>, i: nat)
    requires Says(s, nodes, edges, es, ns) && i < |es|
    ensures ReadEdge(s, i) == Some(es[i])
  {
    assert EdgeMeans(s.strings, |nodes|, edges[i], es[i]) && |edges| == |es|;
    SaysRows(s, nodes, edges, es, ns);
    FlattenAt(edges, EDGE_FIELDS, i, 0);
    FlattenAt(edges, EDGE_FIELDS, i, 1);
    FlattenAt(edges, EDGE_FIELDS, i, 2);
    hide EdgesMean, NodesMean, AllEdges, Rows, Flatten;
  }

  lemma {:induction false} EdgesRead(s: Snapshot, nodes: seq<seq<int>>, edges: seq<seq<int>>, es: seq<Edge<nat>>, ns: seq<Node>, i: nat, n: nat)
    requires Says(s, nodes, edges, es, ns) && i + n <= |es|
    ensures ReadEdges(s, i, n) == Some(es[i..i + n])
    decreases n
  {
    hide ReadEdge, Says;
    if n == 0 {
      assert es[i..i + n] == [];
    } else {
      EdgesRead(s, nodes, edges, es, ns, i, n - 1);
      EdgeReads(s, nodes, edges, es, ns, i + n - 1);
      assert es[i..i + n] == es[i..i + n - 1] + [es[i + n - 1]];
    }
  }

  lemma NoEdges()
    ensures AllEdges([]) == []
  {
  }

  /** The edges of the first nodes come first. */
  lemma {:induction false} EdgesOfFirst(ns: seq<Node>, k: nat)
    requires k < |ns|
    ensures var at := |AllEdges(ns[..k])|;
            at + |ns[k].edges| <= |AllEdges(ns)| && AllEdges(ns)[at..at + |ns[k].edges|] == ns[k].edges
    ensures |AllEdges(ns[..k + 1])| == |AllEdges(ns[..k])| + |ns[k].edges|
  {
    assert ns[..k + 1][..k] == ns[..k];
    if k + 1 == |ns| {
      assert ns[..k + 1] == ns;
    } else {
      EdgesOfFirst(ns[..|ns| - 1], k);
      assert ns[..|ns| - 1][..k] == ns[..k];
      var at := |AllEdges(ns[..k])|;
      assert AllEdges(ns)[at..at + |ns[k].edges|] == AllEdges(ns[..|ns| - 1])[at..at + |ns[k].edges|];
    }
  }

  lemma NodeReads(s: Snapshot, nodes: seq<seq<int>>, edges: seq<seq<int>>, es: seq<Edge<nat>>, ns: seq<Node>, k: nat)
    requires Says(s, nodes, edges, es, ns) && k < |ns|
    ensures ReadNode(s, k, |AllEdges(ns[..k])|) == Some(ns[k])
  {
    EdgesOfFirst(ns, k);
    EdgesRead(s, nodes, edges, es, ns, |AllEdges(ns[..k])|, |ns[k].edges|);
    assert NodeMeans(s.strings, nodes[k], ns[k]) && |nodes| == |ns|;
    SaysRows(s, nodes, edges, es, ns);
    FlattenAt(nodes, NODE_FIELDS, k, 0);
    FlattenAt(nodes, NODE_FIELDS, k, 1);
    FlattenAt(nodes, NODE_FIELDS, k, 2);
    FlattenAt(nodes, NODE_FIELDS, k, 3);
    FlattenAt(nodes, NODE_FIELDS, k, 4);
    hide EdgesMean, NodesMean, AllEdges, Rows, Flatten, ReadEdges, ReadEdge;
  }

  lemma {:induction false} NodesRead(s: Snapshot, nodes: seq<seq<int>>, edges: seq<seq<int>>, es: seq<Edge<nat>>, ns: seq<Node>, k: nat)
    requires Says(s, nodes, edges, es, ns) && k <= |ns|
    ensures ReadNodes(s, k) == Some((ns[..k], |AllEdges(ns[..k])|))
    decreases k
  {
    hide ReadNode, Says, AllEdges;
    if k == 0 {
      NoEdges();
      assert ns[..0] == [];
    } else {
      NodesRead(s, nodes, edges, es, ns, k - 1);
      NodeReads(s, nodes, edges, es, ns, k - 1);
      EdgesOfFirst(ns, k - 1);
      assert ns[..k] == ns[..k - 1] + [ns[k - 1]];
    }
  }

  lemma ReadsBack(s: Snapshot, nodes: seq<seq<int>>, edges: seq<seq<int>>, es: seq<Edge<nat>>, ns: seq<Node>)
    requires Says(s, nodes, edges, es, ns)
    ensures Read(s) == Some(ns)
  {
    NodesRead(s, nodes, edges, es, ns, |ns|);
    assert ns[..|ns|] == ns;
    SaysRows(s, nodes, edges, es, ns);
    hide Flatten, ReadNodes, AllEdges, NodeMeans, EdgeMeans;
  }

  /** `convertToSnapshot`: reading the arrays back gives every object of the dump once, the
      registry first, with its own edges in order. */
  method Convert(d: Dump, uniqueId: Addr -> int) returns (s: Snapshot, addresses: seq<Addr>, index: map<Addr, nat>)
    requires Whole(d)
    ensures addresses != [] && addresses[0] == d.registry
    ensures NoDuplicates(addresses) && Positions(addresses, index) && index.Keys == d.objects.Keys
    ensures exists ns :: Read(s) == Some(ns) && AreViews(d, addresses, index, uniqueId, ns) && Depict(d, addresses, uniqueId, ns)
    ensures NoDuplicates(s.strings)
    ensures s.nodeCount == |addresses| && |s.nodes| == 7 * s.nodeCount && |s.edges| == 3 * s.edgeCount
  {
    hide Whole, View, CanView, Interned, EdgesMean, NodesMean, Flatten, AllEdges, Read;
    addresses, index := ReadAddresses(d);
    assert forall a :: a in index ==> index[a] < |addresses|;
    var writer := new Writer(index, |addresses|);
    NoEdges();
    for k := 0 to |addresses|
      invariant writer.Valid() && fresh(writer) && writer.meant == AllEdges(writer.views) && |writer.views| == k
      invariant writer.addressToNodeIndex == index && writer.total == |addresses|
      invariant forall i :: 0 <= i < k ==> IsView(d, index, addresses[i], uniqueId, writer.views[i])
    {
      assert addresses[k] in index;
      WholeCanView(d, index, addresses[k]);
      writer.WriteObject(d, addresses[k], uniqueId(addresses[k]));
      assert IsView(d, index, addresses[k], uniqueId, writer.views[k]);
    }
    s := Snapshot(|writer.nodes|, |writer.edges|, Flatten(writer.nodes), Flatten(writer.edges), writer.strings);
    MeanLengths(writer.strings, writer.nodes, writer.views);
    ReadsBack(s, writer.nodes, writer.edges, writer.meant, writer.views);
    SaysRows(s, writer.nodes, writer.edges, writer.meant, writer.views);
    StringsDiffer(writer.strings, writer.stringIndex);
    assert AreViews(d, addresses, index, uniqueId, writer.views);
    ViewsDepict(d, addresses, index, uniqueId, writer.views);
  }

  ghost predicate IsView(d: Dump, index: map<Addr, nat>, a: Addr, uniqueId: Addr -> int, n: Node) {
    a in d.objects && CanView(d, index, a) && n == View(d, index, a, uniqueId(a))
  }

  ghost predicate AreViews(d: Dump, addresses: seq<Addr>, index: map<Addr, nat>, uniqueId: Addr -> int, ns: seq<Node>) {
    |ns| == |addresses| && forall i :: 0 <= i < |ns| ==> IsView(d, index, addresses[i], uniqueId, ns[i])
  }

  /** A node shows its object: kind, name, id and size, and an edge to a node exactly where
      the object has a reference, one for each. */
  ghost predicate Depicts(d: Dump, addresses: seq<Addr>, a: Addr, id: int, n: Node) {
    && a in d.objects && n.id == id && n.size == d.objects[a].size
    && KindIs(d.objects[a].body, n.kind) && NameIs(d, a, d.objects[a].body, n.name)
    && (forall e :: e in n.edges <==> e.to < |addresses| && Shows(d, d.objects[a].body, Edge(e.kind, e.name, addresses[e.to])))
    && |n.edges| == References(d.objects[a].body)
  }

  ghost predicate Depict(d: Dump, addresses: seq<Addr>, uniqueId: Addr -> int, ns: seq<Node>) {
    |ns| == |addresses| && forall i :: 0 <= i < |ns| ==> Depicts(d, addresses, addresses[i], uniqueId(addresses[i]), ns[i])
  }

  lemma NumberedHas(addresses: seq<Addr>, index: map<Addr, nat>, es: seq<Edge<Addr>>, e: Edge<nat>)
    requires Positions(addresses, index) && Known(index, es)
    ensures e in Numbered(index, es) <==> e.to < |addresses| && Edge(e.kind, e.name, addresses[e.to]) in es
  {
    var r := Numbered(index, es);
    if e in r {
      var i :| 0 <= i < |es| && r[i] == e;
      assert es[i].to in index;
      var k :| 0 <= k < |addresses| && addresses[k] == es[i].to;
      assert es[i] in es && es[i] == Edge(e.kind, e.name, addresses[e.to]);
    }
    if e.to < |addresses| && Edge(e.kind, e.name, addresses[e.to]) in es {
      var i :| 0 <= i < |es| && es[i] == Edge(e.kind, e.name, addresses[e.to]);
      assert addresses[e.to] in index && index[addresses[e.to]] == e.to;
      assert r[i] in r;
    }
  }

  lemma ViewDepicts(d: Dump, addresses: seq<Addr>, index: map<Addr, nat>, a: Addr, uniqueId: Addr -> int, n: Node)
    requires Positions(addresses, index) && IsView(d, index, a, uniqueId, n)
    ensures Depicts(d, addresses, a, uniqueId(a), n)
  {
    hide OutEdges, Shows, References, Numbered, Known, Positions, KeysThere, NameIs, NodeName;
    var body := d.objects[a].body;
    NodeIsNamed(d, a, body);
    forall e: Edge<nat> ensures e in n.edges <==> e.to < |addresses| && Shows(d, body, Edge(e.kind, e.name, addresses[e.to])) {
      NumberedHas(addresses, index, OutEdges(d, body), e);
      if e.to < |addresses| { OutEdgesShow(d, body, Edge(e.kind, e.name, addresses[e.to])); }
    }
    OutEdgesShow(d, body, Edge(0, At(0), ""));
  }

  lemma ViewsDepict(d: Dump, addresses: seq<Addr>, index: map<Addr, nat>, uniqueId: Addr -> int, ns: seq<Node>)
    requires Positions(addresses, index) && AreViews(d, addresses, index, uniqueId, ns)
    ensures Depict(d, addresses, uniqueId, ns)
  {
    hide IsView, Depicts, Positions;
    forall i | 0 <= i < |ns| ensures Depicts(d, addresses, addresses[i], uniqueId(addresses[i]), ns[i]) {
      assert IsView(d, index, addresses[i], uniqueId, ns[i]);
      ViewDepicts(d, addresses, index, addresses[i], uniqueId, ns[i]);
    }
  }

  lemma WholeCanView(d: Dump, index: map<Addr, nat>, a: Addr)
    requires Whole(d) && a in d.objects && index.Keys == d.objects.Keys
    ensures CanView(d, index, a)
  {
    assert Closed(d, d.objects[a].body);
    hide OutEdges, Shows;
    var es := OutEdges(d, d.objects[a].body);
    forall i | 0 <= i < |es| ensures es[i].to in index {
      OutEdgesShow(d, d.objects[a].body, es[i]);
      assert es[i].to in d.objects.Keys;
    }
  }

  lemma MeanLengths(strings: seq<string>, raws: seq<seq<int>>, ns: seq<Node>)
    requires NodesMean(strings, raws, ns)
    ensures |raws| == |ns|
  {
  }

  lemma StringsDiffer(strings: seq<string>, stringIndex: map<string, nat>)
    requires Interned(strings, stringIndex)
    ensures NoDuplicates(strings)
  {
  }
}
