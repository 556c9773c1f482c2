/** The type graph cloner (Analysis/src/Clone.cpp): a worklist copies a cyclic, shared
    graph of types and type packs into a destination arena.

    A pointer is an index into `heap`. The nodes below `base` are the source graph; the
    cloner appends its clones. A node's `kids` are the children that the cloner rewrites,
    in the order it rewrites them; its `info` holds everything that is copied verbatim. */
module TypeCloning {

  import opened Basics
  import opened TypeLinks

  datatype Kind = Generic | Free | Table | Other

  datatype Info = Info(kind: Kind, payload: int, documentationSymbol: Option<string>, scope: Option<int>)

  datatype Node = Node(info: Info, kids: seq<Id>, persistent: bool)

  /** A shallow copy: not persistent, and its scope cleared. The fragment autocomplete
      cloner supplies a replacement scope for free and table types. */
  function Copy(n: Node, replacement: Option<int>): Node {
    Node(match n.info.kind
         case Generic => n.info.(scope := None)
         case Free => n.info.(scope := replacement)
         case Table => n.info.(scope := replacement)
         case Other => n.info,
         n.kids, false)
  }

  /** What a clone has of its original: all contents but the scope. Of the four kinds, a
      generic type has no scope any more, a free or table type the replacement, if any, and
      every other type its own. */
  ghost predicate SameContents(from: Node, node: Node, replacement: Option<int>) {
    && node.info.kind == from.info.kind && node.info.payload == from.info.payload
    && node.info.documentationSymbol == from.info.documentationSymbol
    && (from.info.kind == Generic ==> node.info.scope == None)
    && (from.info.kind == Free || from.info.kind == Table ==> node.info.scope == replacement)
    && (from.info.kind == Other ==> node.info.scope == from.info.scope)
  }

  /** A source graph: children and links stay inside, and every Bound chain ends. */
  ghost predicate SourceGraph(source: seq<Node>, links: map<Id, Id>) {
    && (forall x, k :: 0 <= x < |source| && k in source[x].kids ==> k < |source|)
    && (forall x :: x in links ==> x < |source|)
    && (forall x :: 0 <= x < |source| ==> Follow(links, x) !in links && Follow(links, x) < |source|)
  }

  /** What the cloner works from: the source graph, its links, and the replacement scope. */
  datatype Setting = Setting(source: seq<Node>, links: map<Id, Id>, replacement: Option<int>) {
    ghost predicate Valid() { SourceGraph(source, links) }

    function Followed(x: Id): Id { Follow(links, x) }

    /** The child has its place in the cloned graph: it was cloned, or it is shared. */
    ghost predicate Resolved(types: map<Id, Id>, x: Id) {
      Followed(x) in types || (Followed(x) < |source| && source[Followed(x)].persistent)
    }

    /** That place: the clone of the followed child, or the followed child itself. */
    ghost function Image(types: map<Id, Id>, x: Id): Id {
      if Followed(x) in types then types[Followed(x)] else Followed(x)
    }
  }

  /** The cloner's state; `origin[j]` is the node that the `j`-th clone was made from. */
  datatype State = State(heap: seq<Node>, types: map<Id, Id>, queue: seq<Id>, origin: seq<Id>)

  /** The source is untouched; `types` pairs the originals and the clones one to one. */
  ghost predicate Paired(c: Setting, s: State) {
    var base := |c.source|;
    && |s.heap| == base + |s.origin| && s.heap[..base] == c.source
    && (forall j :: 0 <= j < |s.origin| ==> s.origin[j] in s.types && s.types[s.origin[j]] == base + j)
    && (forall k :: k in s.types ==> k in s.origin)
    && (forall k :: k in s.types ==> k < base && k !in c.links && !c.source[k].persistent)
  }

  /** `node` is a copy of `from` whose first `n` children have been rewritten to their
      places in the clone, and whose other children are still the original's. */
  ghost predicate CopyOf(c: Setting, types: map<Id, Id>, node: Node, from: Node, n: nat) {
    && SameContents(from, node, c.replacement) && !node.persistent && |node.kids| == |from.kids|
    && (forall i :: 0 <= i < n && i < |from.kids| ==> c.Resolved(types, from.kids[i]) && node.kids[i] == c.Image(types, from.kids[i]))
    && (forall i :: n <= i < |from.kids| ==> node.kids[i] == from.kids[i])
  }

  /** The `j`-th clone: waiting in the queue with its original children, or finished.
      For the clone `busy`, being worked on, the first `n` children are finished. */
  ghost predicate Fits(c: Setting, s: State, j: nat, busy: Option<Id>, n: nat)
    requires Paired(c, s) && j < |s.origin|
  {
    var id, from := |c.source| + j, c.source[s.origin[j]];
    CopyOf(c, s.types, s.heap[id], from, if busy == Some(id) then n else if id in s.queue then 0 else |from.kids|)
  }

  ghost predicate Valid(c: Setting, s: State, busy: Option<Id>, n: nat) {
    && Paired(c, s)
    && (forall q :: q in s.queue ==> |c.source| <= q < |s.heap| && busy != Some(q))
    && (forall i, j :: 0 <= i < j < |s.queue| ==> s.queue[i] != s.queue[j])
    && (forall j :: 0 <= j < |s.origin| ==> Fits(c, s, j, busy, n))
  }

  /** Later states keep every clone already made, and everything known of its original. */
  ghost predicate Extends(s: State, s': State) {
    && |s.heap| <= |s'.heap| && s.origin <= s'.origin
    && forall k :: k in s.types ==> k in s'.types && s'.types[k] == s.types[k]
  }

  /** A node that is not persistent and has no clone yet gets one, which waits in the queue. */
  function Allocate(c: Setting, s: State, f: Id): State
    requires f < |s.heap|
  {
    State(s.heap + [Copy(s.heap[f], c.replacement)], s.types[f := |s.heap|], s.queue + [|s.heap|], s.origin + [f])
  }

  /** A finished or waiting copy stays one when more originals get clones. */
  lemma CopyOfStable(c: Setting, types: map<Id, Id>, types': map<Id, Id>, node: Node, from: Node, n: nat)
    requires CopyOf(c, types, node, from, n)
    requires forall k :: k in types ==> k in types' && types'[k] == types[k]
    requires forall k :: k in types' && k < |c.source| ==> !c.source[k].persistent
    ensures CopyOf(c, types', node, from, n)
  {
  }

  lemma AllocatePairs(c: Setting, s: State, f: Id)
    requires Paired(c, s)
    requires f < |c.source| && f !in c.links && f !in s.types && !c.source[f].persistent
    ensures Paired(c, Allocate(c, s, f)) && Extends(s, Allocate(c, s, f))
  {
    var s', base := Allocate(c, s, f), |c.source|;
    assert s'.heap[..base] == s.heap[..base];
    forall j | 0 <= j < |s'.origin| ensures s'.origin[j] in s'.types && s'.types[s'.origin[j]] == base + j {
      if j < |s.origin| { assert s'.origin[j] == s.origin[j] && s.origin[j] in s.types; }
    }
    assert s'.origin[|s.origin|] == f;
  }

  lemma AllocateFits(c: Setting, s: State, busy: Option<Id>, n: nat, f: Id, j: nat)
    requires f < |c.source| <= |s.heap| && f !in s.types && j <= |s.origin|
    requires Paired(c, s) && Paired(c, Allocate(c, s, f)) && (busy.Some? ==> busy.value < |s.heap|)
    requires j < |s.origin| ==> Fits(c, s, j, busy, n)
    ensures Fits(c, Allocate(c, s, f), j, busy, n)
  {
    var s', id := Allocate(c, s, f), |c.source| + j;
    if j < |s.origin| {
      var m := if busy == Some(id) then n else if id in s.queue then 0 else |c.source[s.origin[j]].kids|;
      CopyOfStable(c, s.types, s'.types, s.heap[id], c.source[s.origin[j]], m);
    } else {
      assert s.heap[f] == s.heap[..|c.source|][f];
    }
  }

  lemma AllocateKeeps(c: Setting, s: State, busy: Option<Id>, n: nat, f: Id)
    requires Valid(c, s, busy, n) && (busy.Some? ==> busy.value < |s.heap|)
    requires f < |c.source| && f !in c.links && f !in s.types && !c.source[f].persistent
    ensures Valid(c, Allocate(c, s, f), busy, n) && Extends(s, Allocate(c, s, f))
  {
    AllocatePairs(c, s, f);
    assert forall i :: 0 <= i < |s.queue| ==> s.queue[i] in s.queue;
    forall j | 0 <= j < |s.origin| + 1 ensures Fits(c, Allocate(c, s, f), j, busy, n) {
      AllocateFits(c, s, busy, n, f, j);
    }
  }

  /** A set of nodes that holds, with each node, the followed children it does not share. */
  ghost predicate ClosedUnderChildren(c: Setting, nodes: set<Id>) {
    forall x, k :: x in nodes && x < |c.source| && k in c.source[x].kids && c.Followed(k) < |c.source| ==>
      c.Followed(k) in nodes || c.source[c.Followed(k)].persistent
  }

  /** Rewriting the next child of the clone being worked on. */
  function Rewrite(s: State, target: Id, i: nat, kid: Id): State
    requires target < |s.heap| && i < |s.heap[target].kids|
  {
    s.(heap := s.heap[target := s.heap[target].(kids := s.heap[target].kids[i := kid])])
  }

  lemma RewriteFits(c: Setting, s: State, target: Id, i: nat, kid: Id, j: nat)
    requires |c.source| <= target < |s.heap| && i < |s.heap[target].kids| && j < |s.origin|
    requires Paired(c, s) && Paired(c, Rewrite(s, target, i, kid))
    requires Fits(c, s, j, Some(target), i)
    requires |c.source| + j == target ==>
               var x := c.source[s.origin[j]].kids[i]; c.Resolved(s.types, x) && kid == c.Image(s.types, x)
    ensures Fits(c, Rewrite(s, target, i, kid), j, Some(target), i + 1)
  {
  }

  lemma RewriteKeeps(c: Setting, s: State, target: Id, i: nat, kid: Id)
    requires |c.source| <= target < |s.heap| && i < |s.heap[target].kids|
    requires Valid(c, s, Some(target), i) && i < |c.source[s.origin[target - |c.source|]].kids|
    requires var x := c.source[s.origin[target - |c.source|]].kids[i]; c.Resolved(s.types, x) && kid == c.Image(s.types, x)
    ensures Valid(c, Rewrite(s, target, i, kid), Some(target), i + 1)
  {
    var s' := Rewrite(s, target, i, kid);
    assert s'.heap[..|c.source|] == s.heap[..|c.source|];
    assert Paired(c, s');
    var next := i + 1;
    forall j | 0 <= j < |s'.origin| ensures Fits(c, s', j, Some(target), next) {
      RewriteFits(c, s, target, i, kid, j);
    }
  }

  /** With all its children rewritten, the clone is finished like any other. */
  lemma FinishedKeeps(c: Setting, s: State, target: Id)
    requires |c.source| <= target < |s.heap| && Valid(c, s, Some(target), |s.heap[target].kids|)
    ensures Valid(c, s, None, 0)
  {
    forall j | 0 <= j < |s.origin| ensures Fits(c, s, j, None, 0) {
      assert Fits(c, s, j, Some(target), |s.heap[target].kids|);
    }
  }

  /** Taking a waiting clone from the queue to work on it. */
  lemma PopKeeps(c: Setting, s: State, target: Id)
    requires s.queue != [] && target == s.queue[|s.queue| - 1] && Valid(c, s, None, 0)
    ensures Valid(c, s.(queue := s.queue[..|s.queue| - 1]), Some(target), 0)
  {
    var s' := s.(queue := s.queue[..|s.queue| - 1]);
    forall q | q in s'.queue ensures q in s.queue && q != target {
      var i :| 0 <= i < |s'.queue| && s'.queue[i] == q;
      assert s.queue[i] == q;
    }
    assert target in s.queue;
    forall j | 0 <= j < |s'.origin| ensures Fits(c, s', j, Some(target), 0) {
      assert Fits(c, s, j, None, 0);
      assert |c.source| + j in s.queue <==> |c.source| + j in s'.queue || |c.source| + j == target;
    }
  }

  lemma SameKeysSameTypes(c: Setting, s: State, s': State)
    requires Extends(s, s') && s'.types != s.types
    ensures exists k :: k in s'.types && k !in s.types
  {
    if forall k :: k in s'.types ==> k in s.types { assert false; }
  }

  /** Later states leave fewer originals without a clone, or the same originals. */
  lemma NewKeysShrink(c: Setting, s: State, s': State)
    requires Paired(c, s) && Paired(c, s') && Extends(s, s')
    ensures s'.types == s.types
         || (set x | 0 <= x < |c.source| && x !in s'.types) < (set x | 0 <= x < |c.source| && x !in s.types)
  {
    if s'.types != s.types {
      SameKeysSameTypes(c, s, s');
      var k :| k in s'.types && k !in s.types;
      var left := set x | 0 <= x < |c.source| && x !in s.types;
      var left' := set x | 0 <= x < |c.source| && x !in s'.types;
      assert left' <= left && k in left && k !in left';
    }
  }

  /** The node reached by following links and child positions. */
  function Walk(heap: seq<Node>, links: map<Id, Id>, x: Id, path: seq<nat>): Option<Id>
    decreases |path|
  {
    var f := Follow(links, x);
    if f >= |heap| then None
    else if path == [] then Some(f)
    else if path[0] < |heap[f].kids| then Walk(heap, links, heap[f].kids[path[0]], path[1..])
    else None
  }

  /** It starts at the node that is followed to, and each step goes to one of the children. */
  lemma {:induction false} WalkOn(heap: seq<Node>, links: map<Id, Id>, x: Id, path: seq<nat>, i: nat)
    ensures Walk(heap, links, x, []) == if Follow(links, x) < |heap| then Some(Follow(links, x)) else None
    ensures var a := Walk(heap, links, x, path);
            && (a.Some? ==> a.value < |heap|)
            && Walk(heap, links, x, path + [i])
               == if a.Some? && i < |heap[a.value].kids| then Walk(heap, links, heap[a.value].kids[i], []) else None
    decreases |path|
  {
    var f := Follow(links, x);
    if path == [] {
      assert [] + [i] == [i] && [i][1..] == [];
    } else if f < |heap| && path[0] < |heap[f].kids| {
      WalkOn(heap, links, heap[f].kids[path[0]], path[1..], i);
      assert (path + [i])[1..] == path[1..] + [i];
    }
  }

  /** A finished state: the source and the settled outcome of calls on it. */
  ghost predicate Finished(c: Setting, s: State) {
    c.Valid() && Valid(c, s, None, 0) && s.queue == []
  }

  /** Walks from source nodes see the source only: it is untouched. */
  lemma {:induction false} SourceUntouched(c: Setting, s: State, x: Id, path: seq<nat>)
    requires c.Valid() && Paired(c, s) && x < |c.source|
    ensures Walk(s.heap, c.links, x, path) == Walk(c.source, c.links, x, path)
    ensures Walk(c.source, c.links, x, path).Some? ==> Walk(c.source, c.links, x, path).value < |c.source|
    decreases |path|
  {
    var f := c.Followed(x);
    assert s.heap[f] == s.heap[..|c.source|][f];
    if path != [] && path[0] < |c.source[f].kids| {
      assert c.source[f].kids[path[0]] in c.source[f].kids;
      SourceUntouched(c, s, c.source[f].kids[path[0]], path[1..]);
    }
  }

  /** The clone of `a`, or `a` itself where the graphs are shared. */
  ghost predicate Counterpart(c: Setting, s: State, a: Id, b: Id) {
    b == a || (a in s.types && b == s.types[a])
  }

  /** A finished clone: the original's contents, and its children's places. */
  lemma CloneOf(c: Setting, s: State, f: Id)
    requires Finished(c, s) && f in s.types
    ensures f < |c.source| <= s.types[f] < |s.heap| && c.Followed(s.types[f]) == s.types[f]
    ensures var from, node := c.source[f], s.heap[s.types[f]];
            && SameContents(from, node, c.replacement) && !node.persistent && |node.kids| == |from.kids|
            && forall i :: 0 <= i < |from.kids| ==> c.Resolved(s.types, from.kids[i]) && node.kids[i] == c.Image(s.types, from.kids[i])
  {
    var j :| 0 <= j < |s.origin| && s.origin[j] == f;
    assert Fits(c, s, j, None, 0);
  }

  /** The clone looks like the original along every path: both walks end together, at
      counterparts with the same contents and the same number of children. */
  lemma {:induction false} SamePaths(c: Setting, s: State, x: Id, path: seq<nat>)
    requires Finished(c, s) && x < |c.source| && c.Resolved(s.types, x)
    ensures var a, b := Walk(c.source, c.links, x, path), Walk(s.heap, c.links, c.Image(s.types, x), path);
            && (a.Some? <==> b.Some?)
            && (a.Some? ==>
                  && a.value < |c.source| && b.value < |s.heap| && Counterpart(c, s, a.value, b.value)
                  && |s.heap[b.value].kids| == |c.source[a.value].kids|
                  && if a == b then s.heap[b.value] == c.source[a.value]
                     else SameContents(c.source[a.value], s.heap[b.value], c.replacement))
    decreases |path|
  {
    var f := c.Followed(x);
    assert Follow(c.links, f) == f;
    if f in s.types {
      CloneOf(c, s, f);
      if path != [] && path[0] < |c.source[f].kids| {
        assert c.source[f].kids[path[0]] in c.source[f].kids;
        SamePaths(c, s, c.source[f].kids[path[0]], path[1..]);
      }
    } else {
      assert s.heap[..|c.source|] == c.source;
      SourceUntouched(c, s, f, path);
      SourceSamePath(c, x, path);
      if Walk(c.source, c.links, x, path).Some? {
        var a := Walk(c.source, c.links, x, path).value;
        assert s.heap[a] == s.heap[..|c.source|][a];
      }
    }
  }

  lemma SourceSamePath(c: Setting, x: Id, path: seq<nat>)
    requires c.Valid() && x < |c.source|
    ensures Walk(c.source, c.links, c.Followed(x), path) == Walk(c.source, c.links, x, path)
  {
    assert Follow(c.links, c.Followed(x)) == c.Followed(x);
  }

  /** Sharing and cycles are kept: two walks meet in the clone's own nodes exactly when
      they meet in the original. All of the clone's own nodes are fresh. */
  lemma SameSharing(c: Setting, s: State, x: Id, p: seq<nat>, q: seq<nat>)
    requires Finished(c, s) && x < |c.source| && c.Resolved(s.types, x)
    ensures var a, b := Walk(c.source, c.links, x, p), Walk(s.heap, c.links, c.Image(s.types, x), p);
            var a', b' := Walk(c.source, c.links, x, q), Walk(s.heap, c.links, c.Image(s.types, x), q);
            b.Some? && b'.Some? && b.value >= |c.source| && b'.value >= |c.source| ==> (b == b' <==> a == a')
  {
    SamePaths(c, s, x, p);
    SamePaths(c, s, x, q);
    var a, b := Walk(c.source, c.links, x, p), Walk(s.heap, c.links, c.Image(s.types, x), p);
    var a', b' := Walk(c.source, c.links, x, q), Walk(s.heap, c.links, c.Image(s.types, x), q);
    if b.Some? && b'.Some? && b.value >= |c.source| && b'.value >= |c.source| {
      assert a.value in s.origin && a'.value in s.origin;
    }
  }

  // ---- steps of the cloner ----

  /** The child that is cloned next is one of the original's, and reached. */
  lemma KidIsOriginal(c: Setting, s: State, target: Id, i: nat, closed: set<Id>)
    requires c.Valid() && Valid(c, s, Some(target), i) && |c.source| <= target < |s.heap| && i < |s.heap[target].kids|
    requires s.types.Keys <= closed && ClosedUnderChildren(c, closed)
    ensures target - |c.source| < |s.origin| && s.origin[target - |c.source|] < |c.source|
    ensures var from := c.source[s.origin[target - |c.source|]];
            i < |from.kids| && s.heap[target].kids[i] == from.kids[i] && from.kids[i] < |c.source|
            && (c.Followed(from.kids[i]) in closed || c.source[c.Followed(from.kids[i])].persistent)
  {
    var original := s.origin[target - |c.source|];
    assert Fits(c, s, target - |c.source|, Some(target), i);
    assert original in closed && c.source[original].kids[i] in c.source[original].kids;
  }

  /** Cloning a child of it leaves the clone itself as it was. */
  lemma TargetStays(c: Setting, s: State, s': State, target: Id, i: nat)
    requires |c.source| <= target < |s.heap| && i < |s.heap[target].kids|
    requires Valid(c, s, Some(target), i) && Valid(c, s', Some(target), i) && Extends(s, s')
    ensures target < |s'.heap| && |s'.heap[target].kids| == |s.heap[target].kids|
    ensures s'.origin[target - |c.source|] == s.origin[target - |c.source|]
    ensures |c.source[s.origin[target - |c.source|]].kids| == |s.heap[target].kids|
  {
    assert Fits(c, s, target - |c.source|, Some(target), i);
    assert Fits(c, s', target - |c.source|, Some(target), i);
  }

  lemma ExtendsRewritten(s: State, s': State, target: Id, i: nat, kid: Id)
    requires Extends(s, s') && target < |s'.heap| && i < |s'.heap[target].kids|
    ensures Extends(s, Rewrite(s', target, i, kid))
  {
  }

  lemma ExtendsKeys(s: State, s': State)
    requires Extends(s, s')
    ensures s.types.Keys <= s'.types.Keys
  {
  }

  lemma ImageStays(c: Setting, s: State, s': State, x: Id)
    requires Extends(s, s') && c.Resolved(s.types, x)
    ensures c.Resolved(s'.types, x)
  {
  }

  lemma ExtendsTransitive(a: State, b: State, c: State)
    requires Extends(a, b) && Extends(b.(queue := []), c.(queue := []))
    ensures Extends(a, c)
  {
  }

  lemma SameTypesBetween(a: State, b: State, c: State)
    requires Extends(a, b) && Extends(b, c)
    ensures Extends(a, c) && (a.types == c.types ==> a.types == b.types)
  {
    if a.types == c.types {
      assert forall k :: k in b.types ==> k in c.types && c.types[k] == b.types[k];
    }
  }

  /** A clone is no original, and not persistent. */
  lemma WaitingIsNotFound(c: Setting, s: State, target: Id)
    requires c.Valid() && Valid(c, s, None, 0) && target in s.queue
    ensures c.Followed(target) == target && |c.source| <= target < |s.heap|
    ensures target !in s.types && !s.heap[target].persistent
  {
    assert Fits(c, s, target - |c.source|, None, 0);
  }

  lemma PairedStates(c: Setting, s: State, s': State)
    requires Valid(c, s, None, 0) && Valid(c, s', None, 0)
    ensures Paired(c, s) && Paired(c, s')
  {
  }

  /** No smaller set of originals has all those cloned before and `x`, and is closed. */
  ghost predicate Least(c: Setting, before: set<Id>, x: Id, closed: set<Id>)
    requires c.Followed(x) < |c.source|
  {
    forall nodes :: Reaches(c, before, x, nodes) ==> closed <= nodes
  }

  ghost predicate Reaches(c: Setting, before: set<Id>, x: Id, nodes: set<Id>)
    requires c.Followed(x) < |c.source|
  {
    before <= nodes && (c.Followed(x) in nodes || c.source[c.Followed(x)].persistent) && ClosedUnderChildren(c, nodes)
  }

  /** There are as many originals with clones as there are clones. */
  lemma {:induction false} OriginsCount(origin: seq<Id>, types: map<Id, Id>, base: nat)
    requires forall j :: 0 <= j < |origin| ==> origin[j] in types && types[origin[j]] == base + j
    requires forall k :: k in types ==> k in origin
    ensures |types.Keys| == |types| == |origin|
  {
    if origin == [] {
      assert types.Keys == {};
    } else {
      var n := |origin| - 1;
      var less := types - {origin[n]};
      assert forall k :: k in less ==> k in origin[..n];
      OriginsCount(origin[..n], less, base);
      assert types.Keys == less.Keys + {origin[n]};
    }
  }

  lemma CountsMade(c: Setting, s: State, s': State, x: Id, closed: set<Id>)
    requires c.Valid() && Valid(c, s, None, 0) && Valid(c, s', None, 0) && x < |c.source| && s'.types.Keys <= closed
    ensures |s'.origin| <= |closed| && |s.types| == |s.origin|
    ensures Least(c, s.types.Keys, x, closed) && s.types.Keys <= s'.types.Keys && c.Resolved(s'.types, x) && s'.queue == [] ==>
              |closed| == |s'.origin|
  {
    OriginsCount(s.origin, s.types, |c.source|);
    OriginsCount(s'.origin, s'.types, |c.source|);
    CardinalityOfSubset(s'.types.Keys, closed);
    if Least(c, s.types.Keys, x, closed) && s.types.Keys <= s'.types.Keys && c.Resolved(s'.types, x) && s'.queue == [] {
      FinishedIsClosed(c, s');
      assert Reaches(c, s.types.Keys, x, s'.types.Keys);
      assert closed == s'.types.Keys;
    }
  }

  lemma FinishedIsClosed(c: Setting, s: State)
    requires c.Valid() && Valid(c, s, None, 0) && s.queue == []
    ensures ClosedUnderChildren(c, s.types.Keys)
  {
    forall x, k | x in s.types.Keys && x < |c.source| && k in c.source[x].kids && c.Followed(k) < |c.source|
      ensures c.Followed(k) in s.types.Keys || c.source[c.Followed(k)].persistent {
      var j :| 0 <= j < |s.origin| && s.origin[j] == x;
      assert Fits(c, s, j, None, 0);
      var i :| 0 <= i < |c.source[x].kids| && c.source[x].kids[i] == k;
    }
  }

  lemma RootIsFound(c: Setting, s: State, x: Id)
    requires c.Valid() && Valid(c, s, None, 0) && x < |c.source| && c.Resolved(s.types, x)
    ensures c.Followed(x) < |s.heap| && (c.Followed(x) !in s.types ==> s.heap[c.Followed(x)].persistent)
  {
    var f := c.Followed(x);
    assert s.heap[f] == s.heap[..|c.source|][f];
  }

  class TypeCloner {
    const setting: Setting
    const limit: nat
    const errorType: Id
    var heap: seq<Node>
    var queue: seq<Id>
    var types: map<Id, Id>
    var steps: nat
    ghost var origin: seq<Id>

    constructor (setting: Setting, limit: nat, errorType: Id)
      requires setting.Valid()
      ensures this.setting == setting && this.limit == limit && this.errorType == errorType
      ensures Now() == State(setting.source, map[], [], [])
      ensures Settled()
    {
      this.setting, this.limit, this.errorType := setting, limit, errorType;
      heap, queue, types, steps, origin := setting.source, [], map[], 0, [];
    }

    ghost function Now(): State
      reads this
    {
      State(heap, types, queue, origin)
    }

    /** The state between calls. */
    ghost predicate Settled()
      reads this
    {
      setting.Valid() && Valid(setting, Now(), None, 0) && queue == []
    }

    predicate HasExceededIterationLimit()
      reads this
    {
      limit != 0 && steps + |queue| >= limit
    }

    function Find(x: Id): Option<Id>
      reads this
    {
      var f := setting.Followed(x);
      if f in types then Some(types[f])
      else if f < |heap| && heap[f].persistent then Some(f)
      else None
    }

    method ShallowClone(x: Id, ghost busy: Option<Id>, ghost n: nat) returns (target: Id)
      requires setting.Valid() && Valid(setting, Now(), busy, n) && x < |setting.source| && (busy.Some? ==> busy.value < |heap|)
      modifies `heap, `types, `queue, `origin
      ensures Valid(setting, Now(), busy, n) && Extends(old(Now()), Now())
      ensures setting.Resolved(types, x) && target == setting.Image(types, x)
      ensures types.Keys <= old(types.Keys) + {setting.Followed(x)}
      ensures types == old(types) ==> Now() == old(Now())
      ensures |queue| + |old(origin)| == |old(queue)| + |origin| && |origin| <= |old(origin)| + 1
      ensures types.Keys == old(types.Keys) + (if |origin| > |old(origin)| then {setting.Followed(x)} else {})
      ensures |origin| > |old(origin)| ==> setting.Followed(x) !in old(types.Keys) && !setting.source[setting.Followed(x)].persistent
    {
      var f := setting.Followed(x);
      var found := Find(f);
      assert Follow(setting.links, f) == f;
      assert heap[f] == heap[..|setting.source|][f];
      if found.Some? {
        return found.value;
      }
      AllocateKeeps(setting, Now(), busy, n, f);
      target := |heap|;
      heap := heap + [Copy(heap[f], setting.replacement)];
      types := types[f := target];
      queue := queue + [target];
      origin := origin + [f];
    }

    /** `child = shallowClone(child)`, for the clone's next child. */
    method CloneChild(target: Id, i: nat, ghost closed: set<Id>)
      requires setting.Valid() && Valid(setting, Now(), Some(target), i)
      requires |setting.source| <= target < |heap| && i < |heap[target].kids|
      requires types.Keys <= closed && ClosedUnderChildren(setting, closed)
      modifies `heap, `types, `queue, `origin
      ensures Valid(setting, Now(), Some(target), i + 1) && Extends(old(Now()), Now())
      ensures |heap[target].kids| == |old(heap[target].kids)|
      ensures types.Keys <= closed
      ensures types == old(types) ==> queue == old(queue)
      ensures |queue| + |old(origin)| == |old(queue)| + |origin|
    {
      hide Valid, ClosedUnderChildren, Extends;
      KidIsOriginal(setting, Now(), target, i, closed);
      var kid := ShallowClone(heap[target].kids[i], Some(target), i);
      assert Extends(old(Now()), Now());
      TargetStays(setting, old(Now()), Now(), target, i);
      RewriteKeeps(setting, Now(), target, i, kid);
      ExtendsRewritten(old(Now()), Now(), target, i, kid);
      heap := heap[target := heap[target].(kids := heap[target].kids[i := kid])];
    }

    /** Rewrites the children of a clone in place, one by one. */
    method CloneChildren(target: Id, ghost closed: set<Id>)
      requires setting.Valid() && Valid(setting, Now(), Some(target), 0) && |setting.source| <= target < |heap|
      requires types.Keys <= closed && ClosedUnderChildren(setting, closed)
      modifies `heap, `types, `queue, `origin
      ensures Valid(setting, Now(), None, 0) && Extends(old(Now()), Now())
      ensures types.Keys <= closed
      ensures types == old(types) ==> queue == old(queue)
      ensures |queue| + |old(origin)| == |old(queue)| + |origin|
    {
      hide Valid, ClosedUnderChildren, Paired;
      var i := 0;
      while i < |heap[target].kids|
        invariant target < |heap| && 0 <= i <= |heap[target].kids| && Extends(old(Now()), Now())
        invariant Valid(setting, Now(), Some(target), i) && types.Keys <= closed
        invariant types == old(types) ==> queue == old(queue)
        invariant |queue| + |old(origin)| == |old(queue)| + |origin|
        decreases |heap[target].kids| - i
      {
        ghost var before := Now();
        CloneChild(target, i, closed);
        SameTypesBetween(old(Now()), before, Now());
        i := i + 1;
      }
      FinishedKeeps(setting, Now(), target);
    }

    /** The worklist loop; it stops early only at the iteration limit, and that at the first
        clone with which the clones made and those that wait reach it. */
    method Run(ghost closed: set<Id>)
      requires setting.Valid() && Valid(setting, Now(), None, 0)
      requires types.Keys <= closed && ClosedUnderChildren(setting, closed)
      modifies `heap, `types, `queue, `origin, `steps
      ensures Valid(setting, Now(), None, 0) && Extends(old(Now()), Now())
      ensures types.Keys <= closed
      ensures |origin| >= |old(origin)|
      ensures var load := old(steps + |queue|) + |origin| - |old(origin)|;
              if old(queue) == [] then queue == [] && origin == old(origin) && steps == load
              else if limit == 0 || load + 1 < limit then queue == [] && steps == load
              else steps + |queue| == load + 1
    {
      hide Valid, ClosedUnderChildren, Paired;
      while queue != []
        invariant Valid(setting, Now(), None, 0) && Extends(old(Now()), Now()) && types.Keys <= closed
        invariant |origin| >= |old(origin)| && (old(queue) == [] ==> queue == [] && origin == old(origin))
        invariant steps + |queue| == old(steps + |queue|) + |origin| - |old(origin)|
        invariant (steps == old(steps) && queue == old(queue) && origin == old(origin))
               || queue != [] || limit == 0 || steps + |queue| + 1 < limit
        decreases (set x | 0 <= x < |setting.source| && x !in types), |queue|
      {
        steps := steps + 1;
        if HasExceededIterationLimit() {
          break;
        }
        var target := queue[|queue| - 1];
        ghost var before := Now();
        queue := queue[..|queue| - 1];
        PopKeeps(setting, before, target);
        WaitingIsNotFound(setting, before, target);
        var found := Find(target);
        if found.None? {
          CloneChildren(target, closed);
        }
        PairedStates(setting, before, Now());
        NewKeysShrink(setting, before, Now());
        ExtendsTransitive(old(Now()), before, Now());
      }
    }

    /** Clones one type. Unless the limit stops it, every original reached so far has its
        finished clone, no more originals than those reached have one, and the answer is
        the clone of `x`, or `x` itself when it is shared. It is stopped exactly when the
        steps before, the clones it makes and one more reach the limit. */
    method Clone(x: Id, ghost closed: set<Id>) returns (r: Id, exceeded: bool)
      requires Settled() && x < |setting.source|
      requires types.Keys <= closed && ClosedUnderChildren(setting, closed)
      requires setting.Followed(x) in closed || setting.source[setting.Followed(x)].persistent
      modifies `heap, `types, `queue, `origin, `steps
      ensures |origin| >= |old(origin)|
      ensures var made := |origin| - |old(origin)|;
              exceeded <==> limit != 0 && old(steps) + (if made == 0 then 0 else made + 1) >= limit
      ensures exceeded ==> r == errorType
      ensures !exceeded ==> Settled() && Extends(old(Now()), Now()) && types.Keys <= closed
      ensures !exceeded ==> setting.Resolved(types, x) && r == setting.Image(types, x)
      ensures Least(setting, old(types.Keys), x, closed) ==>
                var needed := |closed| - |old(types)|;
                exceeded <==> limit != 0 && old(steps) + (if needed == 0 then 0 else needed + 1) >= limit
    {
      hide Valid, ClosedUnderChildren, Paired, Least;
      ghost var start := Now();
      var shallow := ShallowClone(x, None, 0);
      ExtendsKeys(start, Now());
      ghost var between := Now();
      Run(closed);
      ExtendsTransitive(start, between, Now());
      ExtendsKeys(start, Now());
      ImageStays(setting, between, Now(), x);
      hide Extends;
      exceeded := HasExceededIterationLimit();
      CountsMade(setting, start, Now(), x, closed);
      if exceeded {
        r := errorType;
        types := types[x := errorType];
      } else {
        RootIsFound(setting, Now(), x);
        var found := Find(x);
        r := if found.Some? then found.value else errorType;
      }
    }

    /** The free function `clone`: a new cloner, with no steps taken, on what was cloned so
        far. */
    method CloneAnew(x: Id, ghost closed: set<Id>) returns (r: Id, exceeded: bool)
      requires Settled() && x < |setting.source|
      requires types.Keys <= closed && ClosedUnderChildren(setting, closed)
      requires setting.Followed(x) in closed || setting.source[setting.Followed(x)].persistent
      modifies `heap, `types, `queue, `origin, `steps
      ensures setting.source[x].persistent ==> r == x && !exceeded && Now() == old(Now())
      ensures exceeded ==> r == errorType
      ensures !exceeded ==> Settled() && Extends(old(Now()), Now()) && types.Keys <= closed
      ensures !exceeded && !setting.source[x].persistent ==> setting.Resolved(types, x) && r == setting.Image(types, x)
      ensures !setting.source[x].persistent && Least(setting, old(types.Keys), x, closed) ==>
                var needed := |closed| - |old(types)|;
                exceeded <==> 0 < limit <= needed + 1 && needed > 0
    {
      hide Valid, ClosedUnderChildren, Paired, Least;
      if setting.source[x].persistent {
        return x, false;
      }
      steps := 0;
      r, exceeded := Clone(x, closed);
    }
  }
}
