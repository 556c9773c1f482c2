/** The whole of tools/heapgraph.py: the walk over the dump, and the split of its tree into
    memory categories. */
module HeapReport {

  import opened Basics
  import Graph = HeapGraph
  import opened HeapCategories

  function ObjectsOf(heap: Graph.Heap, addrs: seq<Graph.Addr>): (r: seq<Object>)
    requires forall a :: a in addrs ==> a in heap
    ensures |r| == |addrs|
  {
    if addrs == [] then []
    else [Object(heap[addrs[0]].size, heap[addrs[0]].cat)] + ObjectsOf(heap, addrs[1..])
  }

  lemma {:induction false} ObjectsHaveSizes(heap: Graph.Heap, addrs: seq<Graph.Addr>)
    requires forall a :: a in addrs ==> a in heap
    ensures SizeOf(ObjectsOf(heap, addrs)) == Graph.Sizes(heap, addrs)
  {
    if addrs != [] {
      ObjectsHaveSizes(heap, addrs[1..]);
      assert ObjectsOf(heap, addrs)[1..] == ObjectsOf(heap, addrs[1..]);
    }
  }

  lemma {:induction false} ObjectsHaveCategories(heap: Graph.Heap, addrs: seq<Graph.Addr>)
    requires forall a :: a in addrs ==> a in heap
    ensures forall a :: a in addrs ==> Object(heap[a].size, heap[a].cat) in ObjectsOf(heap, addrs)
    ensures forall o :: o in ObjectsOf(heap, addrs) ==> exists a :: a in addrs && o == Object(heap[a].size, heap[a].cat)
  {
    if addrs != [] {
      ObjectsHaveCategories(heap, addrs[1..]);
      var first, rest := Object(heap[addrs[0]].size, heap[addrs[0]].cat), ObjectsOf(heap, addrs[1..]);
      assert ObjectsOf(heap, addrs) == [first] + rest;
      assert first in [first] && forall o :: o in [first] + rest <==> o == first || o in rest;
      assert addrs[0] in addrs && forall a :: a in addrs[1..] ==> a in addrs;
      assert forall a :: a in addrs ==> a == addrs[0] || a in addrs[1..];
    }
  }

  // ---- the tree that the walk's nodes make ----

  predicate IsChild(nodes: seq<Graph.Node>, k: nat, c: nat)
    requires k < |nodes| && c < |nodes|
  {
    nodes[c].name in nodes[k].children && nodes[k].children[nodes[c].name] == c
  }

  /** The tree below node `k`; children are made one after the other, so their numbers tell
      their order. */
  function Unfold(heap: Graph.Heap, nodes: seq<Graph.Node>, k: nat): Branch
    requires k < |nodes| && Graph.OwnCounted(heap, nodes)
    decreases |nodes| - k, |nodes| + 1
  {
    assert Graph.NodeCounts(heap, nodes[k]);
    var n := nodes[k];
    Node(n.name, n.count, n.size, ObjectsOf(heap, n.objects), Children(heap, nodes, k, k + 1))
  }

  /** The children of `k` from number `c` on. */
  function Children(heap: Graph.Heap, nodes: seq<Graph.Node>, k: nat, c: nat): seq<Branch>
    requires k < c <= |nodes| && Graph.OwnCounted(heap, nodes)
    decreases |nodes| - k, |nodes| - c
  {
    if c == |nodes| then []
    else (if IsChild(nodes, k, c) then [Unfold(heap, nodes, c)] else []) + Children(heap, nodes, k, c + 1)
  }

  lemma {:induction false} UnfoldIsCounted(heap: Graph.Heap, nodes: seq<Graph.Node>, k: nat)
    requires k < |nodes| && Graph.OwnCounted(heap, nodes)
    ensures Counted(Unfold(heap, nodes, k))
    decreases |nodes| - k, |nodes| + 1
  {
    assert Graph.NodeCounts(heap, nodes[k]);
    ObjectsHaveSizes(heap, nodes[k].objects);
    ChildrenAreCounted(heap, nodes, k, k + 1);
  }

  lemma {:induction false} ChildrenAreCounted(heap: Graph.Heap, nodes: seq<Graph.Node>, k: nat, c: nat)
    requires k < c <= |nodes| && Graph.OwnCounted(heap, nodes)
    ensures forall t :: t in Children(heap, nodes, k, c) ==> Counted(t)
    decreases |nodes| - k, |nodes| - c
  {
    if c < |nodes| {
      UnfoldIsCounted(heap, nodes, c);
      ChildrenAreCounted(heap, nodes, k, c + 1);
    }
  }

  // ---- totals ----

  ghost function Own(nodes: seq<Graph.Node>, k: nat): Amount
    requires k < |nodes|
  {
    Amount(nodes[k].size, nodes[k].count)
  }

  /** What the nodes from `j` on count themselves. */
  ghost function OwnFrom(nodes: seq<Graph.Node>, j: nat): Amount
    requires j <= |nodes|
    decreases |nodes| - j
  {
    if j == |nodes| then Amount(0, 0) else Plus(Own(nodes, j), OwnFrom(nodes, j + 1))
  }

  /** The totals of the nodes from `i` on whose parents come before `j`. */
  ghost function Open(heap: Graph.Heap, nodes: seq<Graph.Node>, parents: seq<nat>, j: nat, i: nat): Amount
    requires i <= |nodes| == |parents| && Graph.OwnCounted(heap, nodes)
    decreases |nodes| - i
  {
    if i == |nodes| then Amount(0, 0)
    else Plus(if parents[i] < j then Total(Unfold(heap, nodes, i)) else Amount(0, 0), Open(heap, nodes, parents, j, i + 1))
  }

  lemma OneParent(nodes: seq<Graph.Node>, parents: seq<nat>, k: nat, c: nat)
    requires Graph.IsTree(nodes, parents) && k < |nodes| && 0 < c < |nodes|
    ensures IsChild(nodes, k, c) <==> parents[c] == k
  {
    assert Graph.ChildOfParent(nodes, parents, c) && Graph.ParentOfChildren(nodes, parents, k);
  }

  lemma {:induction false} NoneOpen(heap: Graph.Heap, nodes: seq<Graph.Node>, parents: seq<nat>, i: nat)
    requires i <= |nodes| == |parents| && Graph.OwnCounted(heap, nodes)
    ensures Open(heap, nodes, parents, 0, i) == Amount(0, 0)
    decreases |nodes| - i
  {
    hide Total, Unfold;
    if i < |nodes| { NoneOpen(heap, nodes, parents, i + 1); }
  }

  /** Once `j` counts as come, its children are open. */
  lemma {:induction false} OpenStep(heap: Graph.Heap, nodes: seq<Graph.Node>, parents: seq<nat>, j: nat, i: nat)
    requires j < i <= |nodes| == |parents| && Graph.IsTree(nodes, parents) && Graph.OwnCounted(heap, nodes)
    ensures Open(heap, nodes, parents, j + 1, i) == Plus(Open(heap, nodes, parents, j, i), TotalAll(Children(heap, nodes, j, i)))
    decreases |nodes| - i
  {
    hide Total, Unfold, Graph.IsTree;
    if i < |nodes| {
      OpenStep(heap, nodes, parents, j, i + 1);
      OneParent(nodes, parents, j, i);
      var rest := Children(heap, nodes, j, i + 1);
      if parents[i] == j { Totals(Unfold(heap, nodes, i), rest); } else { assert [] + rest == rest; }
    }
  }

  lemma OneLevel(heap: Graph.Heap, nodes: seq<Graph.Node>, k: nat)
    requires k < |nodes| && Graph.OwnCounted(heap, nodes)
    ensures Total(Unfold(heap, nodes, k)) == Plus(Own(nodes, k), TotalAll(Children(heap, nodes, k, k + 1)))
  {
    hide TotalAll, Children;
  }

  /** What is open at `j` is all that the nodes from `j` on count. */
  lemma {:induction false} OpenIsOwn(heap: Graph.Heap, nodes: seq<Graph.Node>, parents: seq<nat>, j: nat)
    requires 0 < j <= |nodes| && Graph.IsTree(nodes, parents) && Graph.OwnCounted(heap, nodes)
    ensures Open(heap, nodes, parents, j, j) == OwnFrom(nodes, j)
    decreases |nodes| - j
  {
    hide Total, TotalAll, Children, Unfold, Own;
    if j < |nodes| {
      OpenIsOwn(heap, nodes, parents, j + 1);
      OneLevel(heap, nodes, j);
      OpenStep(heap, nodes, parents, j, j + 1);
      assert Graph.ChildOfParent(nodes, parents, j);
    }
  }

  lemma RootHasAll(heap: Graph.Heap, nodes: seq<Graph.Node>, parents: seq<nat>)
    requires Graph.IsTree(nodes, parents) && Graph.OwnCounted(heap, nodes)
    ensures Total(Unfold(heap, nodes, 0)) == OwnFrom(nodes, 0)
  {
    hide Total, TotalAll, Children, Unfold, Own, Open;
    OneLevel(heap, nodes, 0);
    NoneOpen(heap, nodes, parents, 1);
    OpenStep(heap, nodes, parents, 0, 1);
    OpenIsOwn(heap, nodes, parents, 1);
  }

  lemma {:induction false} OwnIsAll(heap: Graph.Heap, nodes: seq<Graph.Node>, j: nat)
    requires j <= |nodes| && Graph.OwnCounted(heap, nodes)
    ensures OwnFrom(nodes, j) == Amount(Graph.TotalSize(nodes[j..]), |Graph.AllObjects(nodes[j..])|)
    decreases |nodes| - j
  {
    if j < |nodes| {
      OwnIsAll(heap, nodes, j + 1);
      assert nodes[j..][1..] == nodes[j + 1..];
      assert Graph.NodeCounts(heap, nodes[j]);
    }
  }

  /** The tree that the walk leaves has the size and the number of the charged objects. */
  lemma WalkedTotal(heap: Graph.Heap, old_: Option<set<Graph.Addr>>, visited: set<Graph.Addr>, charged: seq<Graph.Addr>,
                    nodes: seq<Graph.Node>, parents: seq<nat>)
    requires Graph.IsTree(nodes, parents) && Graph.Charges(heap, old_, visited, charged, nodes)
    ensures Total(Unfold(heap, nodes, 0)) == Amount(Graph.Sizes(heap, charged), |charged|)
  {
    RootHasAll(heap, nodes, parents);
    OwnIsAll(heap, nodes, 0);
    assert nodes[0..] == nodes;
  }

  // ---- categories ----

  /** Some node has an object of the category. */
  ghost predicate Occurs(heap: Graph.Heap, nodes: seq<Graph.Node>, category: nat) {
    exists m, a :: 0 <= m < |nodes| && a in nodes[m].objects && a in heap && heap[a].cat == category
  }

  lemma {:induction false} CategoriesOccur(heap: Graph.Heap, nodes: seq<Graph.Node>, k: nat)
    requires k < |nodes| && Graph.OwnCounted(heap, nodes)
    ensures forall i :: i in Categories(Unfold(heap, nodes, k)) ==> Occurs(heap, nodes, i)
    decreases |nodes| - k, |nodes| + 1
  {
    assert Graph.NodeCounts(heap, nodes[k]);
    ObjectsHaveCategories(heap, nodes[k].objects);
    ChildrenOccur(heap, nodes, k, k + 1);
    var t := Unfold(heap, nodes, k);
    forall i | i in Categories(t) ensures Occurs(heap, nodes, i) {
      if i !in CategoriesAll(t.children) {
        var o :| o in t.objects && o.cat == i;
      }
    }
  }

  lemma {:induction false} ChildrenOccur(heap: Graph.Heap, nodes: seq<Graph.Node>, k: nat, c: nat)
    requires k < c <= |nodes| && Graph.OwnCounted(heap, nodes)
    ensures forall i :: i in CategoriesAll(Children(heap, nodes, k, c)) ==> Occurs(heap, nodes, i)
    decreases |nodes| - k, |nodes| - c
  {
    hide Categories, Unfold, Occurs;
    if c < |nodes| {
      CategoriesOccur(heap, nodes, c);
      ChildrenOccur(heap, nodes, k, c + 1);
      FirstCategories(Unfold(heap, nodes, c), Children(heap, nodes, k, c + 1));
    }
  }

  lemma FirstCategories(head: Branch, rest: seq<Branch>)
    ensures CategoriesAll([head] + rest) == Categories(head) + CategoriesAll(rest) && [] + rest == rest
  {
    assert ([head] + rest)[1..] == rest;
  }

  lemma {:induction false} ChildIsAmong(heap: Graph.Heap, nodes: seq<Graph.Node>, k: nat, c: nat, m: nat)
    requires k < c <= m < |nodes| && Graph.OwnCounted(heap, nodes) && IsChild(nodes, k, m)
    ensures Categories(Unfold(heap, nodes, m)) <= CategoriesAll(Children(heap, nodes, k, c))
    decreases m - c
  {
    hide Categories, Unfold;
    FirstCategories(Unfold(heap, nodes, c), Children(heap, nodes, k, c + 1));
    if c < m { ChildIsAmong(heap, nodes, k, c + 1, m); }
  }

  /** A node's objects are among those below the root. */
  lemma {:induction false} AllBelowRoot(heap: Graph.Heap, nodes: seq<Graph.Node>, parents: seq<nat>, m: nat)
    requires m < |nodes| && Graph.IsTree(nodes, parents) && Graph.OwnCounted(heap, nodes)
    ensures Categories(Unfold(heap, nodes, m)) <= Categories(Unfold(heap, nodes, 0))
    decreases m
  {
    hide CategoriesAll, Children;
    if m > 0 {
      var p := parents[m];
      assert Graph.ChildOfParent(nodes, parents, m);
      ChildIsAmong(heap, nodes, p, p + 1, m);
      AllBelowRoot(heap, nodes, parents, p);
    }
  }

  lemma {:induction false} InSomeNode(nodes: seq<Graph.Node>, a: Graph.Addr)
    ensures a in Graph.AllObjects(nodes) <==> exists m :: 0 <= m < |nodes| && a in nodes[m].objects
  {
    if nodes != [] {
      InSomeNode(nodes[1..], a);
      forall m | 0 <= m < |nodes| && a in nodes[m].objects ensures a in Graph.AllObjects(nodes) {
        if m > 0 { assert nodes[m] == nodes[1..][m - 1]; }
      }
    }
  }

  /** The categories of the tree are those of the charged objects. */
  lemma WalkedCategories(heap: Graph.Heap, old_: Option<set<Graph.Addr>>, visited: set<Graph.Addr>, charged: seq<Graph.Addr>,
                         nodes: seq<Graph.Node>, parents: seq<nat>, category: nat)
    requires Graph.IsTree(nodes, parents) && Graph.Charges(heap, old_, visited, charged, nodes)
    ensures category in Categories(Unfold(heap, nodes, 0)) <==> exists a :: a in charged && heap[a].cat == category
  {
    CategoriesOccur(heap, nodes, 0);
    if category in Categories(Unfold(heap, nodes, 0)) {
      var m, a :| 0 <= m < |nodes| && a in nodes[m].objects && a in heap && heap[a].cat == category;
      InSomeNode(nodes, a);
      assert a in multiset(charged);
    }
    if a :| a in charged && heap[a].cat == category {
      assert a in multiset(charged);
      InSomeNode(nodes, a);
      var m :| 0 <= m < |nodes| && a in nodes[m].objects;
      assert Graph.NodeCounts(heap, nodes[m]);
      ObjectsHaveCategories(heap, nodes[m].objects);
      AllBelowRoot(heap, nodes, parents, m);
      assert Object(heap[a].size, heap[a].cat) in Unfold(heap, nodes, m).objects;
    }
  }

  lemma {:induction false} CategoriesInRange(t: Branch, n: nat)
    requires forall i :: i in Categories(t) ==> i < n
    ensures CategoriesBelow(t, n)
    decreases t
  {
    forall o | o in t.objects ensures o.cat < n { assert o.cat in Categories(t); }
    assert forall i :: i in CategoriesAll(t.children) ==> i in Categories(t);
    AllInRange(t.children, n);
  }

  lemma {:induction false} AllInRange(ts: seq<Branch>, n: nat)
    requires forall i :: i in CategoriesAll(ts) ==> i < n
    ensures CategoriesBelowAll(ts, n)
    decreases ts
  {
    if ts != [] {
      assert forall i :: i in Categories(ts[0]) || i in CategoriesAll(ts[1..]) ==> i in CategoriesAll(ts);
      CategoriesInRange(ts[0], n);
      AllInRange(ts[1..], n);
    }
  }

  lemma {:induction false} AnnotatedCategories(t: Branch, start: nat)
    ensures Categories(Annotated(t, start)) == set i | i in Categories(t) :: Merged(i, start)
    decreases t
  {
    RecategorisedCategories(t.objects, start);
    AnnotatedAllCategories(t.children, start);
  }

  lemma {:induction false} AnnotatedAllCategories(ts: seq<Branch>, start: nat)
    ensures CategoriesAll(AnnotatedAll(ts, start)) == set i | i in CategoriesAll(ts) :: Merged(i, start)
    decreases ts
  {
    if ts != [] {
      AnnotatedCategories(ts[0], start);
      AnnotatedAllCategories(ts[1..], start);
      assert AnnotatedAll(ts, start)[1..] == AnnotatedAll(ts[1..], start);
    }
  }

  lemma {:induction false} RecategorisedCategories(objects: seq<Object>, start: nat)
    ensures (set o | o in Recategorised(objects, start) :: o.cat) == set o | o in objects :: Merged(o.cat, start)
  {
    if objects != [] {
      RecategorisedCategories(objects[1..], start);
      var all, rest := Recategorised(objects, start), Recategorised(objects[1..], start);
      assert all == [all[0]] + rest && objects == [objects[0]] + objects[1..];
      hide Recategorised;
      assert (set o | o in all :: o.cat) == {all[0].cat} + set o | o in rest :: o.cat;
      assert (set o | o in objects :: Merged(o.cat, start)) == {all[0].cat} + set o | o in objects[1..] :: Merged(o.cat, start);
    }
  }

  // ---- the report ----

  /** Categories below `start` count as category 0; objects that are then in different
      categories have differently named ones. */
  ghost predicate NamesDiffer(heap: Graph.Heap, charged: seq<Graph.Addr>, start: nat, names: nat -> string)
    requires forall a :: a in charged ==> a in heap
  {
    forall a, b :: a in charged && b in charged ==>
      var i := if heap[a].cat >= start then heap[a].cat else 0;
      var j := if heap[b].cat >= start then heap[b].cat else 0;
      names(i) == names(j) ==> i == j
  }

  lemma NamesAgree(heap: Graph.Heap, old_: Option<set<Graph.Addr>>, visited: set<Graph.Addr>, charged: seq<Graph.Addr>,
                   nodes: seq<Graph.Node>, parents: seq<nat>, start: nat, names: nat -> string)
    requires Graph.IsTree(nodes, parents) && Graph.Charges(heap, old_, visited, charged, nodes)
    requires forall a :: a in charged ==> heap[a].cat < CATEGORIES
    ensures NamesTellApart(Annotated(Unfold(heap, nodes, 0), start), names, CATEGORIES) <==> NamesDiffer(heap, charged, start, names)
  {
    var t := Unfold(heap, nodes, 0);
    var u := Annotated(t, start);
    AnnotatedCategories(t, start);
    forall i ensures i in Categories(t) <==> exists a :: a in charged && heap[a].cat == i {
      WalkedCategories(heap, old_, visited, charged, nodes, parents, i);
    }
    hide Categories, Annotated, Unfold, Graph.Charges, Graph.IsTree;
    if NamesTellApart(u, names, CATEGORIES) {
      forall a, b | a in charged && b in charged
        ensures var i, j := Merged(heap[a].cat, start), Merged(heap[b].cat, start); names(i) == names(j) ==> i == j {
        var i, j := Merged(heap[a].cat, start), Merged(heap[b].cat, start);
        assert heap[a].cat in Categories(t) && heap[b].cat in Categories(t);
        assert i in Categories(u) && j in Categories(u);
      }
    }
    if NamesDiffer(heap, charged, start, names) {
      forall i, j | 0 <= i < j < CATEGORIES && i in Categories(u) && j in Categories(u) ensures names(i) != names(j) {
        var ci :| ci in Categories(t) && i == Merged(ci, start);
        var cj :| cj in Categories(t) && j == Merged(cj, start);
        var a :| a in charged && heap[a].cat == ci;
        var b :| b in charged && heap[b].cat == cj;
      }
    }
  }

  lemma RootIsThere(nodes: seq<Graph.Node>, parents: seq<nat>)
    requires Graph.IsTree(nodes, parents)
    ensures |nodes| > 0
  {
  }

  /** Walk and split together: the new root's children add up to the reachable new objects,
      each counted once, if and only if the categories that they stay in have different
      names; otherwise objects are missing. */
  method Report(heap: Graph.Heap, roots: seq<(string, Graph.Addr)>, old_: Option<set<Graph.Addr>>, start: nat, names: nat -> string)
    returns (children: seq<Branch>, visited: set<Graph.Addr>, ghost charged: seq<Graph.Addr>)
    requires Graph.ValidHeap(heap) && (forall r :: r in roots ==> r.1 in heap) && forall a :: a in heap ==> heap[a].cat < 256
    ensures forall a :: a in visited <==> Graph.Reachable(heap, roots, a)
    ensures NoDuplicates(charged) && (forall a :: a in charged ==> a in heap)
    ensures forall a :: a in charged <==> a in visited && !(old_.Some? && a in old_.value)
    ensures TotalAll(children) == Amount(Graph.Sizes(heap, charged), |charged|) <==> NamesDiffer(heap, charged, start, names)
    ensures TotalAll(children).count <= |charged|
  {
    hide Graph.ValidHeap, Graph.Reachable, Graph.ChargedInPlace, Graph.IsTree, Unfold, Annotated, NamesTellApart, NamesDiffer, NoDuplicates;
    var tree;
    tree, visited, charged := Graph.Walk(heap, roots, old_);
    Graph.ChargesAreCounted(heap, old_, visited, charged, tree.nodes);
    assert |tree.nodes| > 0 by { RootIsThere(tree.nodes, tree.parents); }
    var t := Unfold(heap, tree.nodes, 0);
    WalkedTotal(heap, old_, visited, charged, tree.nodes, tree.parents);
    NamesAgree(heap, old_, visited, charged, tree.nodes, tree.parents, start, names);
    UnfoldIsCounted(heap, tree.nodes, 0);
    forall i | i in Categories(t) ensures i < CATEGORIES {
      WalkedCategories(heap, old_, visited, charged, tree.nodes, tree.parents, i);
    }
    CategoriesInRange(t, CATEGORIES);
    children := SplitTree(t, start, names);
  }
}
