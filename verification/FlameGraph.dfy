/** The tree of named nodes behind a flame graph, and its layout (tools/svg.py). */
module FlameGraph {

  import opened Basics

  /** A node as the arena holds it: children are arena positions, in the order of creation. */
  datatype Node = Node(name: string, own: int, children: seq<nat>, width: int, offset: int, depth: nat)

  // ---- the shape of the tree ----

  ghost predicate IsTree(nodes: seq<Node>, parents: seq<nat>) {
    && |nodes| > 0 && |parents| == |nodes|
    && (forall c :: 0 < c < |nodes| ==> UnderParent(nodes, parents, c))
    && (forall p :: 0 <= p < |nodes| ==> OverChildren(nodes, parents, p))
  }

  ghost predicate UnderParent(nodes: seq<Node>, parents: seq<nat>, c: nat)
    requires |parents| == |nodes| && c < |nodes|
  {
    parents[c] < c && c in nodes[parents[c]].children
  }

  ghost predicate OverChildren(nodes: seq<Node>, parents: seq<nat>, p: nat)
    requires |parents| == |nodes| && p < |nodes|
  {
    var kids := nodes[p].children;
    && (forall i :: 0 <= i < |kids| ==> p < kids[i] < |nodes| && parents[kids[i]] == p)
    && (forall i, j :: 0 <= i < j < |kids| ==> kids[i] < kids[j] && nodes[kids[i]].name != nodes[kids[j]].name)
  }

  /** Only layout fields differ. */
  ghost predicate SameShape(nodes: seq<Node>, nodes': seq<Node>) {
    && |nodes'| == |nodes|
    && forall k :: 0 <= k < |nodes| ==> SameNode(nodes[k], nodes'[k])
  }

  ghost predicate SameNode(n: Node, n': Node) {
    n'.name == n.name && n'.own == n.own && n'.children == n.children
  }

  lemma NamesAndChildrenMakeTree(nodes: seq<Node>, nodes': seq<Node>, parents: seq<nat>)
    requires IsTree(nodes, parents) && |nodes'| == |nodes|
    requires forall k :: 0 <= k < |nodes| ==> nodes'[k].name == nodes[k].name && nodes'[k].children == nodes[k].children
    ensures IsTree(nodes', parents)
  {
    forall c | 0 < c < |nodes'| ensures UnderParent(nodes', parents, c) { assert UnderParent(nodes, parents, c); }
    forall p | 0 <= p < |nodes'| ensures OverChildren(nodes', parents, p) { assert OverChildren(nodes, parents, p); }
  }

  lemma SameShapeIsTree(nodes: seq<Node>, nodes': seq<Node>, parents: seq<nat>)
    requires IsTree(nodes, parents) && SameShape(nodes, nodes')
    ensures IsTree(nodes', parents)
  {
    assert forall k :: 0 <= k < |nodes| ==> SameNode(nodes[k], nodes'[k]);
    NamesAndChildrenMakeTree(nodes, nodes', parents);
  }

  // ---- growing the tree ----

  /** The names on the way from the root. */
  ghost function PathTo(nodes: seq<Node>, parents: seq<nat>, k: nat): seq<string>
    requires IsTree(nodes, parents) && k < |nodes|
  {
    if k == 0 then []
    else
      assert UnderParent(nodes, parents, k);
      PathTo(nodes, parents, parents[k]) + [nodes[k].name]
  }

  /** No two nodes have the same path. */
  lemma {:induction false} PathsTellApart(nodes: seq<Node>, parents: seq<nat>, a: nat, b: nat)
    requires IsTree(nodes, parents) && a < |nodes| && b < |nodes| && PathTo(nodes, parents, a) == PathTo(nodes, parents, b)
    ensures a == b
  {
    if a != 0 && b != 0 {
      var p, q := parents[a], parents[b];
      assert UnderParent(nodes, parents, a) && UnderParent(nodes, parents, b);
      PrefixesAgree(PathTo(nodes, parents, p), nodes[a].name, PathTo(nodes, parents, q), nodes[b].name);
      PathsTellApart(nodes, parents, p, q);
      assert OverChildren(nodes, parents, p);
      var i :| 0 <= i < |nodes[p].children| && nodes[p].children[i] == a;
      var j :| 0 <= j < |nodes[p].children| && nodes[p].children[j] == b;
    }
  }

  lemma PrefixesAgree<T>(s: seq<T>, x: T, t: seq<T>, y: T)
    requires s + [x] == t + [y]
    ensures s == t && x == y
  {
    assert |s + [x]| == |t + [y]|;
    assert (s + [x])[..|s|] == s && (t + [y])[..|t|] == t;
    assert (s + [x])[|s|] == x && (t + [y])[|t|] == y;
  }

  lemma {:induction false} PathKept(nodes: seq<Node>, parents: seq<nat>, nodes': seq<Node>, parents': seq<nat>, k: nat)
    requires IsTree(nodes, parents) && IsTree(nodes', parents') && k < |nodes| <= |nodes'|
    requires forall i :: 0 <= i < |nodes| ==> parents'[i] == parents[i] && nodes'[i].name == nodes[i].name
    ensures PathTo(nodes', parents', k) == PathTo(nodes, parents, k)
  {
    if k != 0 {
      assert UnderParent(nodes, parents, k);
      PathKept(nodes, parents, nodes', parents', parents[k]);
    }
  }

  function WithChild(nodes: seq<Node>, k: nat, name: string): seq<Node>
    requires k < |nodes|
  {
    nodes[k := nodes[k].(children := nodes[k].children + [|nodes|])] + [Node(name, 0, [], 0, 0, 0)]
  }

  lemma WithChildIsTree(nodes: seq<Node>, parents: seq<nat>, k: nat, name: string)
    requires IsTree(nodes, parents) && k < |nodes|
    requires forall c :: c in nodes[k].children ==> c < |nodes| && nodes[c].name != name
    ensures IsTree(WithChild(nodes, k, name), parents + [k])
  {
    var nodes', parents' := WithChild(nodes, k, name), parents + [k];
    forall c | 0 < c < |nodes'| ensures UnderParent(nodes', parents', c) {
      if c < |nodes| { assert UnderParent(nodes, parents, c); }
    }
    forall p | 0 <= p < |nodes'| ensures OverChildren(nodes', parents', p) {
      if p < |nodes| { NewChildIsOver(nodes, parents, k, name, p); }
    }
  }

  lemma NewChildIsOver(nodes: seq<Node>, parents: seq<nat>, k: nat, name: string, p: nat)
    requires IsTree(nodes, parents) && k < |nodes| && p < |nodes|
    requires forall c :: c in nodes[k].children ==> c < |nodes| && nodes[c].name != name
    ensures OverChildren(WithChild(nodes, k, name), parents + [k], p)
  {
    var nodes' := WithChild(nodes, k, name);
    assert OverChildren(nodes, parents, p);
    var old_, kids := nodes[p].children, nodes'[p].children;
    forall i, j | 0 <= i < j < |kids| ensures kids[i] < kids[j] && nodes'[kids[i]].name != nodes'[kids[j]].name {
      if j == |old_| { assert kids[i] == old_[i]; }
    }
  }

  /** The child of that name, if there is one. */
  function Named(nodes: seq<Node>, kids: seq<nat>, name: string): (r: Option<nat>)
    requires forall i :: 0 <= i < |kids| ==> kids[i] < |nodes|
    ensures r.Some? ==> r.value in kids && r.value < |nodes| && nodes[r.value].name == name
    ensures r.None? ==> forall c :: c in kids ==> nodes[c].name != name
  {
    if kids == [] then None
    else if nodes[kids[0]].name == name then Some(kids[0])
    else
      assert kids == [kids[0]] + kids[1..];
      Named(nodes, kids[1..], name)
  }

  // ---- what the layout promises ----

  /** The widths of some nodes together. */
  function WidthSum(nodes: seq<Node>, xs: seq<nat>): int
    requires forall i :: 0 <= i < |xs| ==> xs[i] < |nodes|
  {
    if xs == [] then 0 else WidthSum(nodes, xs[..|xs| - 1]) + nodes[xs[|xs| - 1]].width
  }

  ghost predicate KidsExist(nodes: seq<Node>, p: nat) {
    p < |nodes| && forall i :: 0 <= i < |nodes[p].children| ==> nodes[p].children[i] < |nodes|
  }

  /** A node is as wide as its own value and its children together. */
  ghost predicate WidthRight(nodes: seq<Node>, p: nat) {
    KidsExist(nodes, p) && nodes[p].width == nodes[p].own + WidthSum(nodes, nodes[p].children)
  }

  /** Wider siblings come first; of equal ones, the one made first. */
  ghost predicate Before(nodes: seq<Node>, a: nat, b: nat)
    requires a < |nodes| && b < |nodes|
  {
    nodes[a].width > nodes[b].width || (nodes[a].width == nodes[b].width && a < b)
  }

  /** Siblings stand side by side in order, from `base` on without a gap. */
  ghost predicate Packed(nodes: seq<Node>, p: nat, base: int) {
    KidsExist(nodes, p) && exists order :: PackedIn(nodes, p, base, order)
  }

  ghost predicate PackedIn(nodes: seq<Node>, p: nat, base: int, order: seq<nat>)
    requires KidsExist(nodes, p)
  {
    && multiset(order) == multiset(nodes[p].children)
    && (forall i :: 0 <= i < |order| ==> order[i] < |nodes|)
    && (forall i, j :: 0 <= i < j < |order| ==> Before(nodes, order[i], order[j]))
    && (forall i :: 0 <= i < |order| ==> nodes[order[i]].offset == base + WidthSum(nodes, order[..i]))
  }

  ghost predicate DepthRight(nodes: seq<Node>, p: nat) {
    KidsExist(nodes, p) && forall i :: 0 <= i < |nodes[p].children| ==> nodes[nodes[p].children[i]].depth == nodes[p].depth + 1
  }

  /** The whole layout. */
  ghost predicate LaidOut(nodes: seq<Node>) {
    forall p :: 0 <= p < |nodes| ==> WidthRight(nodes, p) && Packed(nodes, p, nodes[p].offset) && DepthRight(nodes, p)
  }

  // ---- sums of widths ----

  lemma {:induction false} WidthSumSame(nodes: seq<Node>, nodes': seq<Node>, xs: seq<nat>)
    requires forall i :: 0 <= i < |xs| ==> xs[i] < |nodes| && xs[i] < |nodes'| && nodes'[xs[i]].width == nodes[xs[i]].width
    ensures WidthSum(nodes', xs) == WidthSum(nodes, xs)
  {
    if xs != [] { WidthSumSame(nodes, nodes', xs[..|xs| - 1]); }
  }

  lemma {:induction false} WidthSumTakeOut(nodes: seq<Node>, xs: seq<nat>, i: nat)
    requires i < |xs| && forall k :: 0 <= k < |xs| ==> xs[k] < |nodes|
    ensures WidthSum(nodes, xs) == WidthSum(nodes, xs[..i] + xs[i + 1..]) + nodes[xs[i]].width
  {
    var last := |xs| - 1;
    if i == last {
      assert xs[..i] + xs[i + 1..] == xs[..last];
    } else {
      WidthSumTakeOut(nodes, xs[..last], i);
      var rest := xs[..i] + xs[i + 1..];
      assert rest[..|rest| - 1] == xs[..last][..i] + xs[..last][i + 1..];
    }
  }

  lemma InPermutation<T>(xs: seq<T>, ys: seq<T>, x: T)
    requires multiset(xs) == multiset(ys) && x in xs
    ensures x in ys
  {
    assert multiset(xs)[x] > 0;
  }

  lemma TakeOutSame<T>(xs: seq<T>, ys: seq<T>, i: nat)
    requires multiset(xs) == multiset(ys) && xs != [] && i < |ys| && ys[i] == xs[|xs| - 1]
    ensures multiset(ys[..i] + ys[i + 1..]) == multiset(xs[..|xs| - 1])
  {
    assert xs == xs[..|xs| - 1] + [xs[|xs| - 1]];
    assert ys == ys[..i] + [ys[i]] + ys[i + 1..];
    assert multiset(ys[..i] + ys[i + 1..]) == multiset(ys) - multiset{ys[i]};
  }

  /** The order of the nodes does not matter. */
  lemma {:induction false} WidthSumPermuted(nodes: seq<Node>, xs: seq<nat>, ys: seq<nat>)
    requires multiset(xs) == multiset(ys)
    requires forall k :: 0 <= k < |xs| ==> xs[k] < |nodes|
    requires forall k :: 0 <= k < |ys| ==> ys[k] < |nodes|
    ensures WidthSum(nodes, xs) == WidthSum(nodes, ys)
  {
    if xs == [] {
      assert |multiset(xs)| == 0 && |multiset(ys)| == |ys|;
    } else {
      var last := |xs| - 1;
      InPermutation(xs, ys, xs[last]);
      var i :| 0 <= i < |ys| && ys[i] == xs[last];
      var rest := ys[..i] + ys[i + 1..];
      TakeOutSame(xs, ys, i);
      WidthSumTakeOut(nodes, ys, i);
      WidthSumPermuted(nodes, xs[..last], rest);
    }
  }

  /** Of nodes with no negative width, the first few are no wider than all. */
  lemma {:induction false} WidthSumGrows(nodes: seq<Node>, xs: seq<nat>, i: nat)
    requires i <= |xs| && forall k :: 0 <= k < |xs| ==> xs[k] < |nodes| && nodes[xs[k]].width >= 0
    ensures 0 <= WidthSum(nodes, xs[..i]) <= WidthSum(nodes, xs)
    decreases xs
  {
    if |xs| == 0 {
    } else if i == |xs| {
      WidthSumGrows(nodes, xs[..|xs| - 1], i - 1);
      assert xs[..i] == xs;
    } else {
      WidthSumGrows(nodes, xs[..|xs| - 1], i);
      assert xs[..|xs| - 1][..i] == xs[..i];
    }
  }

  // ---- what the layout means ----

  ghost predicate NoneNegative(nodes: seq<Node>) {
    forall k :: 0 <= k < |nodes| ==> nodes[k].own >= 0
  }

  lemma {:induction false} WidthsNotNegative(nodes: seq<Node>, parents: seq<nat>, p: nat)
    requires IsTree(nodes, parents) && LaidOut(nodes) && NoneNegative(nodes) && p < |nodes|
    ensures nodes[p].width >= 0
    decreases |nodes| - p
  {
    hide Packed, DepthRight, WidthSum;
    var kids := nodes[p].children;
    assert OverChildren(nodes, parents, p) && WidthRight(nodes, p);
    forall k | 0 <= k < |kids| ensures nodes[kids[k]].width >= 0 {
      WidthsNotNegative(nodes, parents, kids[k]);
    }
    WidthSumGrows(nodes, kids, |kids|);
    assert kids[..|kids|] == kids;
  }

  lemma RowIsAllChildren(nodes: seq<Node>, p: nat, base: int, order: seq<nat>)
    requires KidsExist(nodes, p) && PackedIn(nodes, p, base, order)
    ensures multiset(order) == multiset(nodes[p].children) && forall i :: 0 <= i < |order| ==> order[i] < |nodes|
  {
  }

  /** Where the `i`-th node of a packed row ends. */
  lemma RowEnds(nodes: seq<Node>, p: nat, base: int, order: seq<nat>, i: nat)
    requires KidsExist(nodes, p) && PackedIn(nodes, p, base, order) && i < |order|
    ensures order[i] < |nodes|
    ensures nodes[order[i]].offset == base + WidthSum(nodes, order[..i])
    ensures nodes[order[i]].offset + nodes[order[i]].width == base + WidthSum(nodes, order[..i + 1])
  {
    assert order[..i + 1][..i] == order[..i];
  }

  lemma NoRow(nodes: seq<Node>)
    ensures WidthSum(nodes, []) == 0
  {
  }

  ghost predicate NoNegativeWidth(nodes: seq<Node>) {
    forall k :: 0 <= k < |nodes| ==> nodes[k].width >= 0
  }

  lemma RowGrows(nodes: seq<Node>, order: seq<nat>, i: nat, j: nat)
    requires i <= j <= |order| && (forall k :: 0 <= k < |order| ==> order[k] < |nodes|) && NoNegativeWidth(nodes)
    ensures 0 <= WidthSum(nodes, order[..i]) <= WidthSum(nodes, order[..j])
  {
    WidthSumGrows(nodes, order[..j], i);
    assert order[..j][..i] == order[..i];
  }

  /** Siblings in order: the first ends before the second begins. */
  lemma PackedSiblings(nodes: seq<Node>, p: nat, base: int, a: nat, b: nat)
    requires Packed(nodes, p, base) && a in nodes[p].children && b in nodes[p].children
    requires a < |nodes| && b < |nodes| && Before(nodes, a, b) && NoNegativeWidth(nodes)
    ensures nodes[a].offset + nodes[a].width <= nodes[b].offset
  {
    hide WidthSum;
    var order :| PackedIn(nodes, p, base, order);
    InPermutation(nodes[p].children, order, a);
    InPermutation(nodes[p].children, order, b);
    var i :| 0 <= i < |order| && order[i] == a;
    var j :| 0 <= j < |order| && order[j] == b;
    assert j < i ==> Before(nodes, order[j], order[i]);
    assert i < j;
    RowEnds(nodes, p, base, order, i);
    RowEnds(nodes, p, base, order, j);
    RowGrows(nodes, order, i + 1, j);
  }

  lemma RowInside(nodes: seq<Node>, p: nat, base: int, order: seq<nat>, i: nat)
    requires KidsExist(nodes, p) && PackedIn(nodes, p, base, order) && i < |order| && NoNegativeWidth(nodes)
    ensures order[i] < |nodes|
    ensures base <= nodes[order[i]].offset
    ensures nodes[order[i]].offset + nodes[order[i]].width <= base + WidthSum(nodes, nodes[p].children)
  {
    RowIsAllChildren(nodes, p, base, order);
    RowEnds(nodes, p, base, order, i);
    hide WidthSum, PackedIn, NoNegativeWidth, KidsExist;
    RowGrows(nodes, order, 0, i);
    RowGrows(nodes, order, i + 1, |order|);
    assert order[..|order|] == order;
    WidthSumPermuted(nodes, order, nodes[p].children);
  }

  lemma PackedInside(nodes: seq<Node>, p: nat, base: int, c: nat)
    requires Packed(nodes, p, base) && c in nodes[p].children && c < |nodes| && NoNegativeWidth(nodes)
    ensures base <= nodes[c].offset && nodes[c].offset + nodes[c].width <= base + WidthSum(nodes, nodes[p].children)
  {
    var order :| PackedIn(nodes, p, base, order);
    RowIsAllChildren(nodes, p, base, order);
    hide WidthSum, PackedIn, NoNegativeWidth;
    InPermutation(nodes[p].children, order, c);
    var i :| 0 <= i < |order| && order[i] == c;
    RowInside(nodes, p, base, order, i);
  }

  lemma PackedFollows(nodes: seq<Node>, p: nat, base: int, c: nat)
    requires Packed(nodes, p, base) && c in nodes[p].children && c < |nodes|
    ensures nodes[c].offset == base
         || exists s :: s in nodes[p].children && s < |nodes| && nodes[c].offset == nodes[s].offset + nodes[s].width
  {
    var order :| PackedIn(nodes, p, base, order);
    RowIsAllChildren(nodes, p, base, order);
    hide WidthSum, PackedIn;
    InPermutation(nodes[p].children, order, c);
    var i :| 0 <= i < |order| && order[i] == c;
    RowEnds(nodes, p, base, order, i);
    if i > 0 {
      RowEnds(nodes, p, base, order, i - 1);
      InPermutation(order, nodes[p].children, order[i - 1]);
    } else {
      NoRow(nodes);
      assert order[..0] == [];
    }
  }

  /** A child lies inside its parent, clear of the parent's own part at the end, and follows
      right after its parent's start or another child. */
  lemma ChildInside(nodes: seq<Node>, parents: seq<nat>, c: nat)
    requires IsTree(nodes, parents) && LaidOut(nodes) && NoneNegative(nodes) && 0 < c < |nodes|
    ensures UnderParent(nodes, parents, c)
    ensures var p := nodes[parents[c]];
            && p.offset <= nodes[c].offset && nodes[c].offset + nodes[c].width <= p.offset + p.width - p.own
            && nodes[c].depth == p.depth + 1
            && (nodes[c].offset == p.offset
                || exists s :: s in p.children && s < |nodes| && nodes[c].offset == nodes[s].offset + nodes[s].width)
  {
    hide WidthSum, PackedIn;
    forall k | 0 <= k < |nodes| ensures nodes[k].width >= 0 { WidthsNotNegative(nodes, parents, k); }
    var p := parents[c];
    assert UnderParent(nodes, parents, c) && OverChildren(nodes, parents, p);
    assert WidthRight(nodes, p) && Packed(nodes, p, nodes[p].offset) && DepthRight(nodes, p);
    PackedInside(nodes, p, nodes[p].offset, c);
    PackedFollows(nodes, p, nodes[p].offset, c);
    var i :| 0 <= i < |nodes[p].children| && nodes[p].children[i] == c;
  }

  ghost predicate Clear(a: Node, b: Node) {
    a.offset + a.width <= b.offset || b.offset + b.width <= a.offset
  }

  /** No two nodes of one row overlap. */
  lemma {:induction false} RowsDoNotOverlap(nodes: seq<Node>, parents: seq<nat>, a: nat, b: nat)
    requires IsTree(nodes, parents) && LaidOut(nodes) && NoneNegative(nodes) && nodes[0].depth == 0
    requires a < |nodes| && b < |nodes| && a != b && nodes[a].depth == nodes[b].depth
    ensures Clear(nodes[a], nodes[b])
    decreases a + b
  {
    hide WidthRight, DepthRight, Packed;
    if a == 0 {
      ChildInside(nodes, parents, b);
      assert false;
    } else if b == 0 {
      ChildInside(nodes, parents, a);
      assert false;
    } else {
      var p, q := parents[a], parents[b];
      assert UnderParent(nodes, parents, a) && UnderParent(nodes, parents, b);
      ChildInside(nodes, parents, a);
      ChildInside(nodes, parents, b);
      forall k | 0 <= k < |nodes| ensures nodes[k].width >= 0 { WidthsNotNegative(nodes, parents, k); }
      if p == q {
        assert Packed(nodes, p, nodes[p].offset);
        if Before(nodes, a, b) {
          PackedSiblings(nodes, p, nodes[p].offset, a, b);
        } else {
          PackedSiblings(nodes, p, nodes[p].offset, b, a);
        }
      } else {
        RowsDoNotOverlap(nodes, parents, p, q);
      }
    }
  }

  // ---- the total ----

  /** The own values of the first `n` nodes together, and their widths without the root's. */
  ghost function OwnSum(nodes: seq<Node>, n: nat): int
    requires n <= |nodes|
  {
    if n == 0 then 0 else OwnSum(nodes, n - 1) + nodes[n - 1].own
  }

  ghost function WidthsBut0(nodes: seq<Node>, n: nat): int
    requires n <= |nodes|
  {
    if n <= 1 then 0 else WidthsBut0(nodes, n - 1) + nodes[n - 1].width
  }

  /** The widths of those of `kids` that lie below `limit`. */
  ghost function KidsBelow(nodes: seq<Node>, kids: seq<nat>, limit: nat): int
    requires forall i :: 0 <= i < |kids| ==> kids[i] < |nodes|
  {
    if kids == [] then 0
    else
      var last := |kids| - 1;
      KidsBelow(nodes, kids[..last], limit) + if kids[last] < limit then nodes[kids[last]].width else 0
  }

  lemma {:induction false} AllKidsBelow(nodes: seq<Node>, kids: seq<nat>)
    requires forall i :: 0 <= i < |kids| ==> kids[i] < |nodes|
    ensures KidsBelow(nodes, kids, |nodes|) == WidthSum(nodes, kids)
  {
    if kids != [] { AllKidsBelow(nodes, kids[..|kids| - 1]); }
  }

  lemma {:induction false} NoKidsBelow(nodes: seq<Node>, kids: seq<nat>, limit: nat)
    requires forall i :: 0 <= i < |kids| ==> limit <= kids[i] < |nodes|
    ensures KidsBelow(nodes, kids, limit) == 0
  {
    if kids != [] { NoKidsBelow(nodes, kids[..|kids| - 1], limit); }
  }

  lemma {:induction false} KidsBelowStep(nodes: seq<Node>, kids: seq<nat>, k: nat)
    requires forall i :: 0 <= i < |kids| ==> kids[i] < |nodes|
    requires forall i, j :: 0 <= i < j < |kids| ==> kids[i] < kids[j]
    requires k < |nodes|
    ensures KidsBelow(nodes, kids, k + 1) == KidsBelow(nodes, kids, k) + if k in kids then nodes[k].width else 0
  {
    if kids != [] {
      var init, last := kids[..|kids| - 1], kids[|kids| - 1];
      assert kids == init + [last];
      KidsBelowStep(nodes, init, k);
    }
  }

  /** For the first `n` nodes, the widths of their children below `limit`. */
  ghost function Rows(nodes: seq<Node>, n: nat, limit: nat): int
    requires n <= |nodes| && forall p :: 0 <= p < n ==> KidsExist(nodes, p)
  {
    if n == 0 then 0
    else
      assert KidsExist(nodes, n - 1);
      Rows(nodes, n - 1, limit) + KidsBelow(nodes, nodes[n - 1].children, limit)
  }

  lemma TreeKidsExist(nodes: seq<Node>, parents: seq<nat>)
    requires IsTree(nodes, parents)
    ensures forall p :: 0 <= p < |nodes| ==> KidsExist(nodes, p)
  {
    forall p | 0 <= p < |nodes| ensures KidsExist(nodes, p) { assert OverChildren(nodes, parents, p); }
  }

  /** Every node but the root is a child once. */
  lemma {:induction false} RowsStep(nodes: seq<Node>, parents: seq<nat>, n: nat, k: nat)
    requires IsTree(nodes, parents) && n <= |nodes| && k < |nodes|
    requires forall p :: 0 <= p < |nodes| ==> KidsExist(nodes, p)
    ensures Rows(nodes, n, k + 1) == Rows(nodes, n, k) + if 0 < k && parents[k] < n then nodes[k].width else 0
    decreases n
  {
    hide KidsBelow;
    if n > 0 {
      var p := n - 1;
      RowsStep(nodes, parents, p, k);
      assert OverChildren(nodes, parents, p) && KidsExist(nodes, p);
      KidsBelowStep(nodes, nodes[p].children, k);
      if k > 0 { assert UnderParent(nodes, parents, k); }
    }
  }

  lemma {:induction false} RowsAre(nodes: seq<Node>, parents: seq<nat>, k: nat)
    requires IsTree(nodes, parents) && k <= |nodes|
    requires forall p :: 0 <= p < |nodes| ==> KidsExist(nodes, p)
    ensures Rows(nodes, |nodes|, k) == WidthsBut0(nodes, k)
  {
    if k == 0 {
      NoRows(nodes, |nodes|);
    } else {
      RowsAre(nodes, parents, k - 1);
      RowsStep(nodes, parents, |nodes|, k - 1);
      if k > 1 { assert UnderParent(nodes, parents, k - 1); }
    }
  }

  lemma {:induction false} NoRows(nodes: seq<Node>, n: nat)
    requires n <= |nodes| && forall p :: 0 <= p < |nodes| ==> KidsExist(nodes, p)
    ensures Rows(nodes, n, 0) == 0
  {
    if n > 0 {
      assert KidsExist(nodes, n - 1);
      NoRows(nodes, n - 1);
      NoKidsBelow(nodes, nodes[n - 1].children, 0);
    }
  }

  lemma {:induction false} WidthsAreOwnAndRows(nodes: seq<Node>, n: nat)
    requires 0 < n <= |nodes| && (forall p :: 0 <= p < |nodes| ==> WidthRight(nodes, p))
    ensures forall p :: 0 <= p < |nodes| ==> KidsExist(nodes, p)
    ensures nodes[0].width + WidthsBut0(nodes, n) == OwnSum(nodes, n) + Rows(nodes, n, |nodes|)
  {
    hide KidsBelow, WidthSum;
    forall p | 0 <= p < |nodes| ensures KidsExist(nodes, p) { assert WidthRight(nodes, p); }
    assert WidthRight(nodes, n - 1);
    AllKidsBelow(nodes, nodes[n - 1].children);
    if n > 1 {
      WidthsAreOwnAndRows(nodes, n - 1);
    } else {
      assert OwnSum(nodes, 0) == 0 && Rows(nodes, 0, |nodes|) == 0;
    }
  }

  /** The root is as wide as the own values of all nodes together. */
  lemma RootIsTotal(nodes: seq<Node>, parents: seq<nat>)
    requires IsTree(nodes, parents) && LaidOut(nodes)
    ensures nodes[0].width == OwnSum(nodes, |nodes|)
  {
    TreeKidsExist(nodes, parents);
    WidthsAreOwnAndRows(nodes, |nodes|);
    RowsAre(nodes, parents, |nodes|);
  }

  // ---- sorting by width ----

  /** A stable sort of some nodes, widest first. */
  function ByWidth(nodes: seq<Node>, xs: seq<nat>): seq<nat>
    requires forall i :: 0 <= i < |xs| ==> xs[i] < |nodes|
    ensures multiset(ByWidth(nodes, xs)) == multiset(xs)
  {
    if xs == [] then []
    else
      assert xs == [xs[0]] + xs[1..];
      SortedExist(nodes, xs[1..], ByWidth(nodes, xs[1..]));
      Insert(nodes, xs[0], ByWidth(nodes, xs[1..]))
  }

  function Insert(nodes: seq<Node>, x: nat, ys: seq<nat>): (r: seq<nat>)
    requires x < |nodes| && forall i :: 0 <= i < |ys| ==> ys[i] < |nodes|
    ensures multiset(r) == multiset(ys) + multiset{x}
  {
    if ys == [] || nodes[ys[0]].width <= nodes[x].width then [x] + ys
    else
      assert ys == [ys[0]] + ys[1..];
      [ys[0]] + Insert(nodes, x, ys[1..])
  }

  lemma SortedExist(nodes: seq<Node>, xs: seq<nat>, ys: seq<nat>)
    requires multiset(xs) == multiset(ys) && forall i :: 0 <= i < |xs| ==> xs[i] < |nodes|
    ensures forall i :: 0 <= i < |ys| ==> ys[i] < |nodes|
  {
    forall i | 0 <= i < |ys| ensures ys[i] < |nodes| { InPermutation(ys, xs, ys[i]); }
  }

  ghost predicate InOrder(nodes: seq<Node>, xs: seq<nat>) {
    && (forall i :: 0 <= i < |xs| ==> xs[i] < |nodes|)
    && forall i, j :: 0 <= i < j < |xs| ==> Before(nodes, xs[i], xs[j])
  }

  lemma {:induction false} InsertKeepsOrder(nodes: seq<Node>, x: nat, ys: seq<nat>)
    requires x < |nodes| && InOrder(nodes, ys) && forall i :: 0 <= i < |ys| ==> x < ys[i]
    ensures InOrder(nodes, Insert(nodes, x, ys))
  {
    var r := Insert(nodes, x, ys);
    if ys == [] || nodes[ys[0]].width <= nodes[x].width {
      forall j | 0 <= j < |ys| ensures Before(nodes, x, ys[j]) {
        if j > 0 { assert Before(nodes, ys[0], ys[j]); }
      }
      InFront(nodes, x, ys);
    } else {
      InsertKeepsOrder(nodes, x, ys[1..]);
      var rest := Insert(nodes, x, ys[1..]);
      forall j | 0 <= j < |rest| ensures Before(nodes, ys[0], rest[j]) { InsertStaysBehind(nodes, x, ys, rest, j); }
      InFront(nodes, ys[0], rest);
    }
  }

  lemma InsertStaysBehind(nodes: seq<Node>, x: nat, ys: seq<nat>, rest: seq<nat>, j: nat)
    requires x < |nodes| && InOrder(nodes, ys) && ys != [] && nodes[ys[0]].width > nodes[x].width
    requires multiset(rest) == multiset(ys[1..]) + multiset{x} && j < |rest|
    ensures rest[j] < |nodes| && Before(nodes, ys[0], rest[j])
  {
    InPermutation(rest, ys[1..] + [x], rest[j]);
    if rest[j] != x {
      var i :| 0 <= i < |ys[1..]| && ys[1..][i] == rest[j];
      assert Before(nodes, ys[0], ys[i + 1]);
    }
  }

  lemma InFront(nodes: seq<Node>, x: nat, ys: seq<nat>)
    requires x < |nodes| && InOrder(nodes, ys) && forall j :: 0 <= j < |ys| ==> Before(nodes, x, ys[j])
    ensures InOrder(nodes, [x] + ys)
  {
    var r := [x] + ys;
    forall i, j | 0 <= i < j < |r| ensures Before(nodes, r[i], r[j]) {
      if i > 0 { assert Before(nodes, ys[i - 1], ys[j - 1]); }
    }
  }

  lemma {:induction false} ByWidthInOrder(nodes: seq<Node>, xs: seq<nat>)
    requires forall i :: 0 <= i < |xs| ==> xs[i] < |nodes|
    requires forall i, j :: 0 <= i < j < |xs| ==> xs[i] < xs[j]
    ensures InOrder(nodes, ByWidth(nodes, xs))
  {
    if xs != [] {
      var rest := ByWidth(nodes, xs[1..]);
      ByWidthInOrder(nodes, xs[1..]);
      forall i | 0 <= i < |rest| ensures xs[0] < rest[i] { InPermutation(rest, xs[1..], rest[i]); }
      InsertKeepsOrder(nodes, xs[0], rest);
    }
  }

  // ---- the list of all nodes ----

  /** All nodes, each one once, children after their parents. */
  ghost predicate Lists(nodes: seq<Node>, parents: seq<nat>, xs: seq<nat>)
    requires |parents| == |nodes|
  {
    && NoDuplicates(xs) && (forall k :: 0 <= k < |nodes| <==> k in xs)
    && forall i :: 0 <= i < |xs| ==> ParentEarlier(parents, xs, i, i)
  }

  ghost predicate ParentEarlier(parents: seq<nat>, xs: seq<nat>, i: nat, limit: nat)
    requires i < |xs| && limit <= |xs|
  {
    i == 0 || (0 < xs[i] < |parents| && parents[xs[i]] in xs[..limit])
  }

  /** As many different numbers below `n` as there can be. */
  lemma {:induction false} FewDifferent(xs: seq<nat>, n: nat)
    requires NoDuplicates(xs) && forall i :: 0 <= i < |xs| ==> xs[i] < n
    ensures |xs| <= n
    decreases n
  {
    if xs != [] {
      assert xs[0] < n;
      if i :| 0 <= i < |xs| && xs[i] == n - 1 {
        FewDifferent(xs[..i] + xs[i + 1..], n - 1);
      } else {
        FewDifferent(xs, n - 1);
      }
    }
  }

  /** Children of the first `limit` listed nodes are listed, and only they are. */
  ghost predicate Listed(nodes: seq<Node>, parents: seq<nat>, xs: seq<nat>, limit: nat)
    requires |parents| == |nodes| && limit <= |xs|
  {
    NoDuplicates(xs) && xs != [] && xs[0] == 0 && ParentsListed(parents, xs, limit) && ChildrenListed(parents, xs, limit)
  }

  ghost predicate ParentsListed(parents: seq<nat>, xs: seq<nat>, limit: nat)
    requires limit <= |xs|
  {
    forall i :: 0 <= i < |xs| ==> Known(parents, xs, limit, i)
  }

  ghost predicate Known(parents: seq<nat>, xs: seq<nat>, limit: nat, i: nat)
    requires limit <= |xs| && i < |xs|
  {
    xs[i] < |parents| && ParentEarlier(parents, xs, i, if i < limit then i else limit)
  }

  ghost predicate ChildrenListed(parents: seq<nat>, xs: seq<nat>, limit: nat)
    requires limit <= |xs|
  {
    forall c :: 0 < c < |parents| ==> Covered(parents, xs, limit, c)
  }

  ghost predicate Covered(parents: seq<nat>, xs: seq<nat>, limit: nat, c: nat)
    requires limit <= |xs| && c < |parents|
  {
    parents[c] in xs[..limit] ==> c in xs
  }

  lemma NextAreNew(nodes: seq<Node>, parents: seq<nat>, xs: seq<nat>, limit: nat, kids: seq<nat>)
    requires IsTree(nodes, parents) && limit < |xs| && Listed(nodes, parents, xs, limit)
    requires xs[limit] < |nodes| && kids == nodes[xs[limit]].children
    ensures NoDuplicates(xs + kids)
  {
    var ys := xs + kids;
    assert OverChildren(nodes, parents, xs[limit]);
    forall i, j | 0 <= i < j < |ys| ensures ys[i] != ys[j] {
      if j >= |xs| {
        if i >= |xs| {
          assert kids[i - |xs|] < kids[j - |xs|];
        } else {
          assert Known(parents, xs, limit, i);
          assert xs[limit] !in xs[..if i < limit then i else limit];
        }
      }
    }
  }

  lemma NextIsKnown(nodes: seq<Node>, parents: seq<nat>, xs: seq<nat>, limit: nat, kids: seq<nat>, i: nat)
    requires IsTree(nodes, parents) && limit < |xs| && Listed(nodes, parents, xs, limit)
    requires xs[limit] < |nodes| && kids == nodes[xs[limit]].children && i < |xs + kids|
    ensures Known(parents, xs + kids, limit + 1, i)
  {
    hide NoDuplicates;
    var ys := xs + kids;
    if i == 0 {
      assert Known(parents, xs, limit, 0) && ys[0] == xs[0];
    } else if i < |xs| {
      assert Known(parents, xs, limit, i) && ys[i] == xs[i];
      InLonger(xs, kids, if i < limit then i else limit, if i < limit + 1 then i else limit + 1, parents[xs[i]]);
    } else {
      assert OverChildren(nodes, parents, xs[limit]) && ys[i] == kids[i - |xs|];
      assert ys[..limit + 1][limit] == xs[limit];
    }
  }

  lemma InLonger<T>(xs: seq<T>, more: seq<T>, limit: nat, longer: nat, x: T)
    requires limit <= |xs| && limit <= longer <= |xs + more| && x in xs[..limit]
    ensures x in (xs + more)[..longer]
  {
    var i :| 0 <= i < limit && xs[i] == x;
    assert (xs + more)[..longer][i] == x;
  }

  lemma NextIsCovered(nodes: seq<Node>, parents: seq<nat>, xs: seq<nat>, limit: nat, kids: seq<nat>, c: nat)
    requires IsTree(nodes, parents) && limit < |xs| && Listed(nodes, parents, xs, limit)
    requires xs[limit] < |nodes| && kids == nodes[xs[limit]].children && 0 < c < |nodes|
    ensures Covered(parents, xs + kids, limit + 1, c)
  {
    assert Covered(parents, xs, limit, c) && UnderParent(nodes, parents, c);
    assert (xs + kids)[..limit + 1] == xs[..limit] + [xs[limit]];
  }

  lemma ListedNext(nodes: seq<Node>, parents: seq<nat>, xs: seq<nat>, limit: nat)
    requires IsTree(nodes, parents) && limit < |xs| && Listed(nodes, parents, xs, limit)
    ensures xs[limit] < |nodes| && Listed(nodes, parents, xs + nodes[xs[limit]].children, limit + 1)
  {
    assert |parents| == |nodes| && Known(parents, xs, limit, limit);
    hide IsTree, Known, NoDuplicates, Covered;
    var kids := nodes[xs[limit]].children;
    var all, next := xs + kids, limit + 1;
    NextAreNew(nodes, parents, xs, limit, kids);
    forall i | 0 <= i < |all| ensures Known(parents, all, next, i) {
      NextIsKnown(nodes, parents, xs, limit, kids, i);
    }
    forall c | 0 < c < |parents| ensures Covered(parents, all, next, c) {
      NextIsCovered(nodes, parents, xs, limit, kids, c);
    }
  }

  lemma ListedFits(nodes: seq<Node>, parents: seq<nat>, xs: seq<nat>, limit: nat)
    requires |parents| == |nodes| && limit <= |xs| && Listed(nodes, parents, xs, limit)
    ensures |xs| <= |nodes|
  {
    forall i | 0 <= i < |xs| ensures xs[i] < |nodes| { assert Known(parents, xs, limit, i); }
    FewDifferent(xs, |nodes|);
  }

  lemma {:induction false} AllListed(nodes: seq<Node>, parents: seq<nat>, xs: seq<nat>, k: nat)
    requires IsTree(nodes, parents) && Listed(nodes, parents, xs, |xs|) && k < |nodes|
    ensures k in xs
  {
    if k > 0 {
      assert UnderParent(nodes, parents, k) && Covered(parents, xs, |xs|, k);
      AllListed(nodes, parents, xs, parents[k]);
      assert xs[..|xs|] == xs;
    }
  }

  // ---- the two passes ----

  /** `p` keeps its children, and they keep their place. */
  ghost predicate RowKept(nodes: seq<Node>, nodes': seq<Node>, p: nat) {
    && |nodes'| == |nodes| && KidsExist(nodes, p)
    && nodes'[p].children == nodes[p].children && nodes'[p].own == nodes[p].own && nodes'[p].width == nodes[p].width
    && forall c :: c in nodes[p].children ==> nodes'[c].offset == nodes[c].offset && nodes'[c].width == nodes[c].width
  }

  lemma PackedKept(nodes: seq<Node>, nodes': seq<Node>, p: nat, base: int)
    requires Packed(nodes, p, base) && RowKept(nodes, nodes', p)
    ensures Packed(nodes', p, base)
  {
    hide WidthSum;
    var order :| PackedIn(nodes, p, base, order);
    forall i | 0 <= i < |order|
      ensures nodes'[order[i]].width == nodes[order[i]].width && nodes'[order[i]].offset == nodes[order[i]].offset
    {
      InPermutation(order, nodes[p].children, order[i]);
    }
    forall i, j | 0 <= i < j < |order| ensures Before(nodes', order[i], order[j]) {
      assert Before(nodes, order[i], order[j]);
    }
    forall i | 0 <= i < |order| ensures nodes'[order[i]].offset == base + WidthSum(nodes', order[..i]) {
      WidthSumSame(nodes, nodes', order[..i]);
    }
    assert PackedIn(nodes', p, base, order);
  }

  lemma WidthKept(nodes: seq<Node>, nodes': seq<Node>, p: nat)
    requires WidthRight(nodes, p) && RowKept(nodes, nodes', p)
    ensures WidthRight(nodes', p)
  {
    WidthSumSame(nodes, nodes', nodes[p].children);
  }

  /** The first pass has done the nodes from `i` on. */
  ghost predicate Measured(nodes: seq<Node>, xs: seq<nat>, i: nat) {
    forall j :: i <= j < |xs| ==> WidthRight(nodes, xs[j]) && Packed(nodes, xs[j], 0)
  }

  /** The second pass has done the nodes up to `i`. */
  ghost predicate Moved(nodes: seq<Node>, xs: seq<nat>, i: nat) {
    forall j :: 0 <= j < |xs| ==>
      && WidthRight(nodes, xs[j]) && Packed(nodes, xs[j], if j < i then nodes[xs[j]].offset else 0)
      && (j < i ==> DepthRight(nodes, xs[j]))
  }

  /** A node listed earlier is no child of one listed later, and of one parent only. */
  lemma ChildIsLater(nodes: seq<Node>, parents: seq<nat>, xs: seq<nat>, i: nat, j: nat)
    requires IsTree(nodes, parents) && Lists(nodes, parents, xs) && i <= j < |xs|
    ensures xs[i] < |nodes| && xs[j] < |nodes| && xs[i] !in nodes[xs[j]].children
  {
    assert xs[i] in xs && xs[j] in xs && ParentEarlier(parents, xs, i, i) && ParentEarlier(parents, xs, j, j);
    assert OverChildren(nodes, parents, xs[j]);
    assert xs[j] !in xs[..i];
    if i == 0 {
      assert 0 in xs;
      var k :| 0 <= k < |xs| && xs[k] == 0;
      assert ParentEarlier(parents, xs, k, k);
    }
  }

  lemma OneParent(nodes: seq<Node>, parents: seq<nat>, p: nat, q: nat, c: nat)
    requires IsTree(nodes, parents) && p < |nodes| && q < |nodes| && p != q && c in nodes[p].children
    ensures c !in nodes[q].children && c != 0 && c != p
  {
    assert OverChildren(nodes, parents, p) && OverChildren(nodes, parents, q);
    var i :| 0 <= i < |nodes[p].children| && nodes[p].children[i] == c;
    assert p < c && parents[c] == p;
  }

  lemma WidthSet(nodes: seq<Node>, parents: seq<nat>, nodes': seq<Node>, xs: seq<nat>, i: nat, w: int)
    requires IsTree(nodes, parents) && Lists(nodes, parents, xs) && i < |xs| && Measured(nodes, xs, i + 1)
    requires xs[i] < |nodes| && KidsExist(nodes, xs[i])
    requires w == nodes[xs[i]].own + WidthSum(nodes, nodes[xs[i]].children)
    requires nodes' == nodes[xs[i] := nodes[xs[i]].(width := w)]
    ensures WidthRight(nodes', xs[i]) && Measured(nodes', xs, i + 1)
  {
    assert NoDuplicates(xs);
    hide WidthSum, PackedIn, Lists, IsTree;
    var n := xs[i];
    ChildIsLater(nodes, parents, xs, i, i);
    WidthSumSame(nodes, nodes', nodes[n].children);
    forall j | i + 1 <= j < |xs| ensures WidthRight(nodes', xs[j]) && Packed(nodes', xs[j], 0) {
      ChildIsLater(nodes, parents, xs, i, j);
      assert RowKept(nodes, nodes', xs[j]);
      WidthKept(nodes, nodes', xs[j]);
      PackedKept(nodes, nodes', xs[j], 0);
    }
  }

  /** Only the offsets of the children of `n` differ. */
  ghost predicate ChildrenPlaced(nodes: seq<Node>, nodes': seq<Node>, n: nat)
    requires n < |nodes|
  {
    && |nodes'| == |nodes|
    && forall k :: 0 <= k < |nodes| ==>
         nodes'[k] == if k in nodes[n].children then nodes[k].(offset := nodes'[k].offset) else nodes[k]
  }

  lemma RowPlaced(nodes: seq<Node>, parents: seq<nat>, nodes': seq<Node>, xs: seq<nat>, i: nat)
    requires IsTree(nodes, parents) && Lists(nodes, parents, xs) && i < |xs|
    requires xs[i] < |nodes| && ChildrenPlaced(nodes, nodes', xs[i]) && Packed(nodes', xs[i], 0)
    requires WidthRight(nodes, xs[i]) && Measured(nodes, xs, i + 1)
    ensures Measured(nodes', xs, i) && SameShape(nodes, nodes')
  {
    assert NoDuplicates(xs);
    hide WidthSum, PackedIn, Lists, IsTree;
    var n := xs[i];
    ChildIsLater(nodes, parents, xs, i, i);
    WidthSumSame(nodes, nodes', nodes[n].children);
    forall j | i + 1 <= j < |xs| ensures WidthRight(nodes', xs[j]) && Packed(nodes', xs[j], 0) {
      ChildIsLater(nodes, parents, xs, i, j);
      OtherRowsKept(nodes, parents, nodes', n, xs[j]);
      WidthKept(nodes, nodes', xs[j]);
      PackedKept(nodes, nodes', xs[j], 0);
    }
  }

  lemma OtherRowsKept(nodes: seq<Node>, parents: seq<nat>, nodes': seq<Node>, n: nat, q: nat)
    requires IsTree(nodes, parents) && n < |nodes| && q < |nodes| && n != q && |nodes'| == |nodes|
    requires forall k :: 0 <= k < |nodes| ==>
               && nodes'[k].children == nodes[k].children && nodes'[k].own == nodes[k].own && nodes'[k].width == nodes[k].width
               && (k !in nodes[n].children ==> nodes'[k].offset == nodes[k].offset && nodes'[k].depth == nodes[k].depth)
    ensures RowKept(nodes, nodes', q)
    ensures DepthRight(nodes, q) && q !in nodes[n].children ==> DepthRight(nodes', q)
  {
    TreeKidsExist(nodes, parents);
    assert KidsExist(nodes, q);
    forall c | c in nodes[q].children ensures c !in nodes[n].children { OneParent(nodes, parents, q, n, c); }
  }

  /** The second pass moves the children of one node by its own offset. */
  ghost predicate ChildrenMoved(nodes: seq<Node>, nodes': seq<Node>, n: nat)
    requires n < |nodes|
  {
    && |nodes'| == |nodes|
    && forall k :: 0 <= k < |nodes| ==>
         nodes'[k] == if k in nodes[n].children
                      then nodes[k].(depth := nodes[n].depth + 1, offset := nodes[k].offset + nodes[n].offset)
                      else nodes[k]
  }

  lemma PackedMoves(nodes: seq<Node>, nodes': seq<Node>, n: nat)
    requires Packed(nodes, n, 0) && ChildrenMoved(nodes, nodes', n) && n !in nodes[n].children
    ensures Packed(nodes', n, nodes[n].offset)
  {
    hide WidthSum;
    var order :| PackedIn(nodes, n, 0, order);
    forall i | 0 <= i < |order|
      ensures nodes'[order[i]].width == nodes[order[i]].width
      ensures nodes'[order[i]].offset == nodes[order[i]].offset + nodes[n].offset
    {
      InPermutation(order, nodes[n].children, order[i]);
    }
    forall i, j | 0 <= i < j < |order| ensures Before(nodes', order[i], order[j]) {
      assert Before(nodes, order[i], order[j]);
    }
    forall i | 0 <= i < |order| ensures nodes'[order[i]].offset == nodes[n].offset + WidthSum(nodes', order[..i]) {
      WidthSumSame(nodes, nodes', order[..i]);
    }
    assert PackedIn(nodes', n, nodes[n].offset, order);
  }

  lemma RowMoved(nodes: seq<Node>, parents: seq<nat>, nodes': seq<Node>, xs: seq<nat>, i: nat)
    requires IsTree(nodes, parents) && Lists(nodes, parents, xs) && i < |xs|
    requires xs[i] < |nodes| && ChildrenMoved(nodes, nodes', xs[i]) && Moved(nodes, xs, i)
    ensures Moved(nodes', xs, i + 1) && SameShape(nodes, nodes') && nodes'[0] == nodes[0]
  {
    assert NoDuplicates(xs) && |nodes| > 0;
    var n := xs[i];
    ChildIsLater(nodes, parents, xs, i, i);
    RootIsNoChild(nodes, parents, n);
    hide WidthSum, PackedIn, Lists, IsTree, DepthRight;
    forall j | 0 <= j < |xs|
      ensures WidthRight(nodes', xs[j]) && Packed(nodes', xs[j], if j < i + 1 then nodes'[xs[j]].offset else 0)
      ensures j < i + 1 ==> DepthRight(nodes', xs[j])
    {
      if j == i {
        WidthSumSame(nodes, nodes', nodes[n].children);
        PackedMoves(nodes, nodes', n);
        ChildrenDeeper(nodes, nodes', n);
      } else {
        assert WidthRight(nodes, xs[j]);
        if j < i { ChildIsLater(nodes, parents, xs, j, i); }
        OtherRowsKept(nodes, parents, nodes', n, xs[j]);
        WidthKept(nodes, nodes', xs[j]);
        PackedKept(nodes, nodes', xs[j], if j < i then nodes[xs[j]].offset else 0);
      }
    }
  }

  lemma ChildrenDeeper(nodes: seq<Node>, nodes': seq<Node>, n: nat)
    requires KidsExist(nodes, n) && ChildrenMoved(nodes, nodes', n) && n !in nodes[n].children
    ensures DepthRight(nodes', n)
  {
  }

  lemma RootIsNoChild(nodes: seq<Node>, parents: seq<nat>, n: nat)
    requires IsTree(nodes, parents) && n < |nodes|
    ensures 0 !in nodes[n].children
  {
    assert OverChildren(nodes, parents, n);
  }

  // ---- the program ----

  class Graph {
    var nodes: seq<Node>
    ghost var parents: seq<nat>

    ghost predicate Valid()
      reads this
    {
      IsTree(nodes, parents)
    }

    constructor ()
      ensures Valid() && nodes == [Node("", 0, [], 0, 0, 0)] && parents == [0]
    {
      nodes, parents := [Node("", 0, [], 0, 0, 0)], [0];
    }

    /** `Node.child`: the child of that name, made if it is not there. */
    method Child(k: nat, name: string) returns (c: nat)
      requires Valid() && k < |nodes|
      modifies this
      ensures Valid() && k < c < |nodes| && parents[c] == k && nodes[c].name == name
      ensures (nodes == old(nodes) && parents == old(parents))
           || (nodes == WithChild(old(nodes), k, name) && parents == old(parents) + [k] && c == |old(nodes)|)
      ensures c < |old(nodes)| <==> nodes == old(nodes)
    {
      assert OverChildren(nodes, parents, k);
      var found := Named(nodes, nodes[k].children, name);
      if found.Some? {
        return found.value;
      }
      c := |nodes|;
      WithChildIsTree(nodes, parents, k, name);
      nodes, parents := WithChild(nodes, k, name), parents + [k];
    }

    /** Adds to a node's own value. */
    method Add(k: nat, amount: int)
      requires Valid() && k < |nodes|
      modifies `nodes
      ensures Valid() && nodes == old(nodes)[k := old(nodes)[k].(own := old(nodes)[k].own + amount)]
    {
      ghost var before := nodes;
      nodes := nodes[k := nodes[k].(own := nodes[k].own + amount)];
      NamesAndChildrenMakeTree(before, nodes, parents);
    }

    /** `Node.subtree` of the root. */
    method Subtree() returns (result: seq<nat>)
      requires Valid()
      ensures Lists(nodes, parents, result)
    {
      hide IsTree, ParentEarlier;
      result := [0];
      var offset := 0;
      assert Listed(nodes, parents, result, 0) by { StartListed(nodes, parents); }
      while offset < |result|
        invariant offset <= |result| && |parents| == |nodes| && Listed(nodes, parents, result, offset)
        decreases |nodes| - offset
      {
        ListedFits(nodes, parents, result, offset);
        ListedNext(nodes, parents, result, offset);
        result := result + nodes[result[offset]].children;
        offset := offset + 1;
      }
      ListedAll(nodes, parents, result);
    }

    /** A node's own value and the widths of its children. */
    method Measure(n: nat)
      requires Valid() && n < |nodes|
      modifies `nodes
      ensures KidsExist(old(nodes), n)
      ensures nodes == old(nodes)[n := old(nodes)[n].(width := old(nodes)[n].own + WidthSum(old(nodes), old(nodes)[n].children))]
    {
      TreeKidsExist(nodes, parents);
      assert OverChildren(nodes, parents, n) && KidsExist(nodes, n);
      ghost var before := nodes;
      var kids := nodes[n].children;
      nodes := nodes[n := nodes[n].(width := nodes[n].own)];
      for i := 0 to |kids|
        invariant nodes == before[n := before[n].(width := before[n].own + WidthSum(before, kids[..i]))]
      {
        assert kids[..i + 1][..i] == kids[..i];
        nodes := nodes[n := nodes[n].(width := nodes[n].width + nodes[kids[i]].width)];
      }
      assert kids[..|kids|] == kids;
    }

    /** Children side by side from 0 on, in order of width. */
    method Place(n: nat)
      requires Valid() && n < |nodes|
      modifies `nodes
      ensures ChildrenPlaced(old(nodes), nodes, n) && Packed(nodes, n, 0)
    {
      assert OverChildren(nodes, parents, n);
      ghost var before := nodes;
      var kids := nodes[n].children;
      var order := ByWidth(nodes, kids);
      ByWidthInOrder(nodes, kids);
      var offset := 0;
      for i := 0 to |order|
        invariant Placing(before, nodes, order, i) && offset == WidthSum(before, order[..i])
      {
        PlacingNext(before, nodes, order, i, offset);
        nodes := nodes[order[i] := nodes[order[i]].(offset := offset)];
        offset := offset + nodes[order[i]].width;
      }
      PlacedAll(before, nodes, n, order);
    }

    /** Children move by the offset of their parent, one row below it. */
    method Move(n: nat)
      requires Valid() && n < |nodes|
      modifies `nodes
      ensures ChildrenMoved(old(nodes), nodes, n)
    {
      assert OverChildren(nodes, parents, n);
      ghost var before := nodes;
      var kids := nodes[n].children;
      for i := 0 to |kids|
        invariant |nodes| == |before|
        invariant forall k :: 0 <= k < |nodes| ==>
                    nodes[k] == if k in kids[..i]
                                then before[k].(depth := before[n].depth + 1, offset := before[k].offset + before[n].offset)
                                else before[k]
      {
        var c := kids[i];
        nodes := nodes[c := nodes[c].(depth := nodes[n].depth + 1, offset := nodes[c].offset + nodes[n].offset)];
        assert kids[..i + 1] == kids[..i] + [c];
      }
      assert kids[..|kids|] == kids;
    }

    /** `layout`. */
    method Layout()
      requires Valid()
      modifies `nodes
      ensures Valid() && SameShape(old(nodes), nodes) && LaidOut(nodes)
      ensures nodes[0].offset == old(nodes)[0].offset && nodes[0].depth == old(nodes)[0].depth
    {
      hide IsTree, Packed, WidthRight, DepthRight, KidsExist;
      var list := Subtree();
      RootThere(nodes, parents);
      for i := |list| downto 0
        invariant |parents| == |nodes| > 0 && Valid() && SameShape(old(nodes), nodes) && Lists(nodes, parents, list) && Measured(nodes, list, i)
        invariant nodes[0].offset == old(nodes)[0].offset && nodes[0].depth == old(nodes)[0].depth
      {
        var n := list[i];
        assert n in list;
        ghost var before := nodes;
        Measure(n);
        WidthSet(before, parents, nodes, list, i, nodes[n].width);
        SameShapeIsTree(before, nodes, parents);
        ghost var between := nodes;
        Place(n);
        RootIsNoChild(between, parents, n);
        RowPlaced(between, parents, nodes, list, i);
        SameShapeIsTree(between, nodes, parents);
      }
      AllMeasured(nodes, parents, list);
      list := Subtree();
      StillMeasured(nodes, parents, list);
      for i := 0 to |list|
        invariant |parents| == |nodes| > 0 && Valid() && SameShape(old(nodes), nodes) && Lists(nodes, parents, list) && Moved(nodes, list, i)
        invariant nodes[0].offset == old(nodes)[0].offset && nodes[0].depth == old(nodes)[0].depth
      {
        var n := list[i];
        assert n in list;
        ghost var before := nodes;
        Move(n);
        RowMoved(before, parents, nodes, list, i);
        SameShapeIsTree(before, nodes, parents);
      }
      AllMoved(nodes, parents, list);
    }
  }

  lemma ListedAll(nodes: seq<Node>, parents: seq<nat>, xs: seq<nat>)
    requires IsTree(nodes, parents) && Listed(nodes, parents, xs, |xs|)
    ensures Lists(nodes, parents, xs)
  {
    assert |parents| == |nodes|;
    hide IsTree, NoDuplicates, ParentEarlier, Covered;
    forall k ensures 0 <= k < |nodes| <==> k in xs {
      if 0 <= k < |nodes| { AllListed(nodes, parents, xs, k); }
      if k in xs {
        var i :| 0 <= i < |xs| && xs[i] == k;
        assert Known(parents, xs, |xs|, i);
      }
    }
    forall i | 0 <= i < |xs| ensures ParentEarlier(parents, xs, i, i) {
      assert Known(parents, xs, |xs|, i);
    }
  }

  lemma RootThere(nodes: seq<Node>, parents: seq<nat>)
    requires IsTree(nodes, parents)
    ensures |nodes| > 0 && |parents| == |nodes|
  {
  }

  lemma StartListed(nodes: seq<Node>, parents: seq<nat>)
    requires IsTree(nodes, parents)
    ensures |parents| == |nodes| && Listed(nodes, parents, [0], 0)
  {
  }

  ghost predicate OnlyOffsetsOf(before: seq<Node>, nodes: seq<Node>, xs: seq<nat>) {
    && |nodes| == |before|
    && forall k :: 0 <= k < |nodes| ==> nodes[k] == if k in xs then before[k].(offset := nodes[k].offset) else before[k]
  }

  lemma OneMoreOffset(before: seq<Node>, nodes: seq<Node>, xs: seq<nat>, x: nat, offset: int)
    requires OnlyOffsetsOf(before, nodes, xs) && x < |nodes|
    ensures OnlyOffsetsOf(before, nodes[x := nodes[x].(offset := offset)], xs + [x])
  {
  }

  ghost predicate OffsetsAre(before: seq<Node>, nodes: seq<Node>, order: seq<nat>, i: nat)
    requires i <= |order| && |nodes| == |before| && InOrder(before, order)
  {
    forall j :: 0 <= j < i ==> nodes[order[j]].offset == WidthSum(before, order[..j])
  }

  /** The first `i` nodes of `order` have got their offsets, and nothing else has changed. */
  ghost predicate Placing(before: seq<Node>, nodes: seq<Node>, order: seq<nat>, i: nat) {
    && i <= |order| && |nodes| == |before| && InOrder(before, order)
    && OnlyOffsetsOf(before, nodes, order[..i]) && OffsetsAre(before, nodes, order, i)
  }

  lemma OffsetsNext(before: seq<Node>, nodes: seq<Node>, order: seq<nat>, i: nat, offset: int)
    requires i < |order| && |nodes| == |before| && InOrder(before, order)
    requires OffsetsAre(before, nodes, order, i) && offset == WidthSum(before, order[..i])
    ensures OffsetsAre(before, nodes[order[i] := nodes[order[i]].(offset := offset)], order, i + 1)
  {
    hide WidthSum;
    forall j | 0 <= j < i ensures order[j] != order[i] { assert Before(before, order[j], order[i]); }
  }

  lemma PlacingNext(before: seq<Node>, nodes: seq<Node>, order: seq<nat>, i: nat, offset: int)
    requires i < |order| && Placing(before, nodes, order, i) && offset == WidthSum(before, order[..i])
    ensures order[i] < |nodes|
    ensures Placing(before, nodes[order[i] := nodes[order[i]].(offset := offset)], order, i + 1)
    ensures WidthSum(before, order[..i + 1]) == offset + nodes[order[i]].width
  {
    assert WidthSum(before, order[..i + 1]) == offset + before[order[i]].width by {
      assert order[..i + 1][..i] == order[..i];
    }
    assert nodes[order[i]].width == before[order[i]].width;
    OffsetsNext(before, nodes, order, i, offset);
    hide WidthSum, OnlyOffsetsOf, OffsetsAre;
    assert order[..i + 1] == order[..i] + [order[i]];
    OneMoreOffset(before, nodes, order[..i], order[i], offset);
  }

  lemma PlacedAll(before: seq<Node>, nodes: seq<Node>, n: nat, order: seq<nat>)
    requires KidsExist(before, n) && Placing(before, nodes, order, |order|) && multiset(order) == multiset(before[n].children)
    ensures ChildrenPlaced(before, nodes, n) && Packed(nodes, n, 0)
  {
    hide WidthSum;
    assert order[..|order|] == order;
    assert forall k :: 0 <= k < |nodes| ==> nodes[k] == if k in order then before[k].(offset := nodes[k].offset) else before[k];
    forall k | 0 <= k < |nodes| ensures k in order <==> k in before[n].children {
      if k in order { InPermutation(order, before[n].children, k); }
      if k in before[n].children { InPermutation(before[n].children, order, k); }
    }
    forall i, j | 0 <= i < j < |order| ensures Before(nodes, order[i], order[j]) {
      assert Before(before, order[i], order[j]);
    }
    forall i | 0 <= i < |order| ensures nodes[order[i]].offset == WidthSum(nodes, order[..i]) {
      WidthSumSame(before, nodes, order[..i]);
    }
    assert PackedIn(nodes, n, 0, order);
  }

  lemma AllMeasured(nodes: seq<Node>, parents: seq<nat>, xs: seq<nat>)
    requires |parents| == |nodes| && Lists(nodes, parents, xs) && Measured(nodes, xs, 0)
    ensures forall p :: 0 <= p < |nodes| ==> WidthRight(nodes, p) && Packed(nodes, p, 0)
  {
    hide WidthRight, Packed;
    forall p | 0 <= p < |nodes| ensures WidthRight(nodes, p) && Packed(nodes, p, 0) {
      assert p in xs;
      var j :| 0 <= j < |xs| && xs[j] == p;
    }
  }

  lemma StillMeasured(nodes: seq<Node>, parents: seq<nat>, xs: seq<nat>)
    requires |parents| == |nodes| && Lists(nodes, parents, xs)
    requires forall p :: 0 <= p < |nodes| ==> WidthRight(nodes, p) && Packed(nodes, p, 0)
    ensures Moved(nodes, xs, 0)
  {
    hide WidthRight, Packed;
    forall j | 0 <= j < |xs| ensures WidthRight(nodes, xs[j]) && Packed(nodes, xs[j], 0) { assert xs[j] in xs; }
  }

  lemma AllMoved(nodes: seq<Node>, parents: seq<nat>, xs: seq<nat>)
    requires |parents| == |nodes| && Lists(nodes, parents, xs) && Moved(nodes, xs, |xs|)
    ensures LaidOut(nodes)
  {
    hide WidthRight, Packed, DepthRight;
    forall p | 0 <= p < |nodes| ensures WidthRight(nodes, p) && Packed(nodes, p, nodes[p].offset) && DepthRight(nodes, p) {
      assert p in xs;
      var j :| 0 <= j < |xs| && xs[j] == p;
    }
  }
}
